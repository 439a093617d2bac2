/** Naming of the downloaded GIF: `removeFileNameExt` and the choice between
    the chosen file's name and `result` in the render button's handler. */
module FileName {
  import opened Options

  /** JavaScript's `s.split(sep)` for a one-character separator: the pieces
      between consecutive separators, empty pieces included. */
  function Split(s: string, sep: char): (parts: seq<string>)
    ensures |parts| >= 1
    ensures forall k :: 0 <= k < |parts| ==> sep !in parts[k]
  {
    if s == [] then [[]]
    else
      var rest := Split(s[1..], sep);
      if s[0] == sep then [[]] + rest
      else [[s[0]] + rest[0]] + rest[1..]
  }

  /** JavaScript's `parts.join(sep)`; the join of no parts is empty. */
  function Join(parts: seq<string>, sep: char): (r: string)
    ensures |parts| >= 1 ==> |r| >= |parts| - 1
  {
    if |parts| == 0 then []
    else if |parts| == 1 then parts[0]
    else parts[0] + [sep] + Join(parts[1..], sep)
  }

  /** A join starts with its first piece and ends with its last. */
  lemma {:induction false} JoinEnds(parts: seq<string>, sep: char)
    requires |parts| >= 1
    ensures |parts[0]| <= |Join(parts, sep)| && Join(parts, sep)[..|parts[0]|] == parts[0]
    ensures var r, last := Join(parts, sep), parts[|parts| - 1];
      |last| <= |r| && r[|r| - |last|..] == last
  {
    if |parts| > 1 {
      JoinEnds(parts[1..], sep);
      var rest := Join(parts[1..], sep);
      assert Join(parts, sep) == parts[0] + [sep] + rest;
      assert parts[1..][|parts| - 2] == parts[|parts| - 1];
    }
  }

  /** As in JavaScript, a split keeps the empty pieces around doubled, leading
      and trailing separators, the empty string splits into one empty piece,
      and the join of no pieces is empty. */
  lemma SplitKeepsEmptyPieces()
    ensures Split("a..b", '.') == ["a", "", "b"]
    ensures Split(".gif", '.') == ["", "gif"]
    ensures Split("a.", '.') == ["a", ""]
    ensures Split("", '.') == [""]
    ensures Join([], '.') == ""
  {
    assert "a..b"[1..] == "..b" && "..b"[1..] == ".b" && ".b"[1..] == "b" && "b"[1..] == "";
    SplitSingle("b", '.');
    assert Split(".b", '.') == ["", "b"];
    assert Split("..b", '.') == ["", "", "b"];
    assert "a..b"[0] == 'a' && ['a'] + "" == "a";
    assert Split("a..b", '.') == [['a'] + ""] + ["", "b"];
    assert ".gif"[1..] == "gif" && "gif"[1..] == "if" && "if"[1..] == "f" && "f"[1..] == "";
    SplitSingle("gif", '.');
    assert "a."[1..] == "." && "."[1..] == "";
    assert Split(".", '.') == ["", ""];
    assert Split("a.", '.') == [['a'] + ""] + [""];
  }

  /** Splitting yields a single piece exactly when the separator is absent. */
  lemma {:induction false} SplitSingle(s: string, sep: char)
    ensures |Split(s, sep)| == 1 <==> sep !in s
    ensures sep !in s ==> Split(s, sep) == [s]
  {
    if s != [] {
      SplitSingle(s[1..], sep);
      assert s == [s[0]] + s[1..];
    }
  }

  /** Joining the pieces of a split gives back the string. */
  lemma {:induction false} JoinSplit(s: string, sep: char)
    ensures Join(Split(s, sep), sep) == s
  {
    if s != [] {
      var rest := Split(s[1..], sep);
      JoinSplit(s[1..], sep);
      if s[0] == sep {
        assert Split(s, sep) == [[]] + rest;
        assert Join(Split(s, sep), sep) == [sep] + Join(rest, sep);
      } else if |rest| == 1 {
        assert Join(Split(s, sep), sep) == [s[0]] + rest[0];
      } else {
        var parts := Split(s, sep);
        assert parts[1..] == rest[1..];
        assert Join(rest, sep) == rest[0] + [sep] + Join(rest[1..], sep);
        assert Join(parts, sep) == [s[0]] + rest[0] + [sep] + Join(rest[1..], sep);
      }
      assert s == [s[0]] + s[1..];
    }
  }

  /** A separator-free piece followed by the separator splits off as one piece. */
  lemma {:induction false} SplitPrefix(a: string, b: string, sep: char)
    requires sep !in a
    ensures Split(a + [sep] + b, sep) == [a] + Split(b, sep)
  {
    if a != [] {
      var s := a + [sep] + b;
      SplitPrefix(a[1..], b, sep);
      assert s[0] == a[0] && s[0] != sep;
      assert s[1..] == a[1..] + [sep] + b;
      var rest := Split(s[1..], sep);
      assert rest == [a[1..]] + Split(b, sep);
      assert Split(s, sep) == [[a[0]] + a[1..]] + rest[1..];
      assert [a[0]] + a[1..] == a;
    } else {
      assert a + [sep] + b == [sep] + b;
      assert ([sep] + b)[1..] == b;
    }
  }

  /** Splitting the join of separator-free pieces gives back the pieces. */
  lemma {:induction false} SplitJoin(parts: seq<string>, sep: char)
    requires |parts| >= 1
    requires forall k :: 0 <= k < |parts| ==> sep !in parts[k]
    ensures Split(Join(parts, sep), sep) == parts
  {
    if |parts| == 1 {
      SplitSingle(parts[0], sep);
    } else {
      SplitJoin(parts[1..], sep);
      SplitPrefix(parts[0], Join(parts[1..], sep), sep);
      assert parts == [parts[0]] + parts[1..];
    }
  }

  /** Joining two or more pieces ends with the separator and the last piece. */
  lemma {:induction false} JoinLast(parts: seq<string>, sep: char)
    requires |parts| >= 2
    ensures Join(parts, sep) == Join(parts[..|parts| - 1], sep) + [sep] + parts[|parts| - 1]
  {
    if |parts| > 2 {
      var tail := parts[1..];
      JoinLast(tail, sep);
      assert tail[..|tail| - 1] == parts[..|parts| - 1][1..];
    }
  }

  /** `removeFileNameExt`: a name with a dot loses its last dot and what
      follows it; a name without a dot is returned unchanged. */
  function RemoveFileNameExt(fileName: string): (r: string)
    ensures '.' !in fileName ==> r == fileName
  {
    if '.' in fileName then
      var parts := Split(fileName, '.');
      Join(parts[..|parts| - 1], '.')
    else
      fileName
  }

  /** The extension that `RemoveFileNameExt` drops: the last dot-separated piece. */
  function Extension(fileName: string): (ext: string)
    ensures '.' !in ext
  {
    var parts := Split(fileName, '.');
    parts[|parts| - 1]
  }

  /** The stem, a dot and the dot-free extension make up the name again. */
  lemma RemoveExtRebuilds(fileName: string)
    requires '.' in fileName
    ensures RemoveFileNameExt(fileName) + "." + Extension(fileName) == fileName
  {
    var parts := Split(fileName, '.');
    SplitSingle(fileName, '.');
    assert |parts| >= 2;
    assert RemoveFileNameExt(fileName) == Join(parts[..|parts| - 1], '.');
    assert Extension(fileName) == parts[|parts| - 1];
    JoinLast(parts, '.');
    JoinSplit(fileName, '.');
  }

  /** Reference reading: the result is the name cut just before its last dot. */
  lemma RemoveExtCutsAtLastDot(fileName: string)
    requires '.' in fileName
    ensures var r := RemoveFileNameExt(fileName);
      |r| < |fileName| && fileName[|r|] == '.' && '.' !in fileName[|r| + 1..] && r == fileName[..|r|]
  {
    var r := RemoveFileNameExt(fileName);
    RemoveExtRebuilds(fileName);
    assert fileName[|r| + 1..] == Extension(fileName);
  }

  /** `"a.b.c"` keeps `"a.b"`: only the last extension goes. */
  lemma RemoveExtLastOnly()
    ensures RemoveFileNameExt("a.b.c") == "a.b"
  {
    RemoveExtCutsAtLastDot("a.b.c");
    var r := RemoveFileNameExt("a.b.c");
    assert "a.b.c"[4..] == "c";
    assert |r| == 3;
  }

  /** A name that is only an extension, such as `".gif"`, leaves nothing. */
  lemma RemoveExtOfDotFile()
    ensures RemoveFileNameExt(".gif") == ""
  {
    RemoveExtCutsAtLastDot(".gif");
    var r := RemoveFileNameExt(".gif");
    assert ".gif"[1..] == "gif";
    assert |r| == 0;
  }

  /** The `download` name set by the render button: the chosen file's name
      with its extension replaced by `.gif`, or `result.gif` without a file. */
  function DownloadName(file: Option<string>): (name: string)
    ensures |name| >= 4 && name[|name| - 4..] == ".gif"
    ensures file.None? ==> name == "result.gif"
  {
    var stem := if file.Some? then RemoveFileNameExt(file.value) else "result";
    stem + ".gif"
  }

  /** With a chosen file, the download name is the file's name with `.gif`
      appended when it has no dot, and with its extension replaced by `gif`
      when it has one. */
  lemma DownloadNameOfFile(fileName: string)
    ensures '.' !in fileName ==> DownloadName(Some(fileName)) == fileName + ".gif"
    ensures '.' in fileName ==>
      var name := DownloadName(Some(fileName));
      name[..|name| - 4] + "." + Extension(fileName) == fileName
  {
    if '.' in fileName {
      RemoveExtRebuilds(fileName);
      var name := DownloadName(Some(fileName));
      assert name[..|name| - 4] == RemoveFileNameExt(fileName);
    }
  }
}
