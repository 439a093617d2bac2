/** The vertical flip that `render` applies to every RGBA frame read back
    from WebGL: the rasterizer delivers rows bottom-up, the GIF encoder wants
    them top-down, so row `y` and row `height - 1 - y` trade places. */
module FrameFlip {

  /** One channel value of a `Uint8ClampedArray`. */
  type Byte = b: int | 0 <= b < 256

  /** Bytes in one pixel row of an RGBA frame `width` pixels wide. */
  function RowBytes(width: nat): (r: nat)
    ensures width > 0 ==> r >= 4
    ensures r % 4 == 0 && r / 4 == width
  {
    4 * width
  }

  // ---------------------------------------------------------------------------
  // Index arithmetic: a frame of `height` rows of `row` bytes each.

  /** Byte offset at which row `y` starts: `y` rows of `row` bytes. Kept
      recursive so that proofs about rows need only addition. */
  function RowOffset(row: nat, y: nat): nat
  {
    if y == 0 then 0 else RowOffset(row, y - 1) + row
  }

  /** The offset is the product the page computes. */
  lemma {:induction false} RowOffsetIsProduct(row: nat, y: nat)
    ensures RowOffset(row, y) == y * row
  {
    if y > 0 {
      RowOffsetIsProduct(row, y - 1);
    }
  }

  /** The read-back buffer of a `width` x `height` canvas: `4 * width * height` bytes. */
  function FrameBytes(width: nat, height: nat): (n: nat)
    ensures height > 0 ==> RowBytes(width) <= n
  {
    RowOffset(RowBytes(width), height)
  }

  lemma FrameBytesIsProduct(width: nat, height: nat)
    ensures FrameBytes(width, height) == 4 * width * height
  {
    RowOffsetIsProduct(RowBytes(width), height);
  }

  /** Rows further down start further on. */
  lemma {:induction false} RowOffsetMono(row: nat, a: nat, b: nat)
    requires a <= b
    ensures RowOffset(row, a) <= RowOffset(row, b)
    decreases b
  {
    if a < b {
      RowOffsetMono(row, a, b - 1);
    }
  }

  /** Row `y` of the frame `s`: the `row` bytes from its offset on. */
  function Row<T>(s: seq<T>, row: nat, height: nat, y: nat): (r: seq<T>)
    requires |s| == RowOffset(row, height) && y < height
    ensures |r| == row
  {
    RowOffsetMono(row, y + 1, height);
    s[RowOffset(row, y) .. RowOffset(row, y) + row]
  }

  // ---------------------------------------------------------------------------
  // Specification: a flipped frame is the frame with its rows in reverse order.

  function Flipped<T>(s: seq<T>, row: nat, height: nat): (r: seq<T>)
    requires |s| == RowOffset(row, height)
    ensures |r| == |s|
    decreases height
  {
    if height == 0 then [] else Flipped(s[row..], row, height - 1) + s[..row]
  }

  /** Dropping the first row shifts every other row down by one. */
  lemma RowOfTail<T>(s: seq<T>, row: nat, height: nat, y: nat)
    requires height > 0 && |s| == RowOffset(row, height) && y < height - 1
    ensures |s[row..]| == RowOffset(row, height - 1)
    ensures Row(s[row..], row, height - 1, y) == Row(s, row, height, y + 1)
  {
    var a := RowOffset(row, y);
    assert RowOffset(row, y + 1) == a + row;
    RowOffsetMono(row, y + 1, height - 1);
    assert s[row..][a .. a + row] == s[a + row .. a + row + row];
  }

  /** Appending one row keeps the earlier rows and adds it as the last one. */
  lemma RowOfAppend<T>(a: seq<T>, b: seq<T>, row: nat, height: nat, y: nat)
    requires |a| == RowOffset(row, height) && |b| == row && y <= height
    ensures |a + b| == RowOffset(row, height + 1)
    ensures Row(a + b, row, height + 1, y) == if y < height then Row(a, row, height, y) else b
  {
    if y < height {
      RowOffsetMono(row, y + 1, height);
      assert Row(a + b, row, height + 1, y) == Row(a, row, height, y);
    } else {
      assert Row(a + b, row, height + 1, y) == b;
    }
  }

  /** Row `y` of the flipped frame is row `height - 1 - y` of the original. */
  lemma {:induction false} RowOfFlipped<T>(s: seq<T>, row: nat, height: nat, y: nat)
    requires |s| == RowOffset(row, height) && y < height
    ensures Row(Flipped(s, row, height), row, height, y) == Row(s, row, height, height - 1 - y)
    decreases height
  {
    var h' := height - 1;
    var tail, first := s[row..], s[..row];
    var rest := Flipped(tail, row, h');
    assert Flipped(s, row, height) == rest + first;
    RowOfAppend(rest, first, row, h', y);
    if y < h' {
      var y2 := h' - 1 - y;
      assert Row(rest, row, h', y) == Row(tail, row, h', y2) by {
        RowOfFlipped(tail, row, h', y);
      }
      assert Row(tail, row, h', y2) == Row(s, row, height, y2 + 1) by {
        RowOfTail(s, row, height, y2);
      }
    } else {
      assert first == Row(s, row, height, 0);
    }
  }

  /** Two frames of the same shape that agree row by row are equal. */
  lemma {:induction false} EqualByRows<T>(t: seq<T>, u: seq<T>, row: nat, height: nat)
    requires |t| == RowOffset(row, height) && |u| == RowOffset(row, height)
    requires forall y :: 0 <= y < height ==> Row(t, row, height, y) == Row(u, row, height, y)
    ensures t == u
    decreases height
  {
    if height > 0 {
      assert Row(t, row, height, 0) == Row(u, row, height, 0);
      assert t[..row] == u[..row];
      var t', u', h' := t[row..], u[row..], height - 1;
      forall y | 0 <= y < h'
        ensures Row(t', row, h', y) == Row(u', row, h', y)
      {
        RowOfTail(t, row, height, y);
        RowOfTail(u, row, height, y);
      }
      EqualByRows(t', u', row, h');
      assert t == t[..row] + t[row..];
      assert u == u[..row] + u[row..];
    }
  }

  /** A frame whose every row `y` is row `height - 1 - y` of `s` is the flip of `s`. */
  lemma FlippedByRows<T>(t: seq<T>, s: seq<T>, row: nat, height: nat)
    requires |t| == RowOffset(row, height) && |s| == RowOffset(row, height)
    requires forall y :: 0 <= y < height ==> Row(t, row, height, y) == Row(s, row, height, height - 1 - y)
    ensures t == Flipped(s, row, height)
  {
    var f := Flipped(s, row, height);
    forall y | 0 <= y < height
      ensures Row(t, row, height, y) == Row(f, row, height, y)
    {
      RowOfFlipped(s, row, height, y);
    }
    EqualByRows(t, f, row, height);
  }

  lemma FlippedAtOffset<T>(s: seq<T>, row: nat, height: nat, y: nat, x: nat)
    requires |s| == RowOffset(row, height) && y < height && x < row
    ensures RowOffset(row, y) + x < |s| && RowOffset(row, height - 1 - y) + x < |s|
    ensures Flipped(s, row, height)[RowOffset(row, y) + x] == s[RowOffset(row, height - 1 - y) + x]
  {
    var f := Flipped(s, row, height);
    var m := height - 1 - y;
    RowOffsetMono(row, y + 1, height);
    RowOffsetMono(row, m + 1, height);
    assert Row(f, row, height, y) == Row(s, row, height, m) by {
      RowOfFlipped(s, row, height, y);
    }
    assert Row(f, row, height, y)[x] == f[RowOffset(row, y) + x];
    assert Row(s, row, height, m)[x] == s[RowOffset(row, m) + x];
  }

  /** Byte level: byte `x` of row `y` of the flipped frame is byte `x` of row
      `height - 1 - y` of the original, so no byte changes its column. */
  lemma FlippedAt<T>(s: seq<T>, row: nat, height: nat, y: nat, x: nat, i: nat, j: nat)
    requires |s| == RowOffset(row, height) && y < height && x < row
    requires i == y * row + x && j == (height - 1 - y) * row + x
    ensures i < |s| && j < |s| && Flipped(s, row, height)[i] == s[j]
  {
    FlippedAtOffset(s, row, height, y, x);
    RowOffsetIsProduct(row, y);
    RowOffsetIsProduct(row, height - 1 - y);
  }

  /** With an odd number of rows the middle row stays where it is. */
  lemma MiddleRowFixed<T>(s: seq<T>, row: nat, height: nat)
    requires |s| == RowOffset(row, height) && height % 2 == 1
    ensures Row(Flipped(s, row, height), row, height, height / 2) == Row(s, row, height, height / 2)
  {
    RowOfFlipped(s, row, height, height / 2);
  }

  /** Flipping twice gives back the original frame. */
  lemma FlipInvolution<T>(s: seq<T>, row: nat, height: nat)
    requires |s| == RowOffset(row, height)
    ensures Flipped(Flipped(s, row, height), row, height) == s
  {
    var f := Flipped(s, row, height);
    var ff := Flipped(f, row, height);
    forall y | 0 <= y < height
      ensures Row(ff, row, height, y) == Row(s, row, height, y)
    {
      RowOfFlipped(f, row, height, y);
      RowOfFlipped(s, row, height, height - 1 - y);
    }
    EqualByRows(ff, s, row, height);
  }

  /** Flipping only moves bytes: the multiset of byte values is kept. */
  lemma {:induction false} FlipPermutes<T>(s: seq<T>, row: nat, height: nat)
    requires |s| == RowOffset(row, height)
    ensures multiset(Flipped(s, row, height)) == multiset(s)
    decreases height
  {
    if height > 0 {
      FlipPermutes(s[row..], row, height - 1);
      assert s == s[..row] + s[row..];
    }
  }

  // ---------------------------------------------------------------------------
  // The in-place flip of `render`.

  /** The first `y` rows and the last `y` rows of `cur` hold their mirror
      rows of `original`. */
  ghost predicate OuterFlipped<T>(cur: seq<T>, original: seq<T>, row: nat, height: nat, y: nat)
    requires |cur| == RowOffset(row, height) && |original| == RowOffset(row, height)
    requires y <= height
  {
    forall y' :: 0 <= y' < y ==>
      Row(cur, row, height, y') == Row(original, row, height, height - 1 - y') &&
      Row(cur, row, height, height - 1 - y') == Row(original, row, height, y')
  }

  /** The rows from `y` up to `height - y` of `cur` are those of `original`. */
  ghost predicate MiddleKept<T>(cur: seq<T>, original: seq<T>, row: nat, height: nat, y: nat)
    requires |cur| == RowOffset(row, height) && |original| == RowOffset(row, height)
  {
    forall y' :: y <= y' < height - y ==> Row(cur, row, height, y') == Row(original, row, height, y')
  }

  /** Loop invariant of the flip: the outer `y` rows on each side are
      flipped, the rows between them are untouched. */
  ghost predicate FlippedOutside<T>(cur: seq<T>, original: seq<T>, row: nat, height: nat, y: nat)
    requires |cur| == RowOffset(row, height) && |original| == RowOffset(row, height)
  {
    && y <= height - y
    && OuterFlipped(cur, original, row, height, y)
    && MiddleKept(cur, original, row, height, y)
  }

  /** Rows `y` and `height - 1 - y` of `after` are those of `before` exchanged,
      byte by byte, and every other byte is unchanged. */
  ghost predicate RowsSwapped<T>(before: seq<T>, after: seq<T>, row: nat, height: nat, y: nat)
    requires |before| == RowOffset(row, height) && |after| == RowOffset(row, height)
    requires y < height
  {
    var ai0, bi0 := RowOffset(row, y), RowOffset(row, height - 1 - y);
    && ai0 + row <= bi0 && bi0 + row <= |before|
    && (forall k :: ai0 <= k < ai0 + row ==> after[k] == before[k - ai0 + bi0])
    && (forall k :: bi0 <= k < bi0 + row ==> after[k] == before[k - bi0 + ai0])
    && (forall k :: 0 <= k < |before| && !(ai0 <= k < ai0 + row) && !(bi0 <= k < bi0 + row) ==> after[k] == before[k])
  }

  /** Exchanging rows `y` and `height - 1 - y` byte by byte exchanges them as rows. */
  lemma RowsExchanged<T>(before: seq<T>, after: seq<T>, row: nat, height: nat, y: nat)
    requires |before| == RowOffset(row, height) && |after| == RowOffset(row, height)
    requires y < height - 1 - y
    requires RowsSwapped(before, after, row, height, y)
    ensures Row(after, row, height, y) == Row(before, row, height, height - 1 - y)
    ensures Row(after, row, height, height - 1 - y) == Row(before, row, height, y)
  {
    var m := height - 1 - y;
    var ai0, bi0 := RowOffset(row, y), RowOffset(row, m);
    var gotA, wantA := after[ai0 .. ai0 + row], before[bi0 .. bi0 + row];
    assert gotA == wantA by {
      forall i | 0 <= i < row
        ensures gotA[i] == wantA[i]
      {
        var k := ai0 + i;
        assert ai0 <= k < ai0 + row;
      }
    }
    var gotB, wantB := after[bi0 .. bi0 + row], before[ai0 .. ai0 + row];
    assert gotB == wantB by {
      forall i | 0 <= i < row
        ensures gotB[i] == wantB[i]
      {
        var k := bi0 + i;
        assert bi0 <= k < bi0 + row;
      }
    }
  }

  /** Row `y'`, neither `y` nor its mirror, lies wholly before, between or
      after the two exchanged rows. */
  lemma RowApart(row: nat, height: nat, y: nat, y': nat)
    requires y < height - 1 - y
    requires y' < height && y' != y && y' != height - 1 - y
    ensures var ai0, bi0, c := RowOffset(row, y), RowOffset(row, height - 1 - y), RowOffset(row, y');
      c + row <= ai0 || (ai0 + row <= c && c + row <= bi0) || bi0 + row <= c
  {
    var m := height - 1 - y;
    if y' < y {
      RowOffsetMono(row, y' + 1, y);
    } else if y' < m {
      RowOffsetMono(row, y + 1, y');
      RowOffsetMono(row, y' + 1, m);
    } else {
      RowOffsetMono(row, m + 1, y');
    }
  }

  /** Two frames that agree on the bytes of row `y'` have the same row `y'`. */
  lemma RowAgrees<T>(before: seq<T>, after: seq<T>, row: nat, height: nat, y': nat)
    requires |before| == RowOffset(row, height) && |after| == RowOffset(row, height) && y' < height
    requires forall k :: RowOffset(row, y') <= k < RowOffset(row, y') + row && k < |before| ==> after[k] == before[k]
    ensures Row(after, row, height, y') == Row(before, row, height, y')
  {
    var c := RowOffset(row, y');
    RowOffsetMono(row, y' + 1, height);
    var got, want := after[c .. c + row], before[c .. c + row];
    forall i | 0 <= i < row
      ensures got[i] == want[i]
    {
      assert after[c + i] == before[c + i];
    }
  }

  /** ... and leaves every other row as it was. */
  lemma RowKept<T>(before: seq<T>, after: seq<T>, row: nat, height: nat, y: nat, y': nat)
    requires |before| == RowOffset(row, height) && |after| == RowOffset(row, height)
    requires y < height - 1 - y
    requires RowsSwapped(before, after, row, height, y)
    requires y' < height && y' != y && y' != height - 1 - y
    ensures Row(after, row, height, y') == Row(before, row, height, y')
  {
    var ai0, bi0, c := RowOffset(row, y), RowOffset(row, height - 1 - y), RowOffset(row, y');
    RowApart(row, height, y, y');
    forall k | c <= k < c + row && k < |before|
      ensures after[k] == before[k]
    {
      assert !(ai0 <= k < ai0 + row) && !(bi0 <= k < bi0 + row);
    }
    RowAgrees(before, after, row, height, y');
  }

  /** The byte-level exchange seen row by row: rows `y` and `height - 1 - y`
      trade places and every other row stays. */
  ghost predicate RowsTraded<T>(before: seq<T>, after: seq<T>, row: nat, height: nat, y: nat)
    requires |before| == RowOffset(row, height) && |after| == RowOffset(row, height)
    requires y < height - 1 - y
  {
    && Row(after, row, height, y) == Row(before, row, height, height - 1 - y)
    && Row(after, row, height, height - 1 - y) == Row(before, row, height, y)
    && forall y' :: 0 <= y' < height && y' != y && y' != height - 1 - y ==>
         Row(after, row, height, y') == Row(before, row, height, y')
  }

  lemma SwapTradesRows<T>(before: seq<T>, after: seq<T>, row: nat, height: nat, y: nat)
    requires |before| == RowOffset(row, height) && |after| == RowOffset(row, height)
    requires y < height - 1 - y
    requires RowsSwapped(before, after, row, height, y)
    ensures RowsTraded(before, after, row, height, y)
  {
    RowsExchanged(before, after, row, height, y);
    forall y' | 0 <= y' < height && y' != y && y' != height - 1 - y
      ensures Row(after, row, height, y') == Row(before, row, height, y')
    {
      RowKept(before, after, row, height, y, y');
    }
  }

  lemma StepOuter<T>(original: seq<T>, before: seq<T>, after: seq<T>, row: nat, height: nat, y: nat)
    requires |original| == RowOffset(row, height) && |before| == RowOffset(row, height) && |after| == RowOffset(row, height)
    requires y < height - 1 - y
    requires OuterFlipped(before, original, row, height, y)
    requires RowsTraded(before, after, row, height, y)
    requires Row(before, row, height, y) == Row(original, row, height, y)
    requires Row(before, row, height, height - 1 - y) == Row(original, row, height, height - 1 - y)
    ensures OuterFlipped(after, original, row, height, y + 1)
  {
    var m := height - 1 - y;
    forall y' | 0 <= y' < y + 1
      ensures Row(after, row, height, y') == Row(original, row, height, height - 1 - y')
      ensures Row(after, row, height, height - 1 - y') == Row(original, row, height, y')
    {
      var m' := height - 1 - y';
      if y' < y {
        assert y' != m && m' != y && m' != m;
        assert Row(after, row, height, y') == Row(before, row, height, y');
        assert Row(after, row, height, m') == Row(before, row, height, m');
      } else {
        assert m' == m;
      }
    }
  }

  lemma StepMiddle<T>(original: seq<T>, before: seq<T>, after: seq<T>, row: nat, height: nat, y: nat)
    requires |original| == RowOffset(row, height) && |before| == RowOffset(row, height) && |after| == RowOffset(row, height)
    requires y < height - 1 - y
    requires MiddleKept(before, original, row, height, y)
    requires RowsTraded(before, after, row, height, y)
    ensures MiddleKept(after, original, row, height, y + 1)
  {
    forall y' | y + 1 <= y' < height - (y + 1)
      ensures Row(after, row, height, y') == Row(original, row, height, y')
    {
      assert Row(after, row, height, y') == Row(before, row, height, y');
    }
  }

  /** One outer iteration of the flip moves the invariant from `y` to `y + 1`. */
  lemma FlipStep<T>(original: seq<T>, before: seq<T>, after: seq<T>, row: nat, height: nat, y: nat)
    requires |original| == RowOffset(row, height) && |before| == RowOffset(row, height) && |after| == RowOffset(row, height)
    requires y < height / 2
    requires FlippedOutside(before, original, row, height, y)
    requires RowsSwapped(before, after, row, height, y)
    ensures FlippedOutside(after, original, row, height, y + 1)
  {
    var m := height - 1 - y;
    assert MiddleKept(before, original, row, height, y);
    assert Row(before, row, height, m) == Row(original, row, height, m);
    assert Row(before, row, height, y) == Row(original, row, height, y);
    SwapTradesRows(before, after, row, height, y);
    StepOuter(original, before, after, row, height, y);
    StepMiddle(original, before, after, row, height, y);
  }

  /** When the outer loop reaches the middle row, the frame is flipped. */
  lemma FlipDone<T>(cur: seq<T>, original: seq<T>, row: nat, height: nat)
    requires |cur| == RowOffset(row, height) && |original| == RowOffset(row, height)
    requires FlippedOutside(cur, original, row, height, height / 2)
    ensures cur == Flipped(original, row, height)
  {
    var center := height / 2;
    forall y' | 0 <= y' < height
      ensures Row(cur, row, height, y') == Row(original, row, height, height - 1 - y')
    {
      if center <= y' < height - center {
        assert y' == height - 1 - y';
      } else if height - center <= y' {
        var m := height - 1 - y';
        assert m < center && height - 1 - m == y';
      }
    }
    FlippedByRows(cur, original, row, height);
  }

  /** The start of row `y` as `render` computes it, `y * 4 * width`. */
  lemma {:induction false} RowStart(width: nat, y: nat)
    ensures y * 4 * width == RowOffset(RowBytes(width), y)
  {
    if y > 0 {
      RowStart(width, y - 1);
      assert y * 4 * width == (y - 1) * 4 * width + 4 * width;
    }
  }

  /** `s` with its first `x` bytes from `a` on exchanged with its first `x`
      bytes from `b` on: the state of the inner loop after `x` steps. */
  function SwappedPrefix<T>(s: seq<T>, a: nat, b: nat, x: nat): (r: seq<T>)
    requires a + x <= b && b + x <= |s|
    ensures |r| == |s|
  {
    seq(|s|, k requires 0 <= k < |s| =>
      if a <= k < a + x then s[k - a + b]
      else if b <= k < b + x then s[k - b + a]
      else s[k])
  }

  /** One more step of the inner loop exchanges the bytes at `a + x` and `b + x`. */
  lemma SwappedPrefixStep<T>(s: seq<T>, cur: seq<T>, next: seq<T>, a: nat, b: nat, x: nat)
    requires a + x + 1 <= b && b + x + 1 <= |s|
    requires cur == SwappedPrefix(s, a, b, x)
    requires next == cur[a + x := cur[b + x]][b + x := cur[a + x]]
    ensures next == SwappedPrefix(s, a, b, x + 1)
  {
    assert cur[a + x] == s[a + x] && cur[b + x] == s[b + x];
  }

  /** A whole row exchanged this way is the exchange of rows `y` and `height - 1 - y`. */
  lemma SwappedPrefixRows<T>(s: seq<T>, after: seq<T>, row: nat, height: nat, y: nat)
    requires |s| == RowOffset(row, height) && y < height - 1 - y
    requires RowOffset(row, y) + row <= RowOffset(row, height - 1 - y)
    requires RowOffset(row, height - 1 - y) + row <= |s|
    requires after == SwappedPrefix(s, RowOffset(row, y), RowOffset(row, height - 1 - y), row)
    ensures |after| == RowOffset(row, height)
    ensures RowsSwapped(s, after, row, height, y)
  {
  }

  /** The inner loop of the flip block: swap row `y` with row
      `height - 1 - y` byte by byte, at the offsets `render` computes. */
  method SwapRowPair(pixels: array<Byte>, width: nat, height: nat, y: nat)
    requires pixels.Length == FrameBytes(width, height)
    requires y < height - 1 - y
    modifies pixels
    ensures RowsSwapped(old(pixels[..]), pixels[..], RowBytes(width), height, y)
  {
    ghost var before := pixels[..];
    var row := 4 * width;
    ghost var ai0, bi0 := RowOffset(row, y), RowOffset(row, height - 1 - y);
    RowOffsetMono(row, y + 1, height - y - 1);
    RowOffsetMono(row, height - y, height);
    assert ai0 + row <= bi0 && bi0 + row <= pixels.Length;
    assert y * 4 * width == ai0 by { RowStart(width, y); }
    assert (height - y - 1) * 4 * width == bi0 by { RowStart(width, height - y - 1); }
    var x := 0;
    while x < row
      invariant 0 <= x <= row
      invariant pixels[..] == SwappedPrefix(before, ai0, bi0, x)
    {
      var ai := y * 4 * width + x;
      var bi := (height - y - 1) * 4 * width + x;
      ghost var prev := pixels[..];
      var a := pixels[ai];
      var b := pixels[bi];
      pixels[ai] := b;
      pixels[bi] := a;
      assert pixels[..] == prev[ai := b][bi := a];
      SwappedPrefixStep(before, prev, pixels[..], ai0, bi0, x);
      x := x + 1;
    }
    assert pixels[..] == SwappedPrefix(before, ai0, bi0, row);
    SwappedPrefixRows(before, pixels[..], row, height, y);
  }

  /** The flip block of `render`: for every row above the middle, swap it
      byte by byte with its mirror row. The buffer is the one `readPixels`
      fills: `FrameBytes(width, height)`, that is `4 * width * height`, bytes. */
  method FlipVertically(pixels: array<Byte>, width: nat, height: nat)
    requires pixels.Length == FrameBytes(width, height)
    modifies pixels
    ensures pixels[..] == Flipped(old(pixels[..]), RowBytes(width), height)
    ensures multiset(pixels[..]) == multiset(old(pixels[..]))
  {
    ghost var original := pixels[..];
    var center := height / 2;
    var y := 0;
    while y < center
      invariant 0 <= y <= center
      invariant FlippedOutside(pixels[..], original, RowBytes(width), height, y)
    {
      ghost var before := pixels[..];
      SwapRowPair(pixels, width, height, y);
      FlipStep(original, before, pixels[..], RowBytes(width), height, y);
      y := y + 1;
    }
    FlipDone(pixels[..], original, RowBytes(width), height);
    FlipPermutes(original, RowBytes(width), height);
  }
}
