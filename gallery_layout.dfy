/** Layout of the filter gallery canvas: one square button per filter in rows
    of eight, each backed by a checkered pattern. */
module GalleryLayout {

  const GalleryWidth: nat := 600
  const ButtonRowCount: nat := 8
  /** `Math.floor(filterGallery.width / buttonRowCount)`. */
  const ButtonArea: nat := GalleryWidth / ButtonRowCount
  const ButtonMargin: nat := 10
  const ButtonSize: nat := ButtonArea - ButtonMargin * 2
  /** Sub-cells per side of the checkered pattern. */
  const CheckerCount: nat := 10

  /** `Math.ceil(a / b)` for whole numbers: the least `q` with `q * b >= a`. */
  function CeilDiv(a: nat, b: nat): (q: nat)
    requires b > 0
    ensures q * b >= a
    ensures q == 0 || (q - 1) * b < a
  {
    (a + b - 1) / b
  }

  /** `filterGallery.height` for `buttonCount` buttons: enough whole rows of
      buttons, plus five pixels. */
  function GalleryHeight(buttonCount: nat): (h: nat)
    ensures h >= 5
  {
    ButtonArea * CeilDiv(buttonCount, ButtonRowCount) + 5
  }

  /** Grid cell `(column, row)` of button `i`. */
  function Cell(i: nat): (c: (nat, nat))
    ensures c.0 < ButtonRowCount
    ensures c.1 * ButtonRowCount + c.0 == i
  {
    (i % ButtonRowCount, i / ButtonRowCount)
  }

  /** Top-left corner of button `i` on the gallery canvas: one margin in from
      the left edge of its column and the top edge of its row. */
  function CellOrigin(i: nat): (o: (int, int))
    ensures ButtonMargin <= o.0 <= ButtonMargin + ButtonArea * (ButtonRowCount - 1)
    ensures o.1 - ButtonMargin == ButtonArea * (i / ButtonRowCount)
  {
    var (x, y) := Cell(i);
    (ButtonMargin + ButtonArea * x, ButtonMargin + ButtonArea * y)
  }

  /** The constants the page computes: 75-pixel cells holding 55-pixel buttons. */
  lemma LayoutConstants()
    ensures ButtonArea == 75 && ButtonSize == 55
    ensures ButtonRowCount * ButtonArea == GalleryWidth
  {
  }

  /** Distinct buttons get distinct cells. */
  lemma CellsDistinct(i: nat, j: nat)
    requires i != j
    ensures Cell(i) != Cell(j)
  {
  }

  /** Every cell of the grid belongs to exactly one button: cell `(x, y)` is
      the cell of button `8 * y + x`. */
  lemma CellOfIndex(x: nat, y: nat)
    requires x < ButtonRowCount
    ensures Cell(y * ButtonRowCount + x) == (x, y)
  {
  }

  /** Button `i` of `n` lies wholly inside the gallery canvas: its square and,
      below it, the baseline of its name. */
  lemma ButtonInsideGallery(i: nat, n: nat)
    requires i < n
    ensures 0 <= CellOrigin(i).0 && CellOrigin(i).0 + ButtonSize <= GalleryWidth
    ensures 0 <= CellOrigin(i).1 && CellOrigin(i).1 + ButtonSize <= GalleryHeight(n)
    ensures ButtonArea * (Cell(i).1 + 1) + 3 <= GalleryHeight(n)
  {
    var (x, y) := Cell(i);
    var rows := CeilDiv(n, ButtonRowCount);
    assert y * ButtonRowCount < rows * ButtonRowCount;
    assert ButtonArea * (y + 1) <= ButtonArea * rows;
  }

  /** The squares of two different buttons do not overlap. */
  lemma ButtonsDisjoint(i: nat, j: nat)
    requires i != j
    ensures CellOrigin(i).0 + ButtonSize <= CellOrigin(j).0 || CellOrigin(j).0 + ButtonSize <= CellOrigin(i).0
         || CellOrigin(i).1 + ButtonSize <= CellOrigin(j).1 || CellOrigin(j).1 + ButtonSize <= CellOrigin(i).1
  {
    CellsDistinct(i, j);
    var ci, cj := Cell(i), Cell(j);
    assert CellOrigin(i) == (10 + 75 * ci.0, 10 + 75 * ci.1);
    assert CellOrigin(j) == (10 + 75 * cj.0, 10 + 75 * cj.1);
    assert ci.0 != cj.0 || ci.1 != cj.1;
  }

  /** Where `renderButtons` draws the `ButtonSize`-square thumbnail canvas of
      filter `filterIndex` on the gallery: the same spot as that button's
      square, although the page computes it separately. */
  function ThumbnailOrigin(filterIndex: nat): (o: (int, int))
    ensures o == CellOrigin(filterIndex)
  {
    var x := filterIndex % ButtonRowCount;
    var y := filterIndex / ButtonRowCount;
    (ButtonMargin + ButtonArea * x, ButtonMargin + ButtonArea * y)
  }

  /** The thumbnail of filter `f` covers no part of the square of another
      button `g`, so compositing it changes only the cell of button `f`. */
  lemma ThumbnailStaysInCell(f: nat, g: nat)
    requires f != g
    ensures var t, o := ThumbnailOrigin(f), CellOrigin(g);
      t.0 + ButtonSize <= o.0 || o.0 + ButtonSize <= t.0 || t.1 + ButtonSize <= o.1 || o.1 + ButtonSize <= t.1
  {
    ButtonsDisjoint(f, g);
  }

  /** Sub-cell `(i, j)` of a pattern `n` sub-cells wide is filled when
      `i + j` is even. */
  predicate Filled(n: nat, c: (nat, nat))
  {
    c.0 < n && c.1 < n && (c.0 + c.1) % 2 == 0
  }

  /** Sub-cell `a` is filled before `b`: rows top to bottom, columns left to right. */
  predicate DrawnBefore(a: (nat, nat), b: (nat, nat))
  {
    a.1 < b.1 || (a.1 == b.1 && a.0 < b.0)
  }

  /** The whole pattern is ordered: every sub-cell is filled before the ones after it. */
  predicate Ordered(s: seq<(nat, nat)>)
  {
    forall a, b :: 0 <= a < b < |s| ==> DrawnBefore(s[a], s[b])
  }

  /** The sub-cells the inner loop fills in row `j` before column `i`. */
  function RowCells(i: nat, j: nat): seq<(nat, nat)>
  {
    if i == 0 then []
    else RowCells(i - 1, j) + (if (i - 1 + j) % 2 == 1 then [] else [(i - 1, j)])
  }

  /** The sub-cells the outer loop fills in the rows before row `j` of a
      pattern `n` sub-cells wide. */
  function PatternCells(n: nat, j: nat): seq<(nat, nat)>
  {
    if j == 0 then [] else PatternCells(n, j - 1) + RowCells(n, j - 1)
  }

  /** Row `j` up to column `i` holds exactly the filled sub-cells of that
      row before `i` ... */
  lemma {:induction false} RowCellIn(i: nat, j: nat, c: (nat, nat))
    ensures c in RowCells(i, j) <==> c.1 == j && c.0 < i && (c.0 + c.1) % 2 == 0
  {
    if i > 0 {
      RowCellIn(i - 1, j, c);
    }
  }

  /** ... one in every two columns, whatever the parity of the row ... */
  lemma {:induction false} RowCellsCount(k: nat, j: nat)
    ensures |RowCells(2 * k, j)| == k
  {
    if k > 0 {
      RowCellsCount(k - 1, j);
      var i := 2 * k - 1;
      assert (i - 1 + j) % 2 != (i + j) % 2;
      assert |RowCells(i + 1, j)| == |RowCells(i - 1, j)| + 1;
    }
  }

  /** ... in column order. */
  lemma {:induction false} RowCellsOrdered(i: nat, j: nat)
    ensures Ordered(RowCells(i, j))
  {
    if i > 0 {
      RowCellsOrdered(i - 1, j);
      var s := RowCells(i - 1, j);
      if (i - 1 + j) % 2 == 0 {
        var s' := s + [(i - 1, j)];
        forall a, b | 0 <= a < b < |s'|
          ensures DrawnBefore(s'[a], s'[b])
        {
          if b == |s| {
            RowCellIn(i - 1, j, s[a]);
          } else {
            assert DrawnBefore(s[a], s[b]);
          }
        }
      }
    }
  }

  /** Concatenating an ordered pattern with an ordered row that comes wholly
      after it keeps the order. */
  lemma OrderedAppend(s: seq<(nat, nat)>, t: seq<(nat, nat)>, j: nat)
    requires Ordered(s) && Ordered(t)
    requires forall k :: 0 <= k < |s| ==> s[k].1 < j
    requires forall k :: 0 <= k < |t| ==> t[k].1 == j
    ensures Ordered(s + t)
  {
    var st := s + t;
    forall a, b | 0 <= a < b < |st|
      ensures DrawnBefore(st[a], st[b])
    {
      if b < |s| {
        assert DrawnBefore(s[a], s[b]);
      } else if a < |s| {
        assert s[a].1 < j && t[b - |s|].1 == j;
      } else {
        assert DrawnBefore(t[a - |s|], t[b - |s|]);
      }
    }
  }

  /** The rows before `j` hold exactly the sub-cells of those rows, within
      the width, whose coordinates add up to an even number ... */
  lemma {:induction false} PatternCellIn(n: nat, j: nat, c: (nat, nat))
    ensures c in PatternCells(n, j) <==> c.0 < n && c.1 < j && (c.0 + c.1) % 2 == 0
  {
    if j > 0 {
      var before, row := PatternCells(n, j - 1), RowCells(n, j - 1);
      assert c in PatternCells(n, j) <==> c in before || c in row by {
        assert PatternCells(n, j) == before + row;
      }
      var even := (c.0 + c.1) % 2 == 0;
      assert c in before <==> c.0 < n && c.1 < j - 1 && even by {
        PatternCellIn(n, j - 1, c);
      }
      assert c in row <==> c.0 < n && c.1 == j - 1 && even by {
        RowCellIn(n, j - 1, c);
      }
    }
  }

  /** ... half a row's width per row when the width is even ... */
  lemma {:induction false} PatternCellsCount(n: nat, j: nat)
    requires n % 2 == 0
    ensures |PatternCells(n, j)| == j * (n / 2)
  {
    if j > 0 {
      var half := n / 2;
      PatternCellsCount(n, j - 1);
      RowCellsCount(half, j - 1);
      assert 2 * half == n;
      MulStep(j, half);
    }
  }

  /** `j` rows of `half` are one row more than `j - 1` rows. */
  lemma MulStep(j: nat, half: nat)
    requires j > 0
    ensures (j - 1) * half + half == j * half
  {
  }

  /** ... in drawing order. */
  lemma {:induction false} PatternCellsOrdered(n: nat, j: nat)
    ensures Ordered(PatternCells(n, j))
  {
    if j > 0 {
      PatternCellsOrdered(n, j - 1);
      RowCellsOrdered(n, j - 1);
      var before, row := PatternCells(n, j - 1), RowCells(n, j - 1);
      forall k | 0 <= k < |before|
        ensures before[k].1 < j - 1
      {
        PatternCellIn(n, j - 1, before[k]);
      }
      forall k | 0 <= k < |row|
        ensures row[k].1 == j - 1
      {
        RowCellIn(n, j - 1, row[k]);
      }
      OrderedAppend(before, row, j - 1);
    }
  }

  /** Every sub-cell the whole pattern fills is a filled sub-cell of the
      square ... */
  lemma PatternFilledOnly(n: nat)
    ensures forall c: (nat, nat) :: c in PatternCells(n, n) ==> Filled(n, c)
  {
    forall c: (nat, nat) | c in PatternCells(n, n)
      ensures Filled(n, c)
    {
      PatternCellIn(n, n, c);
    }
  }

  /** ... every filled sub-cell of the square is filled by the pattern ... */
  lemma PatternCoversFilled(n: nat)
    ensures forall c: (nat, nat) :: Filled(n, c) ==> c in PatternCells(n, n)
  {
    forall c: (nat, nat) | Filled(n, c)
      ensures c in PatternCells(n, n)
    {
      PatternCellIn(n, n, c);
    }
  }

  /** ... and for an even width, such as the ten sub-cells of a button
      square, they are half of the square: fifty of a hundred. */
  lemma PatternSize(n: nat)
    requires n % 2 == 0
    ensures |PatternCells(n, n)| == n * n / 2
  {
    PatternCellsCount(n, n);
    var half := n / 2;
    assert n == 2 * half;
    assert n * half == n * n / 2;
  }

  /** The inner loop of `drawCheckeredPattern` for row `j`: the sub-cells it
      passes to `fillRect`, skipping those with `i + j` odd. */
  method CheckeredRow(n: nat, j: nat) returns (row: seq<(nat, nat)>)
    ensures row == RowCells(n, j)
  {
    row := [];
    for i := 0 to n
      invariant row == RowCells(i, j)
    {
      if (i + j) % 2 == 1 {
        continue;
      }
      row := row + [(i, j)];
    }
  }

  /** `drawCheckeredPattern`: the `fillRect` calls of the nested loop, each
      given by its sub-cell `(i, j)`, in the order they are issued; the
      lemmas above say what that sequence holds. */
  method CheckeredPattern() returns (cells: seq<(nat, nat)>)
    ensures cells == PatternCells(CheckerCount, CheckerCount)
  {
    var n := CheckerCount;
    cells := [];
    for j := 0 to n
      invariant cells == PatternCells(n, j)
    {
      var row := CheckeredRow(n, j);
      cells := cells + row;
    }
  }

  /** Sub-cell `(i, j)` of a button square with top-left `(x, y)`: the
      rectangle `fillRect` is given, in exact arithmetic. */
  datatype Rect = Rect(left: real, top: real, width: real, height: real)

  function SubCellRect(x: real, y: real, width: real, height: real, c: (nat, nat)): (r: Rect)
    ensures CheckerCount as real * r.width == width && CheckerCount as real * r.height == height
    ensures r.left == x + c.0 as real * r.width && r.top == y + c.1 as real * r.height
  {
    var w := width / CheckerCount as real;
    var h := height / CheckerCount as real;
    Rect(x + c.0 as real * w, y + c.1 as real * h, w, h)
  }

  /** Every filled sub-cell lies inside the button square it decorates. */
  lemma SubCellInside(x: real, y: real, width: real, height: real, c: (nat, nat))
    requires width >= 0.0 && height >= 0.0 && Filled(CheckerCount, c)
    ensures var r := SubCellRect(x, y, width, height, c);
      x <= r.left && r.left + r.width <= x + width && y <= r.top && r.top + r.height <= y + height
  {
    assert CheckerCount as real == 10.0;
    var w := width / 10.0;
    var h := height / 10.0;
    var r := SubCellRect(x, y, width, height, c);
    assert r.left == x + c.0 as real * w && r.width == w;
    assert r.top == y + c.1 as real * h && r.height == h;
    assert 10.0 * w == width && 10.0 * h == height;
    ScaledStep(c.0, w);
    ScaledStep(c.1, h);
    assert c.0 as real * w + w <= 10.0 * w;
    assert c.0 as real * w + w <= width;
    assert r.left + r.width == x + (c.0 as real * w + w);
    assert r.left + r.width <= x + width;
    assert c.1 as real * h + h <= 10.0 * h;
    assert c.1 as real * h + h <= height;
    assert r.top + r.height == y + (c.1 as real * h + h);
    assert r.top + r.height <= y + height;
  }

  /** `k` steps of a non-negative length `w` cover a non-negative length. */
  lemma {:induction false} ScaledNonneg(k: nat, w: real)
    requires w >= 0.0
    ensures k as real * w >= 0.0
  {
    if k > 0 {
      ScaledNonneg(k - 1, w);
      assert k as real * w == (k - 1) as real * w + w;
    }
  }

  /** Column (or row) `k` of ten starts at or after `0` and ends by `10 * w`. */
  lemma ScaledStep(k: nat, w: real)
    requires k < CheckerCount && w >= 0.0
    ensures 0.0 <= k as real * w && k as real * w + w <= 10.0 * w
  {
    var rest: nat := CheckerCount - 1 - k;
    ScaledNonneg(k, w);
    ScaledNonneg(rest, w);
    assert 10.0 * w == k as real * w + w + rest as real * w;
  }
}
