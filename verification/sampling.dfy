/** What the three region averagers share: the grid of (row, column) cells they visit,
    row by row, and the channel sums and truncating means they compute over the
    sampled pixels. */
module Sampling {
  import opened Prelude
  import opened Config

  /** A cell of the sampling grid: (row, column). */
  type Cell = (nat, nat)

  /** Number of integers in [lo, hi), zero when the range is empty. */
  function Span(lo: nat, hi: nat): nat
  {
    if hi <= lo then 0 else hi - lo
  }

  /** The cells `(row, x1) .. (row, x2 - 1)`, left to right. */
  function RowCells(row: nat, x1: nat, x2: nat): (cs: seq<Cell>)
    ensures |cs| == Span(x1, x2)
    decreases x2
  {
    if x2 <= x1 then [] else RowCells(row, x1, x2 - 1) + [(row, x2 - 1)]
  }

  /** The cells of `[y1, y2) x [x1, x2)` in the order two nested `for` loops visit
      them: rows top to bottom, and within a row columns left to right. */
  function Cells(y1: nat, y2: nat, x1: nat, x2: nat): (cs: seq<Cell>)
    decreases y2
  {
    if y2 <= y1 then [] else Cells(y1, y2 - 1, x1, x2) + RowCells(y2 - 1, x1, x2)
  }

  /** Strict row-major order of two cells. */
  predicate Before(p: Cell, q: Cell)
  {
    p.0 < q.0 || (p.0 == q.0 && p.1 < q.1)
  }

  /** The grid has one cell per row and column of the rectangle. */
  lemma {:induction false} CellsLength(y1: nat, y2: nat, x1: nat, x2: nat)
    ensures |Cells(y1, y2, x1, x2)| == Span(y1, y2) * Span(x1, x2)
    decreases y2
  {
    if y2 > y1 {
      CellsLength(y1, y2 - 1, x1, x2);
      assert Span(y1, y2) == Span(y1, y2 - 1) + 1;
      assert Span(y1, y2) * Span(x1, x2) == Span(y1, y2 - 1) * Span(x1, x2) + Span(x1, x2);
    }
  }

  /** The count the averagers divide by, `(x2 - x1) * (y2 - y1)`, is the number of
      cells visited. */
  lemma CellCount(y1: nat, y2: nat, x1: nat, x2: nat)
    requires y1 <= y2 && x1 <= x2
    ensures |Cells(y1, y2, x1, x2)| == (x2 - x1) * (y2 - y1)
  {
    CellsLength(y1, y2, x1, x2);
    assert Span(y1, y2) == y2 - y1 && Span(x1, x2) == x2 - x1;
    MulCommutes(y2 - y1, x2 - x1);
  }

  lemma MulCommutes(a: int, b: int)
    ensures a * b == b * a
  {
  }

  lemma {:induction false} RowCellsMembers(row: nat, x1: nat, x2: nat, p: Cell)
    ensures p in RowCells(row, x1, x2) <==> p.0 == row && x1 <= p.1 < x2
    decreases x2
  {
    if x2 > x1 {
      RowCellsMembers(row, x1, x2 - 1, p);
    }
  }

  /** A cell is visited if and only if it lies in the rectangle. */
  lemma {:induction false} CellsMembers(y1: nat, y2: nat, x1: nat, x2: nat, p: Cell)
    ensures p in Cells(y1, y2, x1, x2) <==> y1 <= p.0 < y2 && x1 <= p.1 < x2
    decreases y2
  {
    if y2 > y1 {
      CellsMembers(y1, y2 - 1, x1, x2, p);
      RowCellsMembers(y2 - 1, x1, x2, p);
    }
  }

  lemma {:induction false} RowCellsOrdered(row: nat, x1: nat, x2: nat)
    ensures forall i, j :: 0 <= i < j < |RowCells(row, x1, x2)| ==>
              Before(RowCells(row, x1, x2)[i], RowCells(row, x1, x2)[j])
    ensures forall i :: 0 <= i < |RowCells(row, x1, x2)| ==>
              RowCells(row, x1, x2)[i].0 == row && x1 <= RowCells(row, x1, x2)[i].1 < x2
    decreases x2
  {
    if x2 > x1 {
      RowCellsOrdered(row, x1, x2 - 1);
    }
  }

  /** The `c`-th cell of a row is column `x1 + c`. */
  lemma {:induction false} RowCellsAt(row: nat, x1: nat, x2: nat)
    ensures forall c :: 0 <= c < |RowCells(row, x1, x2)| ==> RowCells(row, x1, x2)[c] == (row, x1 + c)
    decreases x2
  {
    if x2 > x1 {
      RowCellsAt(row, x1, x2 - 1);
    }
  }

  /** Row-major order: every cell comes strictly after the cells before it, so each
      cell of the rectangle is visited exactly once. */
  lemma {:induction false} CellsOrdered(y1: nat, y2: nat, x1: nat, x2: nat)
    ensures forall i, j :: 0 <= i < j < |Cells(y1, y2, x1, x2)| ==>
              Before(Cells(y1, y2, x1, x2)[i], Cells(y1, y2, x1, x2)[j])
    decreases y2
  {
    if y2 > y1 {
      var front, row := Cells(y1, y2 - 1, x1, x2), RowCells(y2 - 1, x1, x2);
      CellsOrdered(y1, y2 - 1, x1, x2);
      RowCellsOrdered(y2 - 1, x1, x2);
      forall i | 0 <= i < |front| ensures front[i].0 < y2 - 1 {
        CellsMembers(y1, y2 - 1, x1, x2, front[i]);
      }
      var cs := front + row;
      forall i, j | 0 <= i < j < |cs| ensures Before(cs[i], cs[j]) {
        if j < |front| {
          assert cs[i] == front[i] && cs[j] == front[j];
        } else if i >= |front| {
          assert cs[i] == row[i - |front|] && cs[j] == row[j - |front|];
        } else {
          assert cs[i] == front[i] && cs[j] == row[j - |front|];
        }
      }
    }
  }

  /** Exactly once: no cell occurs twice. */
  lemma CellsDistinct(y1: nat, y2: nat, x1: nat, x2: nat)
    ensures forall i, j :: 0 <= i < |Cells(y1, y2, x1, x2)| && 0 <= j < |Cells(y1, y2, x1, x2)| && i != j ==>
              Cells(y1, y2, x1, x2)[i] != Cells(y1, y2, x1, x2)[j]
  {
    CellsOrdered(y1, y2, x1, x2);
  }

  /** The sum of a sequence, accumulated from the front as a running total does. */
  function Sum(xs: seq<int>): int
  {
    if |xs| == 0 then 0 else Sum(xs[..|xs| - 1]) + xs[|xs| - 1]
  }

  /** Adding one more element to the running total. */
  lemma SumSnoc(xs: seq<int>, x: int)
    ensures Sum(xs + [x]) == Sum(xs) + x
  {
    assert (xs + [x])[..|xs|] == xs;
  }

  /** A sum of values in [lo, hi] lies between `n * lo` and `n * hi`. */
  lemma {:induction false} SumBounds(xs: seq<int>, lo: int, hi: int)
    requires forall k :: 0 <= k < |xs| ==> lo <= xs[k] <= hi
    ensures |xs| * lo <= Sum(xs) <= |xs| * hi
  {
    if |xs| > 0 {
      SumBounds(xs[..|xs| - 1], lo, hi);
      assert |xs| * lo == (|xs| - 1) * lo + lo;
      assert |xs| * hi == (|xs| - 1) * hi + hi;
    }
  }

  /** A sum of `n` copies of `c` is `n * c`. */
  lemma {:induction false} UniformSum(xs: seq<int>, c: int)
    requires forall k :: 0 <= k < |xs| ==> xs[k] == c
    ensures Sum(xs) == |xs| * c
  {
    if |xs| > 0 {
      UniformSum(xs[..|xs| - 1], c);
      assert |xs| * c == (|xs| - 1) * c + c;
    }
  }

  /** Truncating division of a total that lies between `n * lo` and `n * hi` lands in
      [lo, hi]. */
  lemma DivBetween(s: int, n: int, lo: int, hi: int)
    requires n > 0 && n * lo <= s <= n * hi
    ensures lo <= s / n <= hi
  {
    var q := s / n;
    assert s == n * q + s % n && 0 <= s % n < n;
    if q < lo {
      assert n * q + n <= n * lo by { MulLe(n, q + 1, lo); }
    }
    if q > hi {
      assert n * (hi + 1) <= n * q by { MulLe(n, hi + 1, q); }
    }
  }

  lemma MulLe(n: int, a: int, b: int)
    requires n > 0 && a <= b
    ensures n * a <= n * b
  {
  }

  /** The truncated mean of values in [lo, hi] lies in [lo, hi]: an average of bytes is
      a byte, so the final `as u8` never cuts anything off. */
  lemma MeanBetween(xs: seq<int>, lo: int, hi: int)
    requires |xs| > 0
    requires forall k :: 0 <= k < |xs| ==> lo <= xs[k] <= hi
    ensures lo <= Sum(xs) / |xs| <= hi
  {
    SumBounds(xs, lo, hi);
    DivBetween(Sum(xs), |xs|, lo, hi);
  }

  /** The truncated mean of equal values is that value. */
  lemma MeanOfUniform(xs: seq<int>, c: int)
    requires |xs| > 0
    requires forall k :: 0 <= k < |xs| ==> xs[k] == c
    ensures Sum(xs) / |xs| == c
  {
    UniformSum(xs, c);
    MeanBetween(xs, c, c);
  }

  /** The truncated mean `sum / n` of a non-empty sequence. */
  function Mean(xs: seq<int>): (m: int)
    requires |xs| > 0
    ensures Bytes(xs) ==> 0 <= m < 0x100
  {
    if Bytes(xs) then MeanBetween(xs, 0, 0xFF); Sum(xs) / |xs|
    else Sum(xs) / |xs|
  }

  /** Every value is a byte. */
  predicate Bytes(xs: seq<int>)
  {
    forall k :: 0 <= k < |xs| ==> 0 <= xs[k] < 0x100
  }

  /** `a as f32 / b as f32` for two dimensions. A zero divisor (NaN or infinity in
      `f32`) is taken as 0; it only arises for an empty image, whose ratios are never
      used. */
  function DimRatio(a: nat, b: nat): (r: real)
    ensures b > 0 ==> r * b as real == a as real
    ensures r >= 0.0
  {
    if b == 0 then 0.0 else a as real / b as real
  }

  /** `(fraction * size as f32) as usize`: a region edge in cells. */
  function ScanBound(fraction: real, size: nat): (r: nat)
    ensures fraction <= 0.0 ==> r == 0
    ensures fraction <= 1.0 ==> r <= size
  {
    assert fraction <= 0.0 ==> -fraction * size as real >= 0.0;
    assert fraction <= 1.0 ==> (1.0 - fraction) * size as real >= 0.0;
    ToUsize(Scaled(fraction, size as real))
  }

  /** `(row as f32 * height_ratio * width as f32 + col as f32 * width_ratio) as usize`:
      the data index a sampled cell is read from. */
  function SampleIndex(p: Cell, heightRatio: real, widthRatio: real, width: nat): nat
  {
    ToUsize(Scaled(Scaled(p.0 as real, heightRatio), width as real) + Scaled(p.1 as real, widthRatio))
  }

  /** The rows `y1..y2` of a region at a sampling height of `resizeHeight` cells. */
  function RowSpan(led: Region, resizeHeight: nat): (nat, nat)
  {
    (ScanBound(led.vscan.minimum, resizeHeight), ScanBound(led.vscan.maximum, resizeHeight))
  }

  /** The columns `x1..x2` of a region at a sampling width of `resizeWidth` cells. */
  function ColSpan(led: Region, resizeWidth: nat): (nat, nat)
  {
    (ScanBound(led.hscan.minimum, resizeWidth), ScanBound(led.hscan.maximum, resizeWidth))
  }

  /** The cells of a region, in the order the averagers visit them. */
  function RegionCells(led: Region, resizeWidth: nat, resizeHeight: nat): seq<Cell>
  {
    Cells(RowSpan(led, resizeHeight).0, RowSpan(led, resizeHeight).1,
          ColSpan(led, resizeWidth).0, ColSpan(led, resizeWidth).1)
  }
}
