/** The first averager (src/main.rs): a frame of raw B8G8R8A8 bytes sampled at every
    second row and column, with the LED regions given as corner fractions. */
module Prototype {
  import opened Prelude
  import opened Colors
  import opened Sampling
  import opened Capture

  /** B8G8R8A8: four bytes per pixel. */
  const PIXEL_SIZE: nat := 4

  /** The part of the screen one LED stands for: the corners (x1, y1) and (x2, y2) as
      fractions of the screen. */
  datatype Led = Led(x1f: real, y1f: real, x2f: real, y2f: real)

  /** A captured frame: its size in pixels and its bytes, four per pixel, row after row. */
  datatype RawFrame = RawFrame(width: nat, height: nat, data: seq<u8>)
  {
    /** The sampled rows `y1..y2` and columns `x1..x2`: the region's fractions of half
        the height and half the width. */
    function Rows(led: Led): (nat, nat)
    {
      (ToUsize(Scaled(led.y1f, (height / 2) as real)), ToUsize(Scaled(led.y2f, (height / 2) as real)))
    }

    function Cols(led: Led): (nat, nat)
    {
      (ToUsize(Scaled(led.x1f, (width / 2) as real)), ToUsize(Scaled(led.x2f, (width / 2) as real)))
    }

    /** The sampled cells of a region, in the order the loops visit them. */
    function Grid(led: Led): seq<Cell>
    {
      Cells(Rows(led).0, Rows(led).1, Cols(led).0, Cols(led).1)
    }

    /** `2 * PIXEL_SIZE * (row * width + col)`: the byte offset a cell is read from. */
    function Offset(p: Cell): nat
    {
      2 * PIXEL_SIZE * (p.0 * width + p.1)
    }

    /** The blue, green and red bytes at a cell's offset. A read past the end (a panic
        in the program) is excluded by the preconditions and reads as black here. */
    function SampleAt(p: Cell): Bgr8
    {
      var i := Offset(p);
      if i + 2 < |data| then Bgr8(data[i], data[i + 1], data[i + 2]) else Bgr8(0, 0, 0)
    }

    /** The pixels read for the cells `cs`, in visiting order. */
    function Samples(cs: seq<Cell>): (ps: seq<Bgr8>)
      ensures |ps| == |cs|
    {
      seq(|cs|, k requires 0 <= k < |cs| => SampleAt(cs[k]))
    }

    /** Every read of the region stays inside the data. */
    predicate Readable(led: Led)
    {
      forall row: nat, col: nat {:trigger Offset((row, col))} ::
        Rows(led).0 <= row < Rows(led).1 && Cols(led).0 <= col < Cols(led).1 ==> Offset((row, col)) + 2 < |data|
    }

    /** The nested loops of `average_color`: the channel totals of the cells of
        `[y1, y2) x [x1, x2)`, visited row by row; an empty range runs no iteration. */
    method SampleSums(y1: nat, y2: nat, x1: nat, x2: nat) returns (sums: Sums)
      requires forall row: nat, col: nat {:trigger Offset((row, col))} ::
                 y1 <= row < y2 && x1 <= col < x2 ==> Offset((row, col)) + 2 < |data|
      ensures sums == SampleTotals(Cells(y1, y2, x1, x2))
    {
      sums := Sums(0, 0, 0);
      var row := y1;
      while row < y2
        invariant y1 <= row && (row <= y2 || row == y1)
        invariant sums == SampleTotals(Cells(y1, row, x1, x2))
      {
        sums := SampleRow(sums, Cells(y1, row, x1, x2), row, x1, x2);
        assert Cells(y1, row + 1, x1, x2) == Cells(y1, row, x1, x2) + RowCells(row, x1, x2);
        row := row + 1;
      }
      assert Cells(y1, row, x1, x2) == Cells(y1, y2, x1, x2);
    }

    /** The inner loop over the columns `x1..x2` of one row, adding to the totals
        `sums` of the cells `done` visited before. */
    method SampleRow(sums: Sums, ghost done: seq<Cell>, row: nat, x1: nat, x2: nat) returns (next: Sums)
      requires sums == SampleTotals(done)
      requires forall col: nat {:trigger Offset((row, col))} :: x1 <= col < x2 ==> Offset((row, col)) + 2 < |data|
      ensures next == SampleTotals(done + RowCells(row, x1, x2))
    {
      next := sums;
      assert done + RowCells(row, x1, x1) == done;
      var col := x1;
      while col < x2
        invariant x1 <= col && (col <= x2 || col == x1)
        invariant next == SampleTotals(done + RowCells(row, x1, col))
      {
        var i := Offset((row, col));
        SampleStep(done, row, x1, col);
        next := Plus(next, Bgr8(data[i], data[i + 1], data[i + 2]));
        col := col + 1;
      }
      if x2 <= x1 {
        assert col == x1 && RowCells(row, x1, col) == [] == RowCells(row, x1, x2);
      } else {
        assert col == x2;
      }
    }

    /** Visiting the cell `(row, col)` after the cells `done` and the cells of its row
        to its left adds its bytes to the totals. */
    lemma SampleStep(done: seq<Cell>, row: nat, x1: nat, col: nat)
      requires x1 <= col
      ensures SampleTotals(done + RowCells(row, x1, col + 1))
           == Plus(SampleTotals(done + RowCells(row, x1, col)), SampleAt((row, col)))
    {
      var before := done + RowCells(row, x1, col);
      var after := done + RowCells(row, x1, col + 1);
      assert after == before + [(row, col)];
      assert after[..|after| - 1] == before;
    }

    /** The running totals of the cells `cs`, one cell at a time. */
    function SampleTotals(cs: seq<Cell>): Sums
    {
      if |cs| == 0 then Sums(0, 0, 0)
      else Plus(SampleTotals(cs[..|cs| - 1]), SampleAt(cs[|cs| - 1]))
    }

    /** The running totals are the channel sums of the pixels read. */
    lemma {:induction false} SampleTotalsAreTotals(cs: seq<Cell>)
      ensures SampleTotals(cs) == Totals(Samples(cs))
    {
      if |cs| == 0 {
        assert Samples(cs) == [];
      } else {
        var front, p := cs[..|cs| - 1], cs[|cs| - 1];
        SampleTotalsAreTotals(front);
        var ps := Samples(front);
        assert Samples(cs) == ps + [SampleAt(p)];
        ChannelsSnoc(ps, SampleAt(p));
        SumSnoc(Reds(ps), SampleAt(p).r);
        SumSnoc(Greens(ps), SampleAt(p).g);
        SumSnoc(Blues(ps), SampleAt(p).b);
      }
    }

    /** `Frame::average_color` as written: the totals over the region's samples are
        divided by the pixel count of the whole frame, `width * height`, and cast to
        bytes. A region without samples gives black. */
    method AverageColorAsWritten(led: Led) returns (c: Rgb8)
      requires width * height > 0 && Readable(led)
      ensures c == DividedTotals(Samples(Grid(led)), width * height)
      ensures |Grid(led)| == 0 ==> c == Rgb8(0, 0, 0)
    {
      var (y1, y2) := Rows(led);
      var (x1, x2) := Cols(led);
      var sums := SampleSums(y1, y2, x1, x2);
      SampleTotalsAreTotals(Cells(y1, y2, x1, x2));
      var n64 := width * height;
      c := Rgb8(sums.r / n64 % 0x100, sums.g / n64 % 0x100, sums.b / n64 % 0x100);
      if |Grid(led)| == 0 {
        assert Samples(Grid(led)) == [];
      }
    }

    /** The averager as intended: the totals are divided by the number of samples, so
        the result is the average colour of the sampled pixels; a region without
        samples gives black. */
    method AverageColor(led: Led) returns (c: Rgb8)
      requires Readable(led)
      ensures |Grid(led)| == 0 ==> c == Rgb8(0, 0, 0)
      ensures |Grid(led)| > 0 ==> c == Average(Samples(Grid(led)))
    {
      var (y1, y2) := Rows(led);
      var (x1, x2) := Cols(led);
      var sums := SampleSums(y1, y2, x1, x2);
      var n := Span(y1, y2) * Span(x1, x2);
      CellsLength(y1, y2, x1, x2);
      if n == 0 {
        return Rgb8(0, 0, 0);
      }
      SampleTotalsAreTotals(Cells(y1, y2, x1, x2));
      AverageOfTotals(Samples(Cells(y1, y2, x1, x2)), sums, n);
      c := Rgb8(sums.r / n % 0x100, sums.g / n % 0x100, sums.b / n % 0x100);
    }
  }

  /** The channel totals of `ps` divided by `n` with truncation and cast to bytes. */
  function DividedTotals(ps: seq<Bgr8>, n: nat): Rgb8
    requires n > 0
  {
    Rgb8(Totals(ps).r / n % 0x100, Totals(ps).g / n % 0x100, Totals(ps).b / n % 0x100)
  }

  /** Dividing by at least as many pixels as were sampled never wraps and never gives
      more than the sampled average, channel by channel. */
  lemma DividedNeverExceedsAverage(ps: seq<Bgr8>, n: nat)
    requires 0 < |ps| <= n
    ensures DividedTotals(ps, n).r <= Average(ps).r
    ensures DividedTotals(ps, n).g <= Average(ps).g
    ensures DividedTotals(ps, n).b <= Average(ps).b
  {
    ChannelAtMostMean(Reds(ps), n);
    ChannelAtMostMean(Greens(ps), n);
    ChannelAtMostMean(Blues(ps), n);
  }

  lemma ChannelAtMostMean(xs: seq<int>, n: nat)
    requires 0 < |xs| <= n && Bytes(xs)
    ensures Sum(xs) / n % 0x100 <= Mean(xs)
  {
    SumBounds(xs, 0, 0xFF);
    DivLargerDivisor(Sum(xs), |xs|, n);
  }

  /** A non-negative total divided by a larger divisor gives a smaller quotient. */
  lemma DivLargerDivisor(s: int, a: int, b: int)
    requires s >= 0 && 0 < a <= b
    ensures 0 <= s / b <= s / a
  {
    var q := s / b;
    assert q >= 0;
    assert q * a <= q * b by { MulLe(q + 1, a, b); }
    assert q * b <= s;
    if s / a < q {
      assert s < (s / a + 1) * a;
      MulLe(a, s / a + 1, q);
    }
  }

  /** Sample `(row, col)` is the pixel at row `2 * row` and column `2 * col`: every
      second row and column is skipped. */
  lemma SampleIsEvenPixel(f: RawFrame, row: nat, col: nat)
    ensures f.Offset((row, col)) == PIXEL_SIZE * ((2 * row) * f.width + 2 * col)
  {
  }

  /** For a region inside the unit square and a frame of `width * height` pixels,
      every read stays inside the data. */
  lemma UnitRegionIsReadable(f: RawFrame, led: Led)
    requires 0.0 <= led.x1f && led.x2f <= 1.0 && 0.0 <= led.y1f && led.y2f <= 1.0
    requires |f.data| == PIXEL_SIZE * (f.width * f.height)
    ensures f.Readable(led)
  {
    forall row: nat, col: nat | f.Rows(led).0 <= row < f.Rows(led).1 && f.Cols(led).0 <= col < f.Cols(led).1
      ensures f.Offset((row, col)) + 2 < |f.data|
    {
      BoundBelowHalf(led.y2f, f.height / 2, row, f.Rows(led).1);
      BoundBelowHalf(led.x2f, f.width / 2, col, f.Cols(led).1);
      OffsetInFrame(f.width, f.height, row, col);
    }
  }

  /** An index below `(fraction * half) as usize` for a fraction of at most 1 is
      below `half`. */
  lemma BoundBelowHalf(fraction: real, half: nat, i: nat, bound: nat)
    requires fraction <= 1.0 && bound == ToUsize(Scaled(fraction, half as real)) && i < bound
    ensures i < half
  {
    ScaledMonotone(fraction, 1.0, half as real);
    assert Scaled(1.0, half as real) == half as real;
  }

  lemma OffsetInFrame(width: nat, height: nat, row: nat, col: nat)
    requires row < height / 2 && col < width / 2
    ensures 2 * PIXEL_SIZE * (row * width + col) + 2 < PIXEL_SIZE * (width * height)
  {
    assert 2 * (row + 1) <= height && 2 * col + 2 <= width;
    MulLe(width, 2 * (row + 1), height);
    MulCommutes(width, 2 * (row + 1));
    MulCommutes(width, height);
    assert 2 * (row + 1) * width == 2 * row * width + 2 * width;
  }

  /** The inputs that show the divisor is wrong: a 2 x 2 white frame and the region of
      its top-left quarter. One pixel is sampled, its average is white, but the
      program divides the totals by 4 and reports 63 in every channel. */
  lemma WholeFrameDivisorDarkens()
    ensures var f := RawFrame(2, 2, seq(16, _ => 255));
            var led := Led(0.0, 0.0, 1.0, 1.0);
            f.Grid(led) == [(0, 0)]
            && DividedTotals(f.Samples(f.Grid(led)), 4) == Rgb8(63, 63, 63)
            && Average(f.Samples(f.Grid(led))) == Rgb8(255, 255, 255)
  {
    var f := RawFrame(2, 2, seq(16, _ => 255));
    var led := Led(0.0, 0.0, 1.0, 1.0);
    assert f.Rows(led) == (0, 1) && f.Cols(led) == (0, 1);
    assert RowCells(0, 0, 1) == [(0, 0)];
    assert f.Grid(led) == [(0, 0)];
    var ps := f.Samples([(0, 0)]);
    assert ps == [Bgr8(255, 255, 255)];
    AverageOfUniform(ps, Bgr8(255, 255, 255));
    assert Reds(ps) == [255] && Greens(ps) == [255] && Blues(ps) == [255];
    assert Sum([255]) == 255 by { assert [255][..0] == []; }
  }
}
