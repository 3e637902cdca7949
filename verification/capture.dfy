/** The current region averager (src/capture.rs): an analyzer holding a captured image
    and the resolution at which to sample it, and the average colour of the part of the
    image one LED stands for. */
module Capture {
  import opened Prelude
  import opened Config
  import opened Colors
  import opened Sampling

  /** A captured pixel in the capture library's memory order. */
  datatype Bgr8 = Bgr8(b: u8, g: u8, r: u8)

  /** The red, green and blue channels of a run of captured pixels. */
  function Reds(ps: seq<Bgr8>): (xs: seq<int>)
    ensures |xs| == |ps| && Bytes(xs)
  {
    seq(|ps|, k requires 0 <= k < |ps| => ps[k].r)
  }

  function Greens(ps: seq<Bgr8>): (xs: seq<int>)
    ensures |xs| == |ps| && Bytes(xs)
  {
    seq(|ps|, k requires 0 <= k < |ps| => ps[k].g)
  }

  function Blues(ps: seq<Bgr8>): (xs: seq<int>)
    ensures |xs| == |ps| && Bytes(xs)
  {
    seq(|ps|, k requires 0 <= k < |ps| => ps[k].b)
  }

  /** Three running channel totals. */
  datatype Sums = Sums(r: int, g: int, b: int)

  function Plus(s: Sums, p: Bgr8): Sums
  {
    Sums(s.r + p.r, s.g + p.g, s.b + p.b)
  }

  /** The channel totals of a run of pixels. */
  function Totals(ps: seq<Bgr8>): Sums
  {
    Sums(Sum(Reds(ps)), Sum(Greens(ps)), Sum(Blues(ps)))
  }

  /** The channel-wise truncated mean of a non-empty run of pixels, as an RGB pixel. */
  function Average(ps: seq<Bgr8>): Rgb8
    requires |ps| > 0
  {
    Rgb8(Mean(Reds(ps)), Mean(Greens(ps)), Mean(Blues(ps)))
  }

  /** Dividing the totals of `n` pixels by `n` and casting to bytes gives their
      average: the casts never wrap. */
  lemma AverageOfTotals(ps: seq<Bgr8>, sums: Sums, n: nat)
    requires |ps| == n > 0 && sums == Totals(ps)
    ensures Average(ps) == Rgb8(sums.r / n % 0x100, sums.g / n % 0x100, sums.b / n % 0x100)
  {
    assert Mean(Reds(ps)) == sums.r / n;
    assert Mean(Greens(ps)) == sums.g / n;
    assert Mean(Blues(ps)) == sums.b / n;
  }

  /** The left-to-right fold of the pixels into three totals, as `fold` computes it. */
  function RunningTotals(ps: seq<Bgr8>): Sums
  {
    if |ps| == 0 then Sums(0, 0, 0) else Plus(RunningTotals(ps[..|ps| - 1]), ps[|ps| - 1])
  }

  /** The fold computes the channel sums. */
  lemma {:induction false} RunningTotalsAreTotals(ps: seq<Bgr8>)
    ensures RunningTotals(ps) == Totals(ps)
  {
    if |ps| > 0 {
      var front := ps[..|ps| - 1];
      RunningTotalsAreTotals(front);
      assert ps == front + [ps[|ps| - 1]];
      ChannelsSnoc(front, ps[|ps| - 1]);
      SumSnoc(Reds(front), ps[|ps| - 1].r);
      SumSnoc(Greens(front), ps[|ps| - 1].g);
      SumSnoc(Blues(front), ps[|ps| - 1].b);
    }
  }

  /** The cell-by-cell extension of the channel lists. */
  lemma ChannelsSnoc(ps: seq<Bgr8>, p: Bgr8)
    ensures Reds(ps + [p]) == Reds(ps) + [p.r]
    ensures Greens(ps + [p]) == Greens(ps) + [p.g]
    ensures Blues(ps + [p]) == Blues(ps) + [p.b]
  {
    assert Reds(ps + [p]) == Reds(ps) + [p.r];
    assert Greens(ps + [p]) == Greens(ps) + [p.g];
    assert Blues(ps + [p]) == Blues(ps) + [p.b];
  }

  /** An image slotted for analysis, with the resolution it is sampled at. */
  datatype ImageAnalyzer = ImageAnalyzer(data: seq<Bgr8>, width: nat, height: nat,
                                         resizeWidth: nat, resizeHeight: nat)
  {
    /** How many image columns and rows one sampled cell stands for. */
    function WidthRatio(): real
    {
      DimRatio(width, resizeWidth)
    }

    function HeightRatio(): real
    {
      DimRatio(height, resizeHeight)
    }

    /** The data index the cell `(row, col)` is read from. */
    function Index(p: Cell): nat
    {
      SampleIndex(p, HeightRatio(), WidthRatio(), width)
    }

    /** The rows `y1..y2` and columns `x1..x2` of a region, in sampled cells. */
    function Rows(led: Region): (nat, nat)
    {
      RowSpan(led, resizeHeight)
    }

    function Cols(led: Region): (nat, nat)
    {
      ColSpan(led, resizeWidth)
    }

    /** The cells of a region, in the order the loops visit them. */
    function Grid(led: Region): seq<Cell>
    {
      RegionCells(led, resizeWidth, resizeHeight)
    }

    /** The region holds at least one cell, and `x2 - x1` and `y2 - y1` do not
        underflow: otherwise the pixel count divides by zero or panics. */
    predicate NonEmpty(led: Region)
    {
      Rows(led).0 < Rows(led).1 && Cols(led).0 < Cols(led).1
    }

    /** Every cell of the region is read from inside the image data. */
    predicate InBounds(led: Region)
    {
      forall row: nat, col: nat {:trigger Index((row, col))} ::
        Rows(led).0 <= row < Rows(led).1 && Cols(led).0 <= col < Cols(led).1 ==> Index((row, col)) < |data|
    }

    /** The pixel the cell `p` is read from. Reads outside the data are excluded by
        the precondition of `AverageColor`, so the black fallback never shows up. */
    function PixelAt(p: Cell): Bgr8
    {
      if Index(p) < |data| then data[Index(p)] else Bgr8(0, 0, 0)
    }

    /** The pixels read for the cells `cs`, in visiting order. */
    function Samples(cs: seq<Cell>): (ps: seq<Bgr8>)
      ensures |ps| == |cs|
    {
      seq(|cs|, k requires 0 <= k < |cs| => PixelAt(cs[k]))
    }

    /** `ImageAnalyzer::average_color`: black for an empty image; otherwise the
        channel sums over the region's cells, each divided with truncation by the
        number of cells `(x2 - x1) * (y2 - y1)` and cast to a byte. */
    method AverageColor(led: Region) returns (c: Rgb8)
      requires |data| > 0 ==> NonEmpty(led) && InBounds(led)
      ensures |data| == 0 ==> c == Rgb8(0, 0, 0)
      ensures |data| > 0 ==> |Grid(led)| > 0 && c == Average(Samples(Grid(led)))
    {
      if |data| == 0 {
        return Rgb8(0, 0, 0);
      }
      var (y1, y2) := Rows(led);
      var (x1, x2) := Cols(led);
      var sums := SumRegion(y1, y2, x1, x2);
      ghost var cells := Cells(y1, y2, x1, x2);
      assert cells == Grid(led);
      CellTotalsAreTotals(cells);
      CellCount(y1, y2, x1, x2);
      var nOfPixels := (x2 - x1) * (y2 - y1);
      c := Rgb8(sums.r / nOfPixels % 0x100, sums.g / nOfPixels % 0x100, sums.b / nOfPixels % 0x100);
      AverageOfTotals(Samples(cells), sums, nOfPixels);
    }

    /** The nested loops of `average_color`: the channel totals (`r_sum`, `g_sum`,
        `b_sum`) of the cells of `[y1, y2) x [x1, x2)`, visited row by row. */
    method SumRegion(y1: nat, y2: nat, x1: nat, x2: nat) returns (sums: Sums)
      requires y1 <= y2 && x1 <= x2
      requires forall row: nat, col: nat {:trigger Index((row, col))} ::
                 y1 <= row < y2 && x1 <= col < x2 ==> Index((row, col)) < |data|
      ensures sums == CellTotals(Cells(y1, y2, x1, x2))
    {
      sums := Sums(0, 0, 0);
      for row := y1 to y2
        invariant sums == CellTotals(Cells(y1, row, x1, x2))
      {
        sums := SumRow(sums, Cells(y1, row, x1, x2), row, x1, x2);
        assert Cells(y1, row + 1, x1, x2) == Cells(y1, row, x1, x2) + RowCells(row, x1, x2);
      }
    }

    /** The inner loop over the columns `x1..x2` of one row, adding to the totals
        `sums` of the cells `done` visited before. */
    method SumRow(sums: Sums, ghost done: seq<Cell>, row: nat, x1: nat, x2: nat) returns (next: Sums)
      requires x1 <= x2 && sums == CellTotals(done)
      requires forall col: nat {:trigger Index((row, col))} :: x1 <= col < x2 ==> Index((row, col)) < |data|
      ensures next == CellTotals(done + RowCells(row, x1, x2))
    {
      next := sums;
      assert done + RowCells(row, x1, x1) == done;
      var col := x1;
      while col < x2
        invariant x1 <= col <= x2
        invariant next == CellTotals(done + RowCells(row, x1, col))
      {
        var pixel := data[Index((row, col))];
        CellStep(done, row, x1, col);
        next := Plus(next, pixel);
        col := col + 1;
      }
    }

    /** Visiting the cell `(row, col)` after the cells `done` and the cells of its row
        to its left adds its pixel to the totals. */
    lemma CellStep(done: seq<Cell>, row: nat, x1: nat, col: nat)
      requires x1 <= col
      ensures CellTotals(done + RowCells(row, x1, col + 1))
           == Plus(CellTotals(done + RowCells(row, x1, col)), PixelAt((row, col)))
    {
      var before := done + RowCells(row, x1, col);
      var after := done + RowCells(row, x1, col + 1);
      assert after == before + [(row, col)];
      assert after[..|after| - 1] == before;
    }

    /** The running totals of the cells `cs`, one cell at a time. */
    function CellTotals(cs: seq<Cell>): Sums
    {
      if |cs| == 0 then Sums(0, 0, 0)
      else Plus(CellTotals(cs[..|cs| - 1]), PixelAt(cs[|cs| - 1]))
    }

    /** The running totals are the channel sums of the pixels read. */
    lemma {:induction false} CellTotalsAreTotals(cs: seq<Cell>)
      ensures CellTotals(cs) == Totals(Samples(cs))
    {
      if |cs| == 0 {
        assert Samples(cs) == [];
      } else {
        var front, p := cs[..|cs| - 1], cs[|cs| - 1];
        CellTotalsAreTotals(front);
        var ps := Samples(front);
        assert Samples(cs) == ps + [PixelAt(p)];
        ChannelsSnoc(ps, PixelAt(p));
        SumSnoc(Reds(ps), PixelAt(p).r);
        SumSnoc(Greens(ps), PixelAt(p).g);
        SumSnoc(Blues(ps), PixelAt(p).b);
      }
    }
  }

  /** `ImageAnalyzer::new`: a zero resize width or height is replaced by the image's
      own width or height; a non-zero one is kept. */
  function NewAnalyzer(data: seq<Bgr8>, width: nat, height: nat, resizeWidth: nat, resizeHeight: nat): (a: ImageAnalyzer)
    ensures a.data == data && a.width == width && a.height == height
    ensures resizeWidth != 0 ==> a.resizeWidth == resizeWidth
    ensures resizeWidth == 0 ==> a.resizeWidth == width
    ensures resizeHeight != 0 ==> a.resizeHeight == resizeHeight
    ensures resizeHeight == 0 ==> a.resizeHeight == height
  {
    ImageAnalyzer(data, width, height,
                  if resizeWidth == 0 then width else resizeWidth,
                  if resizeHeight == 0 then height else resizeHeight)
  }

  /** Defaulting is idempotent, and a non-empty image always gets a non-zero sampling
      resolution, so its ratios are ordinary quotients. */
  lemma NewAnalyzerDefaults(data: seq<Bgr8>, width: nat, height: nat, resizeWidth: nat, resizeHeight: nat)
    ensures var a := NewAnalyzer(data, width, height, resizeWidth, resizeHeight);
            NewAnalyzer(a.data, a.width, a.height, a.resizeWidth, a.resizeHeight) == a
    ensures var a := NewAnalyzer(data, width, height, resizeWidth, resizeHeight);
            (width > 0 ==> a.resizeWidth > 0) && (height > 0 ==> a.resizeHeight > 0)
  {
  }

  /** Each channel of the average lies between the smallest and the largest value of
      that channel over the sampled pixels. */
  lemma AverageBetween(ps: seq<Bgr8>, lo: Bgr8, hi: Bgr8)
    requires |ps| > 0
    requires forall k :: 0 <= k < |ps| ==> lo.r <= ps[k].r <= hi.r && lo.g <= ps[k].g <= hi.g && lo.b <= ps[k].b <= hi.b
    ensures lo.r <= Average(ps).r <= hi.r
    ensures lo.g <= Average(ps).g <= hi.g
    ensures lo.b <= Average(ps).b <= hi.b
  {
    MeanBetween(Reds(ps), lo.r, hi.r);
    MeanBetween(Greens(ps), lo.g, hi.g);
    MeanBetween(Blues(ps), lo.b, hi.b);
  }

  /** A region of one colour averages to that colour. */
  lemma AverageOfUniform(ps: seq<Bgr8>, p: Bgr8)
    requires |ps| > 0
    requires forall k :: 0 <= k < |ps| ==> ps[k] == p
    ensures Average(ps) == Rgb8(p.r, p.g, p.b)
  {
    MeanOfUniform(Reds(ps), p.r);
    MeanOfUniform(Greens(ps), p.g);
    MeanOfUniform(Blues(ps), p.b);
  }
}
