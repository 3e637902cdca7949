/** The index-map frame pipeline (src/main_wf.rs): capture status codes, the frame and
    its sampling resolution, the frame processor that precomputes one list of data
    indices per LED and averages over it, the Adalight pixel-buffer header, and the
    binding of configured colour transforms to LEDs. */
module MainWf {
  import opened Prelude
  import opened Config
  import opened Colors
  import opened Sampling
  import opened Capture

  /** RGB8 => 3 bytes per LED on the wire. */
  const OUT_PIXEL_SIZE: nat := 3
  /** Magic word, LED count and checksum. */
  const OUT_HEADER_SIZE: nat := 6

  // ---------------------------------------------------------------------------------
  // Capture status codes

  /** The outcome of one frame grab. */
  datatype CaptureResult = CrOk | CrAccessDenied | CrAccessLost | CrTimeout | CrFail

  /** The status byte the capture library reports for each outcome; `CrFail` stands
      for every code past 3. */
  function StatusCode(cr: CaptureResult): u8
  {
    match cr
    case CrOk => 0
    case CrAccessDenied => 1
    case CrAccessLost => 2
    case CrTimeout => 3
    case CrFail => 4
  }

  /** `as_capture_result`: codes 0 to 3 name their own outcome, anything else is a
      general failure. */
  function AsCaptureResult(code: u8): (cr: CaptureResult)
    ensures cr != CrFail <==> code <= 3
    ensures cr != CrFail ==> StatusCode(cr) == code
  {
    match code
    case 0 => CrOk
    case 1 => CrAccessDenied
    case 2 => CrAccessLost
    case 3 => CrTimeout
    case _ => CrFail
  }

  /** Every outcome is read back from its own status code. */
  lemma StatusCodeRoundTrip(cr: CaptureResult)
    ensures AsCaptureResult(StatusCode(cr)) == cr
  {
  }

  // ---------------------------------------------------------------------------------
  // Frames

  /** A captured pixel as the capture library lays it out: blue, green, red, alpha. */
  datatype Bgra8 = Bgra8(b: u8, g: u8, r: u8, a: u8)

  /** The colour channels of a captured pixel; alpha is never read. */
  function Bgr(p: Bgra8): Bgr8
  {
    Bgr8(p.b, p.g, p.r)
  }

  /** What the index maps are computed from: the frame width, the sampling resolution
      and the frame-to-sample ratios. */
  datatype FrameLayout = FrameLayout(width: nat, resizeWidth: nat, resizeHeight: nat,
                                     widthRatio: real, heightRatio: real)

  /** A captured frame and the resolution it is sampled at. */
  class Frame {
    var width: nat
    var height: nat
    var resizeWidth: nat
    var resizeHeight: nat
    var resizeWidthRatio: real
    var resizeHeightRatio: real
    var data: seq<Bgra8>

    /** `Frame::new`: an empty frame with no sampling resolution yet. */
    constructor ()
      ensures width == 0 && height == 0 && resizeWidth == 0 && resizeHeight == 0
      ensures data == [] && RatiosCurrent()
    {
      width, height := 0, 0;
      resizeWidth, resizeHeight := 0, 0;
      resizeWidthRatio, resizeHeightRatio := 0.0, 0.0;
      data := [];
    }

    /** The stored ratios are the frame dimensions over the sampling dimensions. */
    predicate RatiosCurrent()
      reads this
    {
      resizeWidthRatio == DimRatio(width, resizeWidth) && resizeHeightRatio == DimRatio(height, resizeHeight)
    }

    function Layout(): FrameLayout
      reads this
    {
      FrameLayout(width, resizeWidth, resizeHeight, resizeWidthRatio, resizeHeightRatio)
    }

    /** `update_process_ratio`: recompute both ratios from the dimensions. */
    method UpdateProcessRatio()
      modifies this
      ensures RatiosCurrent()
      ensures width == old(width) && height == old(height) && data == old(data)
      ensures resizeWidth == old(resizeWidth) && resizeHeight == old(resizeHeight)
    {
      resizeWidthRatio := DimRatio(width, resizeWidth);
      resizeHeightRatio := DimRatio(height, resizeHeight);
    }

    /** `set_dimensions`: record the captured size; a sampling dimension that is still
        0 is taken from it, one already chosen is kept. */
    method SetDimensions(w: nat, h: nat)
      modifies this
      ensures width == w && height == h && data == old(data)
      ensures resizeWidth == (if old(resizeWidth) == 0 then w else old(resizeWidth))
      ensures resizeHeight == (if old(resizeHeight) == 0 then h else old(resizeHeight))
      ensures RatiosCurrent()
    {
      width := w;
      height := h;
      if resizeWidth == 0 {
        resizeWidth := width;
      }
      if resizeHeight == 0 {
        resizeHeight := height;
      }
      UpdateProcessRatio();
    }

    /** `set_resize_dimensions`: choose the sampling resolution; 0 in either place means
        the frame's own dimension. */
    method SetResizeDimensions(rw: nat, rh: nat)
      modifies this
      ensures width == old(width) && height == old(height) && data == old(data)
      ensures resizeWidth == (if rw == 0 then width else rw)
      ensures resizeHeight == (if rh == 0 then height else rh)
      ensures RatiosCurrent()
    {
      resizeWidth := if rw == 0 then width else rw;
      resizeHeight := if rh == 0 then height else rh;
      UpdateProcessRatio();
    }
  }

  /** The start-up sequence: a new frame gets the configured sampling resolution before
      anything is captured, then the first capture records the screen size. A
      configured dimension is kept; a configured 0 becomes the screen's own. */
  method ConfigureThenCapture(rw: nat, rh: nat, w: nat, h: nat) returns (f: Frame)
    ensures fresh(f) && f.width == w && f.height == h && f.RatiosCurrent()
    ensures f.resizeWidth == (if rw == 0 then w else rw)
    ensures f.resizeHeight == (if rh == 0 then h else rh)
  {
    f := new Frame();
    f.SetResizeDimensions(rw, rh);
    f.SetDimensions(w, h);
  }

  // ---------------------------------------------------------------------------------
  // Index maps

  /** `(x1..x2).map(...)`: the data indices of the sampled cells of one row. */
  function RowIndices(row: nat, x1: nat, x2: nat, l: FrameLayout): seq<nat>
  {
    seq<nat>(Span(x1, x2), c requires 0 <= c < Span(x1, x2) =>
      SampleIndex((row, x1 + c), l.heightRatio, l.widthRatio, l.width))
  }

  /** The `fold` over the rows `y1..y2` that extends the map row by row. */
  function FoldRows(y1: nat, y2: nat, x1: nat, x2: nat, l: FrameLayout): seq<nat>
    decreases y2
  {
    if y2 <= y1 then [] else FoldRows(y1, y2 - 1, x1, x2, l) + RowIndices(y2 - 1, x1, x2, l)
  }

  /** The map of one LED: the data indices its region is sampled at. */
  function IndexMap(led: Region, l: FrameLayout): seq<nat>
  {
    FoldRows(RowSpan(led, l.resizeHeight).0, RowSpan(led, l.resizeHeight).1,
             ColSpan(led, l.resizeWidth).0, ColSpan(led, l.resizeWidth).1, l)
  }

  /** The data index of each of a run of cells. */
  function CellIndices(cs: seq<Cell>, l: FrameLayout): seq<nat>
  {
    seq(|cs|, k requires 0 <= k < |cs| => SampleIndex(cs[k], l.heightRatio, l.widthRatio, l.width))
  }

  lemma CellIndicesAppend(a: seq<Cell>, b: seq<Cell>, l: FrameLayout)
    ensures CellIndices(a + b, l) == CellIndices(a, l) + CellIndices(b, l)
  {
    assert CellIndices(a + b, l) == CellIndices(a, l) + CellIndices(b, l);
  }

  lemma RowIndicesOfCells(row: nat, x1: nat, x2: nat, l: FrameLayout)
    ensures RowIndices(row, x1, x2, l) == CellIndices(RowCells(row, x1, x2), l)
  {
    RowCellsAt(row, x1, x2);
  }

  lemma {:induction false} FoldRowsOfCells(y1: nat, y2: nat, x1: nat, x2: nat, l: FrameLayout)
    ensures FoldRows(y1, y2, x1, x2, l) == CellIndices(Cells(y1, y2, x1, x2), l)
    decreases y2
  {
    if y2 > y1 {
      FoldRowsOfCells(y1, y2 - 1, x1, x2, l);
      RowIndicesOfCells(y2 - 1, x1, x2, l);
      CellIndicesAppend(Cells(y1, y2 - 1, x1, x2), RowCells(y2 - 1, x1, x2), l);
    }
  }

  /** The row-by-row fold lists, in row-major order, the data index of every cell of
      the region and of nothing else. */
  lemma IndexMapOfCells(led: Region, l: FrameLayout)
    ensures IndexMap(led, l) == CellIndices(RegionCells(led, l.resizeWidth, l.resizeHeight), l)
  {
    var (y1, y2) := RowSpan(led, l.resizeHeight);
    var (x1, x2) := ColSpan(led, l.resizeWidth);
    FoldRowsOfCells(y1, y2, x1, x2, l);
  }

  /** A region with ordered bounds has `(y2 - y1) * (x2 - x1)` indices. */
  lemma IndexMapLength(led: Region, l: FrameLayout)
    requires RowSpan(led, l.resizeHeight).0 <= RowSpan(led, l.resizeHeight).1
    requires ColSpan(led, l.resizeWidth).0 <= ColSpan(led, l.resizeWidth).1
    ensures |IndexMap(led, l)| == (RowSpan(led, l.resizeHeight).1 - RowSpan(led, l.resizeHeight).0)
                                  * (ColSpan(led, l.resizeWidth).1 - ColSpan(led, l.resizeWidth).0)
  {
    var (y1, y2) := RowSpan(led, l.resizeHeight);
    var (x1, x2) := ColSpan(led, l.resizeWidth);
    IndexMapOfCells(led, l);
    CellCount(y1, y2, x1, x2);
    MulCommutes(x2 - x1, y2 - y1);
  }

  /** One map per LED, in LED order. */
  function MapsFor(leds: seq<Region>, l: FrameLayout): (ms: seq<seq<nat>>)
    ensures |ms| == |leds|
    ensures forall k :: 0 <= k < |leds| ==> ms[k] == IndexMap(leds[k], l)
  {
    if |leds| == 0 then [] else MapsFor(leds[..|leds| - 1], l) + [IndexMap(leds[|leds| - 1], l)]
  }

  /** The colour channels of the pixels a map names, in map order; an index past the
      end of the data (where the program would panic) reads as black. */
  function Pixels(data: seq<Bgra8>, indices: seq<nat>): (ps: seq<Bgr8>)
    ensures |ps| == |indices|
  {
    seq(|indices|, k requires 0 <= k < |indices| =>
      if indices[k] < |data| then Bgr(data[indices[k]]) else Bgr8(0, 0, 0))
  }

  /** All indices of a map lie inside the frame data. */
  predicate IndicesIn(indices: seq<nat>, data: seq<Bgra8>)
  {
    forall k :: 0 <= k < |indices| ==> indices[k] < |data|
  }

  // ---------------------------------------------------------------------------------
  // The frame processor

  /** Holds the frame being analysed, the LED regions and one index map per LED,
      together with the resolution the maps were computed for. */
  class FrameProcessor {
    var frame: Option<Frame>
    var leds: seq<Region>
    var mapsWidth: nat
    var mapsHeight: nat
    var maps: seq<seq<nat>>

    /** `FrameProcessor::new`: no frame, no LEDs, no maps, recorded resolution 0 x 0. */
    constructor ()
      ensures frame == None && leds == [] && maps == []
      ensures NeverTracked()
    {
      frame := None;
      leds := [];
      mapsWidth, mapsHeight := 0, 0;
      maps := [];
    }

    /** The recorded resolution is still the initial 0 x 0; no method writes it. */
    predicate NeverTracked()
      reads this
    {
      mapsWidth == 0 && mapsHeight == 0
    }

    /** `update_led_region_maps`: without a frame nothing happens; otherwise the maps
        are cleared and one map per LED is pushed, in LED order. */
    method UpdateLedRegionMaps()
      modifies this
      ensures frame == old(frame) && leds == old(leds)
      ensures mapsWidth == old(mapsWidth) && mapsHeight == old(mapsHeight)
      ensures frame.None? ==> maps == old(maps)
      ensures frame.Some? ==> maps == MapsFor(leds, frame.value.Layout())
    {
      if frame.None? {
        return;
      }
      var layout := frame.value.Layout();
      maps := [];
      for i := 0 to |leds|
        invariant frame == old(frame) && leds == old(leds)
        invariant mapsWidth == old(mapsWidth) && mapsHeight == old(mapsHeight)
        invariant maps == MapsFor(leds[..i], layout)
      {
        assert leds[..i + 1][..i] == leds[..i];
        maps := maps + [IndexMap(leds[i], layout)];
      }
      assert leds[..|leds|] == leds;
    }

    /** `set_leds`: replace the regions and recompute the maps for them. */
    method SetLeds(regions: seq<Region>)
      modifies this
      ensures leds == regions && frame == old(frame)
      ensures mapsWidth == old(mapsWidth) && mapsHeight == old(mapsHeight)
      ensures frame.None? ==> maps == old(maps)
      ensures frame.Some? ==> maps == MapsFor(regions, frame.value.Layout())
    {
      leds := regions;
      UpdateLedRegionMaps();
    }

    /** `insert_frame`: slot a frame and return what was slotted before. The maps are
        recomputed when the frame's size differs from the recorded resolution; as that
        stays 0 x 0, every frame with a non-zero dimension triggers it. */
    method InsertFrame(f: Frame) returns (previous: Option<Frame>)
      modifies this
      ensures frame == Some(f) && previous == old(frame) && leds == old(leds)
      ensures mapsWidth == old(mapsWidth) && mapsHeight == old(mapsHeight)
      ensures f.width != mapsWidth || f.height != mapsHeight ==> maps == MapsFor(leds, f.Layout())
      ensures f.width == mapsWidth && f.height == mapsHeight ==> maps == old(maps)
      ensures NeverTracked() && (f.width != 0 || f.height != 0) ==> maps == MapsFor(leds, f.Layout())
    {
      var newResolution := f.width != mapsWidth || f.height != mapsHeight;
      previous := frame;
      frame := Some(f);
      if newResolution {
        UpdateLedRegionMaps();
      }
    }

    /** `take_frame`: empty the slot and hand back its frame; an empty slot is a panic. */
    method TakeFrame() returns (f: Frame)
      requires frame.Some?
      modifies this
      ensures f == old(frame).value && frame == None
      ensures leds == old(leds) && maps == old(maps)
      ensures mapsWidth == old(mapsWidth) && mapsHeight == old(mapsHeight)
    {
      f := frame.value;
      frame := None;
    }

    /** `FrameProcessor::average_color`: fold the pixels a LED's map names into three
        totals, then divide each by the map length and cast to a byte. This is the
        channel-wise truncated mean of those pixels; the casts never wrap. */
    function AverageColor(ledIndex: nat): (c: Rgb8)
      reads this, if frame.Some? then {frame.value} else {}
      requires frame.Some? && ledIndex < |maps| && |maps[ledIndex]| > 0
      requires IndicesIn(maps[ledIndex], frame.value.data)
      ensures c == Average(Pixels(frame.value.data, maps[ledIndex]))
    {
      var ps := Pixels(frame.value.data, maps[ledIndex]);
      var sums := RunningTotals(ps);
      var n := |maps[ledIndex]|;
      RunningTotalsAreTotals(ps);
      AverageOfTotals(ps, sums, n);
      Rgb8(sums.r / n % 0x100, sums.g / n % 0x100, sums.b / n % 0x100)
    }
  }

  /** The averaged colour of an LED lies between the channel-wise least and greatest
      of the pixels its map names, and a uniformly coloured region gives its colour. */
  lemma FrameAverageBounds(data: seq<Bgra8>, indices: seq<nat>, lo: Bgr8, hi: Bgr8)
    requires |indices| > 0 && IndicesIn(indices, data)
    requires forall k :: 0 <= k < |indices| ==>
               lo.r <= data[indices[k]].r <= hi.r && lo.g <= data[indices[k]].g <= hi.g && lo.b <= data[indices[k]].b <= hi.b
    ensures lo.r <= Average(Pixels(data, indices)).r <= hi.r
    ensures lo.g <= Average(Pixels(data, indices)).g <= hi.g
    ensures lo.b <= Average(Pixels(data, indices)).b <= hi.b
  {
    AverageBetween(Pixels(data, indices), lo, hi);
  }

  lemma FrameAverageOfUniform(data: seq<Bgra8>, indices: seq<nat>, p: Bgr8)
    requires |indices| > 0 && IndicesIn(indices, data)
    requires forall k :: 0 <= k < |indices| ==> Bgr(data[indices[k]]) == p
    ensures Average(Pixels(data, indices)) == Rgb8(p.r, p.g, p.b)
  {
    AverageOfUniform(Pixels(data, indices), p);
  }

  // ---------------------------------------------------------------------------------
  // The Adalight pixel buffer

  /** The six header bytes for `n` LEDs: magic word "Ada", the count minus one as high
      and low byte, and the checksum `hi ^ lo ^ 0x55`. */
  function Header(n: u16): (h: seq<u8>)
    requires n >= 1
    ensures |h| == OUT_HEADER_SIZE
  {
    var hi, lo := (n - 1) / 0x100, (n - 1) % 0x100;
    ['A' as u8, 'd' as u8, 'a' as u8, hi, lo, Xor8(Xor8(hi, lo), 0x55)]
  }

  /** How the receiving LEDstream program reads a header: the magic word, then the
      checksum over the count bytes, then the count plus one. */
  function ParseHeader(bs: seq<u8>): Option<nat>
  {
    if |bs| < OUT_HEADER_SIZE || bs[0] != 'A' as u8 || bs[1] != 'd' as u8 || bs[2] != 'a' as u8 then None
    else if bs[5] != Xor8(Xor8(bs[3], bs[4]), 0x55) then None
    else Some(bs[3] as int * 0x100 + bs[4] as int + 1)
  }

  /** The receiver reads back the LED count the header was written for, and the header
      for `n` is the only one it reads as `n`. */
  lemma HeaderRoundTrip(n: u16, bs: seq<u8>)
    requires n >= 1
    ensures ParseHeader(Header(n)) == Some(n)
    ensures ParseHeader(bs) == Some(n) ==> bs[..OUT_HEADER_SIZE] == Header(n)
  {
    if ParseHeader(bs) == Some(n) {
      ByteSplit(bs[3], bs[4], n - 1);
      assert bs[..OUT_HEADER_SIZE] == Header(n);
    }
  }

  /** A high and a low byte are the quotient and remainder of their value by 256. */
  lemma ByteSplit(hi: u8, lo: u8, v: int)
    requires hi * 0x100 + lo == v
    ensures hi == v / 0x100 && lo == v % 0x100
  {
  }

  /** `init_pixel_buffer`: a zeroed buffer with room for the header and three bytes per
      LED, whose first six bytes are then set to the header. */
  method InitPixelBuffer(nLeds: u16) returns (buffer: array<u8>)
    requires nLeds >= 1
    ensures fresh(buffer)
    ensures buffer.Length == OUT_HEADER_SIZE + nLeds * OUT_PIXEL_SIZE
    ensures buffer[..OUT_HEADER_SIZE] == Header(nLeds)
    ensures forall i :: OUT_HEADER_SIZE <= i < buffer.Length ==> buffer[i] == 0
  {
    buffer := new u8[OUT_HEADER_SIZE + nLeds * OUT_PIXEL_SIZE](_ => 0);
    buffer[0] := 'A' as u8;
    buffer[1] := 'd' as u8;
    buffer[2] := 'a' as u8;
    buffer[3] := (nLeds - 1) / 0x100;
    buffer[4] := (nLeds - 1) % 0x100;
    buffer[5] := Xor8(Xor8(buffer[3], buffer[4]), 0x55);
  }

  /** How the receiving LEDstream program reads the start of a write: a header for `n`
      LEDs, then the next `3n` bytes as their colours, red, green and blue per LED.
      There is no reading without a valid header or with too few bytes after it. */
  function ReceivedBytes(w: seq<u8>): (r: Option<seq<u8>>)
    ensures r.Some? <==> ParseHeader(w).Some? && |w| >= OUT_HEADER_SIZE + OUT_PIXEL_SIZE * ParseHeader(w).value
    ensures r.Some? ==> |r.value| == OUT_PIXEL_SIZE * ParseHeader(w).value
  {
    match ParseHeader(w)
    case None => None
    case Some(n) =>
      if |w| < OUT_HEADER_SIZE + OUT_PIXEL_SIZE * n then None
      else Some(w[OUT_HEADER_SIZE..OUT_HEADER_SIZE + OUT_PIXEL_SIZE * n])
  }

  /** The receiver looks only at the first six bytes when it reads the header. */
  lemma ParseHeaderPrefix(w: seq<u8>)
    requires |w| >= OUT_HEADER_SIZE
    ensures ParseHeader(w) == ParseHeader(w[..OUT_HEADER_SIZE])
  {
  }

  /** The two halves of an appended sequence are the sequences appended. */
  lemma AppendHalves<T>(a: seq<T>, b: seq<T>)
    ensures (a + b)[..|a|] == a && (a + b)[|a|..] == b
  {
  }

  /** The first pass of the main loop pushes the colours after the whole buffer
      `init_pixel_buffer` made, zeroed pixels included, and writes `6 + 6n` bytes:
      the receiver reads zero for every channel of every LED, and the colours trail
      behind. */
  lemma FirstPassShowsBlack(buffer: seq<u8>, colours: seq<Rgb8>)
    requires 1 <= |colours| < 0x1_0000
    requires |buffer| == OUT_HEADER_SIZE + OUT_PIXEL_SIZE * |colours|
    requires buffer[..OUT_HEADER_SIZE] == Header(|colours|)
    requires forall i :: OUT_HEADER_SIZE <= i < |buffer| ==> buffer[i] == 0
    ensures |buffer + RgbsAsBytes(colours)| == OUT_HEADER_SIZE + 2 * OUT_PIXEL_SIZE * |colours|
    ensures var r := ReceivedBytes(buffer + RgbsAsBytes(colours));
            r.Some? && |r.value| == OUT_PIXEL_SIZE * |colours| && forall i :: 0 <= i < |r.value| ==> r.value[i] == 0
  {
    var n := |colours|;
    var w := buffer + RgbsAsBytes(colours);
    assert ParseHeader(w) == Some(n) by {
      AppendHalves(buffer, RgbsAsBytes(colours));
      assert w[..OUT_HEADER_SIZE] == Header(n);
      ParseHeaderPrefix(w);
      HeaderRoundTrip(n, Header(n));
    }
    assert w[OUT_HEADER_SIZE..OUT_HEADER_SIZE + OUT_PIXEL_SIZE * n] == buffer[OUT_HEADER_SIZE..] by {
      AppendHalves(buffer, RgbsAsBytes(colours));
    }
  }

  /** Once the buffer is cut back to its header, as the end of every pass does, the
      receiver reads exactly the bytes of the colours pushed after it, and so (by
      `BytesOfRgbsRoundTrip`) the colours themselves; `6 + 3n` bytes are written. This
      is the write the header-once comment of `init_pixel_buffer` means every pass to
      make. */
  lemma HeaderOnlyPassShowsColours(colours: seq<Rgb8>)
    requires 1 <= |colours| < 0x1_0000
    ensures |Header(|colours|) + RgbsAsBytes(colours)| == OUT_HEADER_SIZE + OUT_PIXEL_SIZE * |colours|
    ensures ReceivedBytes(Header(|colours|) + RgbsAsBytes(colours)) == Some(RgbsAsBytes(colours))
  {
    HeaderRoundTrip(|colours|, Header(|colours|));
    ReadAfterHeader(|colours|, Header(|colours|), RgbsAsBytes(colours));
  }

  /** A header for `n` LEDs followed by exactly `3n` bytes reads as those bytes. */
  lemma ReadAfterHeader(n: nat, header: seq<u8>, bytes: seq<u8>)
    requires |header| == OUT_HEADER_SIZE && ParseHeader(header) == Some(n)
    requires |bytes| == OUT_PIXEL_SIZE * n
    ensures ReceivedBytes(header + bytes) == Some(bytes)
  {
    var w := header + bytes;
    assert ParseHeader(w) == Some(n) by {
      AppendHalves(header, bytes);
      ParseHeaderPrefix(w);
    }
    assert w[OUT_HEADER_SIZE..OUT_HEADER_SIZE + OUT_PIXEL_SIZE * n] == bytes by {
      AppendHalves(header, bytes);
    }
  }

  // ---------------------------------------------------------------------------------
  // Binding transforms to LEDs

  /** What one transform entry contributes to each LED it names. */
  datatype Stage = Stage(rgb: Option<RgbTransformer>, hsv: Option<HsvConf>)

  /** The HSV stage is attached unless both gains are 1. */
  function HsvStage(t: TransformConf): (s: Option<HsvConf>)
    ensures s.None? <==> t.hsv == DEFAULT_HSV
  {
    if !t.hsv.IsDefault() then Some(t.hsv) else None
  }

  /** The RGB stage as the binding loop decides it: red is tested twice and blue never. */
  function RgbStageAsWritten(t: TransformConf): Option<RgbTransformer>
  {
    if !(t.red.IsDefault() && t.green.IsDefault() && t.red.IsDefault())
    then Some(RgbTransformer(t.red, t.green, t.blue)) else None
  }

  /** The RGB stage as intended: attached unless all three channels are default. */
  function RgbStage(t: TransformConf): Option<RgbTransformer>
  {
    if !(t.red.IsDefault() && t.green.IsDefault() && t.blue.IsDefault())
    then Some(RgbTransformer(t.red, t.green, t.blue)) else None
  }

  /** The intended stage is skipped exactly when it could change nothing: when all three
      channels are default, which leaves every pixel as it is. */
  lemma RgbStageSkipsOnlyIdentity(t: TransformConf, c: Rgb8, pow: (real, real) -> real)
    requires forall x: u8 {:trigger pow(x as real / 255.0, 1.0)} :: pow(x as real / 255.0, 1.0) == x as real / 255.0
    ensures RgbStage(t).None? <==> t.red == t.green == t.blue == DEFAULT_ADDITIVE
    ensures RgbStage(t).None? ==>
              Rgb8(CorrectChannel(c.r, t.red, pow), CorrectChannel(c.g, t.green, pow), CorrectChannel(c.b, t.blue, pow)) == c
  {
    if RgbStage(t).None? {
      DefaultCorrectionIsIdentity(c.r, t.red, pow);
      DefaultCorrectionIsIdentity(c.g, t.green, pow);
      DefaultCorrectionIsIdentity(c.b, t.blue, pow);
    }
  }

  /** As written, a transform that corrects only blue is dropped: with red and green at
      their defaults and a black level of 0.5 on blue, no RGB stage is attached,
      although that correction turns a black pixel's blue channel from 0 into 127. */
  lemma BlueOnlyCorrectionDropped(pow: (real, real) -> real)
    requires pow(0.0, 1.0) == 0.0
    ensures var t := TransformConf("*", DEFAULT_HSV, DEFAULT_ADDITIVE, DEFAULT_ADDITIVE,
                                   AdditiveColorConf(0.0, 1.0, 0.5, 1.0));
            RgbStageAsWritten(t).None? && RgbStage(t).Some? && CorrectChannel(0, t.blue, pow) == 127
  {
    var blue := AdditiveColorConf(0.0, 1.0, 0.5, 1.0);
    assert Level(0, blue, pow) == 0.5;
    assert Scaled(0.5, 255.0) == 127.5;
  }

  /** Both versions agree whenever blue is default or red or green is not: the only
      difference is the blue-only transform. */
  lemma RgbStagesAgree(t: TransformConf)
    ensures RgbStageAsWritten(t) != RgbStage(t) <==>
              t.red.IsDefault() && t.green.IsDefault() && !t.blue.IsDefault()
  {
  }

  /** Which RGB test the binding loop applies: the one the program is written with, or
      the intended one. */
  datatype RgbTest = AsWritten | Intended

  /** The stage a transform entry binds under the given RGB test. */
  function StageOf(t: TransformConf, test: RgbTest): (s: Stage)
    ensures s.hsv == HsvStage(t)
    ensures test == AsWritten ==> s.rgb == RgbStageAsWritten(t)
    ensures test == Intended ==> s.rgb == RgbStage(t)
  {
    Stage(if test == AsWritten then RgbStageAsWritten(t) else RgbStage(t), HsvStage(t))
  }

  /** `c` copies of `x`. */
  function Repeat<T>(x: T, c: nat): (s: seq<T>)
    ensures |s| == c && forall k :: 0 <= k < c ==> s[k] == x
  {
    if c == 0 then [] else Repeat(x, c - 1) + [x]
  }

  /** How many of the ranges contain `led`. */
  function Hits(rs: seq<Range>, led: nat): nat
  {
    if |rs| == 0 then 0
    else Hits(rs[..|rs| - 1], led) + (if rs[|rs| - 1].start <= led < rs[|rs| - 1].end then 1 else 0)
  }

  /** One transform entry as the binding loop sees it: its stage and its parsed ranges. */
  datatype Binding = Binding(stage: Stage, ranges: seq<Range>)

  /** Each transform entry paired with its stage and its parsed ranges. */
  function Bindings(ts: seq<TransformConf>, n: nat, test: RgbTest): (bs: seq<Binding>)
    ensures |bs| == |ts|
  {
    seq(|ts|, i requires 0 <= i < |ts| => Binding(StageOf(ts[i], test), ParseLedIndices(ts[i].leds, n)))
  }

  /** The stages bound to `led`: for each entry in configuration order, one copy of its
      stage per range that contains the LED. */
  function Entries(bs: seq<Binding>, led: nat): seq<Stage>
  {
    if |bs| == 0 then []
    else Entries(bs[..|bs| - 1], led) + Repeat(bs[|bs| - 1].stage, Hits(bs[|bs| - 1].ranges, led))
  }

  /** Entries follow configuration order: the stages of a list of entries are those of
      its first part followed by those of its second. */
  lemma {:induction false} EntriesAppend(bs: seq<Binding>, cs: seq<Binding>, led: nat)
    ensures Entries(bs + cs, led) == Entries(bs, led) + Entries(cs, led)
    decreases |cs|
  {
    if |cs| == 0 {
      assert bs + cs == bs;
    } else {
      var front := cs[..|cs| - 1];
      assert (bs + cs)[..|bs + cs| - 1] == bs + front;
      EntriesAppend(bs, front, led);
    }
  }

  /** An LED no range of any entry contains gets no stage. */
  lemma {:induction false} UncoveredLedHasNoEntries(bs: seq<Binding>, led: nat)
    requires forall i :: 0 <= i < |bs| ==> Hits(bs[i].ranges, led) == 0
    ensures Entries(bs, led) == []
  {
    if |bs| > 0 {
      UncoveredLedHasNoEntries(bs[..|bs| - 1], led);
    }
  }

  /** A transform for "*" binds its stage exactly once to every LED. */
  lemma StarBindsEveryLed(t: TransformConf, n: nat, led: nat, test: RgbTest)
    requires t.leds == "*" && led < n
    ensures Entries(Bindings([t], n, test), led) == [StageOf(t, test)]
  {
    var bs := Bindings([t], n, test);
    assert bs[..0] == [];
    assert bs[0].ranges == [Range(0, n)];
    assert Hits([Range(0, n)], led) == 1 by {
      assert [Range(0, n)][..0] == [];
    }
  }

  /** End to end, the binding loop as written gives every LED a blue-only "*"
      transform without its RGB stage, so the correction never reaches a pixel; the
      intended test binds it to every LED. */
  lemma BlueOnlyTransformNeverBound(n: nat, led: nat)
    requires led < n
    ensures var blue := AdditiveColorConf(0.0, 1.0, 0.5, 1.0);
            var t := TransformConf("*", DEFAULT_HSV, DEFAULT_ADDITIVE, DEFAULT_ADDITIVE, blue);
            && Entries(Bindings([t], n, AsWritten), led) == [Stage(None, None)]
            && Entries(Bindings([t], n, Intended), led)
               == [Stage(Some(RgbTransformer(DEFAULT_ADDITIVE, DEFAULT_ADDITIVE, blue)), None)]
  {
    var blue := AdditiveColorConf(0.0, 1.0, 0.5, 1.0);
    var t := TransformConf("*", DEFAULT_HSV, DEFAULT_ADDITIVE, DEFAULT_ADDITIVE, blue);
    StarBindsEveryLed(t, n, led, AsWritten);
    StarBindsEveryLed(t, n, led, Intended);
  }

  /** Every range of every entry lies within the `n` LEDs, so slicing the per-LED
      lists by it cannot panic. */
  predicate RangesWithin(bs: seq<Binding>, n: nat)
  {
    forall i :: 0 <= i < |bs| ==> Fits(bs[i], n)
  }

  /** Every range of a binding lies within the first `n` LEDs. */
  predicate Fits(b: Binding, n: nat)
  {
    forall j :: 0 <= j < |b.ranges| ==> b.ranges[j].start <= b.ranges[j].end <= n
  }

  /** The list of each LED holds the stages the bindings `bs` give it. */
  predicate BoundTo(bound: seq<seq<Stage>>, bs: seq<Binding>)
  {
    forall led :: 0 <= led < |bound| ==> bound[led] == Entries(bs, led)
  }

  lemma HitsStep(rs: seq<Range>, j: nat, led: nat)
    requires j < |rs|
    ensures Hits(rs[..j + 1], led) == Hits(rs[..j], led) + (if rs[j].start <= led < rs[j].end then 1 else 0)
  {
    assert rs[..j + 1][..j] == rs[..j];
  }

  lemma EntriesStep(bs: seq<Binding>, i: nat, led: nat)
    requires i < |bs|
    ensures Entries(bs[..i + 1], led) == Entries(bs[..i], led) + Repeat(bs[i].stage, Hits(bs[i].ranges, led))
  {
    assert bs[..i + 1][..i] == bs[..i];
  }

  /** `for transforms in led_transformers[range].iter_mut()`: push the stage onto the
      list of every LED in the range, and leave the others alone. */
  method PushToRange(bound: seq<seq<Stage>>, stage: Stage, range: Range) returns (pushed: seq<seq<Stage>>)
    requires range.start <= range.end <= |bound|
    ensures |pushed| == |bound|
    ensures forall m :: 0 <= m < |bound| ==>
              pushed[m] == bound[m] + (if range.start <= m < range.end then [stage] else [])
  {
    pushed := bound;
    for led := range.start to range.end
      invariant |pushed| == |bound|
      invariant forall m :: 0 <= m < |bound| ==>
                  pushed[m] == bound[m] + (if range.start <= m < led then [stage] else [])
    {
      pushed := pushed[led := pushed[led] + [stage]];
    }
  }

  /** The loop over the parsed ranges of one transform entry: each LED receives one
      copy of the stage per range that contains it. */
  method BindEntry(bound: seq<seq<Stage>>, b: Binding) returns (next: seq<seq<Stage>>)
    requires Fits(b, |bound|)
    ensures |next| == |bound|
    ensures forall m :: 0 <= m < |bound| ==> next[m] == bound[m] + Repeat(b.stage, Hits(b.ranges, m))
  {
    next := bound;
    for j := 0 to |b.ranges|
      invariant |next| == |bound|
      invariant forall m :: 0 <= m < |bound| ==> next[m] == bound[m] + Repeat(b.stage, Hits(b.ranges[..j], m))
    {
      ghost var mid := next;
      next := PushToRange(next, b.stage, b.ranges[j]);
      forall m | 0 <= m < |bound|
        ensures next[m] == bound[m] + Repeat(b.stage, Hits(b.ranges[..j + 1], m))
      {
        HitsStep(b.ranges, j, m);
      }
    }
    assert b.ranges[..|b.ranges|] == b.ranges;
  }

  /** Binding the `i`-th entry onto the lists of the first `i` entries gives the lists
      of the first `i + 1`. */
  lemma BindStep(bs: seq<Binding>, i: nat, before: seq<seq<Stage>>, after: seq<seq<Stage>>)
    requires i < |bs| && |after| == |before|
    requires BoundTo(before, bs[..i])
    requires forall m :: 0 <= m < |before| ==> after[m] == before[m] + Repeat(bs[i].stage, Hits(bs[i].ranges, m))
    ensures BoundTo(after, bs[..i + 1])
  {
    forall led | 0 <= led < |after|
      ensures after[led] == Entries(bs[..i + 1], led)
    {
      EntriesStep(bs, i, led);
    }
  }

  /** The entry the loop builds for transform `i` is the `i`-th binding, and its ranges
      lie within the LEDs. */
  lemma BindingWithin(ts: seq<TransformConf>, n: nat, test: RgbTest, i: nat)
    requires RangesWithin(Bindings(ts, n, test), n) && i < |ts|
    ensures Bindings(ts, n, test)[i] == Binding(StageOf(ts[i], test), ParseLedIndices(ts[i].leds, n))
    ensures Fits(Bindings(ts, n, test)[i], n)
  {
  }

  /** The binding loop: start with an empty list per LED, then bind each transform
      entry in configuration order. With `AsWritten` this is the program's loop; with
      `Intended` it is the loop after the RGB test is corrected. */
  method BindTransforms(ts: seq<TransformConf>, n: nat, test: RgbTest) returns (bound: seq<seq<Stage>>)
    requires RangesWithin(Bindings(ts, n, test), n)
    ensures |bound| == n
    ensures forall led :: 0 <= led < n ==> bound[led] == Entries(Bindings(ts, n, test), led)
  {
    ghost var bs := Bindings(ts, n, test);
    bound := seq(n, _ => []);
    for i := 0 to |ts|
      invariant |bound| == n
      invariant BoundTo(bound, bs[..i])
    {
      var b := Binding(StageOf(ts[i], test), ParseLedIndices(ts[i].leds, n));
      BindingWithin(ts, n, test, i);
      ghost var before := bound;
      bound := BindEntry(bound, b);
      BindStep(bs, i, before, bound);
    }
    assert bs[..|ts|] == bs;
  }
}
