# Helion in Dafny

Helion is an ambient-lighting driver. It captures the screen and averages the part of the
image behind each LED. It then corrects each average with the colour transforms of its
configuration and streams the result to an Arduino running the Adalight "LEDstream"
sketch. This project models the core of that pipeline and proves properties of the model:

- **Configuration** (`config.dfy`): the default checks of the colour settings, the LED
  index-list parser (`"3, 4-8, 0, 20-24"`, `"*"`), and the comment stripping applied to
  the configuration text before it is decoded.
- **Colour** (`color.dfy`): the floating-point `modulo`, the RGB to HSV and HSV to RGB
  conversions, the per-channel RGB correction (threshold, gamma, black and white level),
  the HSV gains, the byte view of a pixel slice, and the two smoothing functions.
- **Sampling** (`sampling.dfy`): what the three averagers share. This covers the
  row-major grid of sampled cells, channel sums and truncating means, the frame-to-sample
  ratios, and the index a cell is read from.
- **Capture** (`capture.dfy`): the current `ImageAnalyzer`. It picks its sampling
  resolution, then runs the nested loops of `average_color`.
- **Index-map pipeline** (`main_wf.rs`, modelled in `main_wf.dfy`): capture status
  codes and the `Frame` class with its sampling resolution. The `FrameProcessor` class
  precomputes one list of data indices per LED and averages over it. Also modelled: the
  Adalight header of the output buffer, and the binding of configured transforms to LEDs.
- **Prototype** (`main.rs`, modelled in `prototype.dfy`): the first averager, over raw
  B8G8R8A8 bytes, which samples every second row and column.
- `prelude.dfy` and `text.dfy` stand for the parts of Rust's standard library the code
  relies on: float-to-integer casts, `Option`, `flat_map`, and `str`'s `trim`, `split`,
  `lines` and `parse::<usize>`.

`f32` values are modelled as mathematical reals. Rust's saturating float-to-integer casts
are written out (`ToU8`, `ToUsize`), as are the `% 256` of an integer `as u8`,
`usize` as a 64-bit integer, and a `usize` `+ 1` that wraps to 0 at `usize::MAX`
as in a release build (`WrappingInc`). `powf` and `partial_min` come from outside the shown code,
so they are parameters of the functions that use them.

## Model

| member | source | states |
|---|---|---|
| Prelude.ToU8 | src/color.rs:98-110 | `f32 as u8` over reals (NaN is not modelled): negatives give 0, values past 255 give 255, in-range values are truncated, and the result never exceeds a non-negative input |
| Prelude.ToUsize | src/capture.rs:56-61 | `f32 as usize`: saturates at 0 and `usize::MAX`, truncates in range, and never exceeds a non-negative input |
| Prelude.FlatMapSkip | src/config.rs:228-243 | an element `filter_map` maps to nothing contributes nothing to the collected result |
| Text.Trim | src/config.rs:198 | `str::trim` returns the slice of its input that remains after removing white space from both ends: everything removed is white space, and the result neither starts nor ends with it |
| Text.TrimStartRemovesBlanks | src/config.rs:198 | everything the leading half of `trim` removes is white space |
| Text.TrimEndRemovesBlanks | src/config.rs:198 | everything the trailing half of `trim` removes is white space |
| Text.TrimNoOp | src/config.rs:226 | trimming a string without white space at its ends leaves it unchanged |
| Text.Split | src/config.rs:225 | `split` always yields at least one part |
| Text.SplitJoin | src/config.rs:225-226 | the parts of a split contain no separator and join back to the input |
| Text.JoinSplit | src/config.rs:225-226 | splitting a join of separator-free parts gives those parts back |
| Text.Lines | src/config.rs:197 | `lines` yields parts without line feeds |
| Text.LinesAppend | src/config.rs:197 | the lines of two newline-terminated texts are the lines of each, in order |
| Text.ParseUsize | src/config.rs:229-235 | `parse::<usize>` succeeds exactly on an optional leading '+' followed by at least one digit whose decimal value is at most `usize::MAX`, and yields that value |
| Text.ParseNatToString | src/config.rs:229-235 | the decimal form of every `usize` parses back to it |
| Config.DefaultsAreUnique | src/config.rs:50-77 | `is_default` holds exactly for the default gains (1, 1) and the default correction (0, 1, 0, 1) |
| Config.HsvConf.IsDefault | src/config.rs:51-54 | definitional (no ensures; the definition is the statement): both gains are 1; `DefaultsAreUnique` pins the values |
| Config.AdditiveColorConf.IsDefault | src/config.rs:70-77 | definitional: threshold 0, gamma 1, blacklevel 0 and whitelevel 1; `DefaultsAreUnique` pins the values |
| Prelude.WrappingInc | src/config.rs:229-237 | `i + 1` on a `usize` in a release build: the successor, except that `usize::MAX` wraps to 0 |
| Config.EntryRange | src/config.rs:226-242 | both bounds of an entry's range are `usize` values (the end wraps rather than exceeding `usize::MAX`) |
| Config.RangeOfParts | src/config.rs:227-242 | there is a range exactly when there are one or two parts and each parses as a `usize`; it starts at the first index and ends at the last index plus one, wrapping at `usize::MAX` |
| Config.SingleEntryParses | src/config.rs:229-230 | an entry that trims to the decimal form of `i` gives `i..i+1` |
| Config.PairEntryParses | src/config.rs:234-237 | an entry that trims to `i-j` gives `i..j+1` |
| Config.LargestIndexWraps | src/config.rs:229-230 | the entry `usize::MAX` gives the backwards, empty range `usize::MAX..0` in a release build |
| Config.RangeToLargestIndexWraps | src/config.rs:234-237 | an entry `i-usize::MAX` gives `i..0` in a release build |
| Config.ParseLedIndices | src/config.rs:221-245 | "*" gives the single range `0..total`; every other range has both bounds within `usize` |
| Config.ParseIgnoresLedCount | src/config.rs:224-244 | outside "*", the LED count has no influence on the result |
| Config.BadEntryIsSkipped | src/config.rs:227-243 | an entry that yields no range leaves the ranges of the others, in order |
| Config.SpacedRangeIsSkipped | src/config.rs:226-240 | an entry like "1 - 5" (blanks around the dash) yields no range |
| Config.ParseFormatRoundTrip | src/config.rs:221-245 | formatting any list of non-empty-ended ranges (`1 <= end <= usize::MAX`) as comma-separated `i` / `i-j` entries, optionally blank-led, parses back to that list |
| Config.EntryRoundTrip | src/config.rs:226-240 | one formatted entry, with or without a leading blank, parses back to its range |
| Config.ParseLedIndicesMixedList | src/config.rs:249 | "3, 4-8, 0, 20-24" gives `3..4, 4..9, 0..1, 20..25` |
| Config.ParseLedIndicesSpacedRange | src/config.rs:251 | "0, 1 - 5" gives only `0..1` |
| Config.ParseLedIndicesNotANumber | src/config.rs:252 | "1-A" gives no range |
| Config.KeptLine | src/config.rs:198-199 | a line kept by the comment filter is non-empty and does not start with "//" |
| Config.StripComments | src/config.rs:197-200 | definitional: each line trimmed, kept by `KeptLine`, and the kept lines concatenated in order; `StripCommentsSingleLine`, `StripCommentsAppend` and `AllCommentsStripToNothing` state its properties |
| Config.StripCommentsSingleLine | src/config.rs:197-200 | the stripped configuration holds no line feed |
| Config.StripCommentsAppend | src/config.rs:197-200 | stripping distributes over newline-terminated blocks of lines |
| Config.AllCommentsStripToNothing | src/config.rs:197-200 | a text of blank and comment lines strips to the empty string |
| Colors.Modulo | src/color.rs:10-12 | the result lies in [0, r]; it is `l` for `0 <= l < r` and `l + r` for `-r < l < 0`, and reaches r only for a negative `l` |
| Colors.FRemBounds | src/color.rs:11 | `f32 %` keeps the sign of `l`, stays below `r` in magnitude, and leaves `|l| < r` unchanged |
| Colors.FRem | src/color.rs:11 | definitional: `f32 %` is the dividend less the divisor times the quotient truncated toward zero; `FRemBounds` states its bounds |
| Colors.ModuloShift | src/color.rs:10-12 | `modulo(l, r)` differs from `l` by a whole multiple of `r` |
| Colors.Max3 | src/color.rs:61 | the maximum bounds all three channels and is one of them |
| Colors.Min3 | src/color.rs:62 | the minimum is below all three channels and is one of them |
| Colors.HueSixths | src/color.rs:65-74 | the hue in sixths of a turn lies in [0, 6) and is 0 for a grey |
| Colors.ToHsv | src/color.rs:60-85 | hue in [0, 1), saturation and value in [0, 1], value is max/255, saturation is chroma/max (0 for black), and a grey has hue 0 |
| Colors.ToRgb | src/color.rs:96-132 | zero saturation gives a grey of value·255; otherwise the value byte is one of the channels, and for a hue, saturation and value in range it is the largest |
| Colors.SectorColor | src/color.rs:111-130 | each sector puts the value byte in one channel, and it is the largest when the other bytes are not above it; sectors 5 and up fall to the last arm `(v, p, q)` |
| Colors.HsvRoundTrip | src/color.rs:60-132 | converting any RGB pixel to HSV and back gives the same pixel |
| Colors.ColorRoundTrip | src/color.rs:140-156 | `into_hsv` then `into_rgb` is the identity on RGB pixels |
| Colors.Color.IntoRgb | src/color.rs:142-147 | an RGB pixel is returned as it is, an HSV pixel is converted |
| Colors.Color.IntoHsv | src/color.rs:150-155 | an HSV pixel is returned as it is, an RGB pixel is converted |
| Colors.CorrectChannel | src/color.rs:27-30 | a level below the threshold switches the channel off; otherwise the byte does not exceed level·255 |
| Colors.Level | src/color.rs:27-29 | definitional: the channel as a fraction of 255 raised to `gamma` (a parameter for `powf`), times `whitelevel`, times `1 - blacklevel`, plus `blacklevel` |
| Colors.RgbTransformer.Transform | src/color.rs:23-37 | each channel is corrected in place with its own configuration only |
| Colors.DefaultCorrectionIsIdentity | src/color.rs:27-30 | a default correction leaves a channel unchanged when `powf(x, 1) == x` |
| Colors.CorrectionMonotone | src/color.rs:27-30 | with a non-negative white level and a black level of at most 1, a brighter input never gives a darker output |
| Colors.BlacklevelIsFloor | src/color.rs:27-30 | with levels in [0, 1] and the threshold at most the black level, no channel goes below blacklevel·255 |
| Colors.HsvTransform | src/color.rs:43-49 | the HSV stage never changes the hue |
| Colors.HsvTransformRanges | src/color.rs:43-49 | with a clamp to 1, non-negative gains keep saturation and value in [0, 1], and default gains change nothing |
| Colors.DefaultHsvStageRoundTrip | src/color.rs:43-49 | the default HSV stage between the two conversions gives the input pixel back |
| Colors.RgbsAsBytes | src/color.rs:159-161 | the byte view has three bytes per pixel |
| Colors.ByteLayout | src/color.rs:159-161 | pixel `i` occupies bytes `3i`, `3i+1` and `3i+2` as red, green, blue |
| Colors.BytesOfRgbsRoundTrip | src/color.rs:159-161 | the byte view loses nothing: reading it back as pixels gives the slice |
| Colors.RgbsOfBytesRoundTrip | src/color.rs:159-161 | every byte string of a multiple of three is the view of exactly one pixel slice |
| Colors.LinearSmoothEnds | src/color.rs:164-186 | a factor of 1 or more gives `to`, as `no_smooth` does; a factor of 0 gives `from` |
| Colors.NoSmooth | src/color.rs:164-166 | definitional: the new colour as it is |
| Colors.Lerp | src/color.rs:173-178 | definitional: `from + (to - from) * factor` for one channel, before the cast |
| Colors.LinearSmooth | src/color.rs:169-186 | definitional: past a factor of 1 the target, otherwise each channel lerped and cast to a byte; `LinearSmoothEnds` and `LinearSmoothBetween` state its properties |
| Colors.LinearSmoothBetween | src/color.rs:169-186 | for a factor in [0, 1] each channel lies between the `from` and `to` channels |
| Sampling.CellCount | src/capture.rs:63-75 | the loops visit `(x2 - x1) * (y2 - y1)` cells, the number the average divides by |
| Sampling.DimRatio | src/capture.rs:52-55 | `a as f32 / b as f32`: for a non-zero divisor the ratio times `b` is `a`, and it is never negative |
| Sampling.ScanBound | src/capture.rs:56-61 | a region edge in cells: 0 for a fraction at or below 0, and at most the dimension for a fraction at or below 1 |
| Sampling.SampleIndex | src/capture.rs:65-66 | definitional: `row * height_ratio * width + col * width_ratio`, cast with the saturating `as usize` |
| Sampling.CellsMembers | src/capture.rs:63-64 | a cell is visited exactly when it lies in `[y1, y2) x [x1, x2)` |
| Sampling.CellsOrdered | src/capture.rs:63-64 | cells are visited in strict row-major order |
| Sampling.CellsDistinct | src/capture.rs:63-64 | no cell is visited twice |
| Sampling.MeanBetween | src/capture.rs:75-80 | the truncated mean of values in [lo, hi] lies in [lo, hi]; for bytes, the final `as u8` never wraps |
| Sampling.Mean | src/capture.rs:75-80 | the truncated mean of a run of bytes lies in [0, 256) |
| Capture.Reds | src/capture.rs:70 | the red channels of the pixels, one byte per pixel |
| Capture.Greens | src/capture.rs:71 | the green channels of the pixels, one byte per pixel |
| Capture.Blues | src/capture.rs:72 | the blue channels of the pixels, one byte per pixel |
| Capture.AverageOfTotals | src/capture.rs:75-80 | dividing the totals of `n` pixels by `n` and casting gives their average |
| Capture.RunningTotalsAreTotals | src/main_wf.rs:337-341 | the left-to-right fold of the pixels computes the channel sums |
| Capture.ImageAnalyzer.AverageColor | src/capture.rs:48-82 | black for an empty image; otherwise the region is non-empty and the result is the channel-wise truncated mean of the sampled pixels |
| Capture.ImageAnalyzer.SumRegion | src/capture.rs:62-74 | the nested loops compute the totals of the region's cells in visiting order |
| Capture.ImageAnalyzer.SumRow | src/capture.rs:64-73 | the inner loop adds the cells of one row to the totals |
| Capture.ImageAnalyzer.CellTotalsAreTotals | src/capture.rs:62-74 | the running totals are the channel sums of the pixels read |
| Capture.NewAnalyzer | src/capture.rs:21-45 | a zero resize dimension is replaced by the image's own, a non-zero one is kept |
| Capture.NewAnalyzerDefaults | src/capture.rs:21-45 | defaulting is idempotent, and a non-empty image gets a non-zero sampling resolution |
| Capture.AverageBetween | src/capture.rs:62-80 | each channel of the average lies between that channel's least and greatest sampled value |
| Capture.AverageOfUniform | src/capture.rs:62-80 | a region of one colour averages to that colour |
| MainWf.AsCaptureResult | src/main_wf.rs:88-97 | codes 0 to 3 give their own outcome and every other code gives `CrFail` |
| MainWf.StatusCodeRoundTrip | src/main.rs:39-48 | every outcome is decoded from its own status code |
| MainWf.Frame.constructor | src/main_wf.rs:119-123 | a new frame has zero dimensions, no data, and ratios consistent with them |
| MainWf.Frame.UpdateProcessRatio | src/main_wf.rs:125-129 | both ratios become the frame dimensions over the sampling dimensions; nothing else changes |
| MainWf.Frame.SetDimensions | src/main_wf.rs:131-141 | the dimensions are recorded; a sampling dimension is taken from them only if it is still 0; the ratios are current |
| MainWf.Frame.SetResizeDimensions | src/main_wf.rs:143-155 | the sampling resolution is set, with 0 meaning the frame's own dimension; the ratios are current |
| MainWf.ConfigureThenCapture | src/main_wf.rs:131-155 | a configured sampling dimension survives the first capture; a configured 0 becomes the screen's own |
| MainWf.IndexMapOfCells | src/main_wf.rs:288-300 | the row-by-row fold lists, in row-major order, the data index of every cell of the region and nothing else |
| MainWf.IndexMap | src/main_wf.rs:288-299 | definitional: the fold over the rows and columns of the LED's region; `IndexMapOfCells` and `IndexMapLength` state what it holds |
| MainWf.IndexMapLength | src/main_wf.rs:288-300 | a region with ordered bounds has `(y2 - y1) * (x2 - x1)` indices |
| MainWf.MapsFor | src/main_wf.rs:286-302 | one map per LED, in LED order |
| MainWf.FrameProcessor.constructor | src/main_wf.rs:273-277 | no frame, no LEDs, no maps, and a recorded resolution of 0 x 0 |
| MainWf.FrameProcessor.UpdateLedRegionMaps | src/main_wf.rs:279-303 | without a frame nothing changes; otherwise the maps become one index map per LED for the slotted frame |
| MainWf.FrameProcessor.SetLeds | src/main_wf.rs:305-308 | the regions are replaced and the maps recomputed for them |
| MainWf.FrameProcessor.InsertFrame | src/main_wf.rs:310-318 | the new frame is slotted and the old slot content returned; the maps are rebuilt exactly when the size differs from the recorded one, which is never updated, so every frame with a non-zero dimension triggers it |
| MainWf.FrameProcessor.TakeFrame | src/main_wf.rs:320-327 | the slotted frame is returned and the slot emptied; an empty slot is excluded |
| MainWf.FrameProcessor.AverageColor | src/main_wf.rs:329-347 | the fold divided by the map length is the channel-wise truncated mean of the pixels the map names; the casts never wrap |
| MainWf.FrameAverageBounds | src/main_wf.rs:336-346 | each channel of an LED's colour lies between that channel's least and greatest value over its pixels |
| MainWf.FrameAverageOfUniform | src/main_wf.rs:336-346 | pixels of one colour average to that colour |
| MainWf.Header | src/main_wf.rs:358-365 | the header is six bytes long |
| MainWf.HeaderRoundTrip | src/main_wf.rs:358-365 | the receiver reads back the LED count the header was written for, and the header for `n` is the only one read as `n` |
| MainWf.InitPixelBuffer | src/main_wf.rs:350-367 | a fresh buffer of `6 + 3n` bytes: the header, then zeroes |
| MainWf.ReceivedBytes | src/main_wf.rs:350-367 | the receiving end of the header: a write reads as colours exactly when it starts with a valid header for `n` LEDs and holds `3n` bytes after it, and then it is those `3n` bytes |
| MainWf.FirstPassShowsBlack | src/main_wf.rs:481-489 | as written, the first pass pushes the colours after the whole initial buffer: `6 + 6n` bytes are written and every channel the receiver reads is 0 |
| MainWf.HeaderOnlyPassShowsColours | src/main_wf.rs:481-518 | once the buffer is cut back to its header, a pass writes `6 + 3n` bytes and the receiver reads exactly the colours' bytes |
| MainWf.HsvStage | src/main_wf.rs:388-390 | the HSV stage is attached unless the gains are the defaults |
| MainWf.RgbStageAsWritten | src/main_wf.rs:392-399 | definitional: the stage is attached unless red, green and red again are default; `BlueOnlyCorrectionDropped` and `RgbStagesAgree` state what this misses |
| MainWf.RgbStage | src/main_wf.rs:392-399 | definitional: the corrected test over red, green and blue; `RgbStageSkipsOnlyIdentity` proves it skips only the identity |
| MainWf.RgbStageSkipsOnlyIdentity | src/main_wf.rs:392-399 | the intended RGB stage is skipped exactly for three default channels, which leave every pixel unchanged |
| MainWf.BlueOnlyCorrectionDropped | src/main_wf.rs:392-394 | as written, a transform that corrects only blue gets no RGB stage, although its correction changes a black pixel |
| MainWf.RgbStagesAgree | src/main_wf.rs:392-394 | the written and the intended test differ exactly for default red and green with non-default blue |
| MainWf.StageOf | src/main_wf.rs:388-399 | the stage of an entry carries its HSV stage, and the RGB stage of the chosen test: the one written (red, green, red) or the intended one (red, green, blue) |
| MainWf.Repeat | src/main_wf.rs:402-404 | `c` copies of the stage |
| MainWf.Bindings | src/main_wf.rs:387-401 | one (stage, parsed ranges) pair per configured transform, under the chosen RGB test |
| MainWf.EntriesAppend | src/main_wf.rs:387-406 | stages are bound in configuration order |
| MainWf.UncoveredLedHasNoEntries | src/main_wf.rs:385-406 | an LED no parsed range contains gets no stage |
| MainWf.StarBindsEveryLed | src/main_wf.rs:401-405 | a "*" transform binds its stage exactly once to every LED |
| MainWf.BlueOnlyTransformNeverBound | src/main_wf.rs:385-406 | end to end, the loop as written binds a blue-only "*" transform to every LED without its RGB stage, while the intended test binds the correction |
| MainWf.PushToRange | src/main_wf.rs:402-404 | every LED of the range receives the stage; the others are unchanged |
| MainWf.BindEntry | src/main_wf.rs:401-405 | each LED receives one copy of the stage per range containing it |
| MainWf.BindTransforms | src/main_wf.rs:385-406 | one list per LED, holding the stages of the transforms covering it in configuration order; with `AsWritten` the stages use the program's RGB test |
| Prototype.RawFrame.SampleSums | src/main.rs:93-100 | the nested loops compute the totals of the sampled cells in row-major order; empty ranges add nothing |
| Prototype.RawFrame.SampleRow | src/main.rs:94-99 | the inner loop adds the bytes of one row's cells to the totals |
| Prototype.RawFrame.SampleTotalsAreTotals | src/main.rs:93-100 | the running totals are the channel sums of the sampled pixels |
| Prototype.RawFrame.AverageColorAsWritten | src/main.rs:86-104 | the totals are divided by `width * height` and cast to bytes; a region without samples gives black |
| Prototype.RawFrame.AverageColor | src/main.rs:86-104 | corrected: the result is the truncated mean of the sampled pixels, black when there are none |
| Prototype.DividedNeverExceedsAverage | src/main.rs:102-103 | dividing the totals by at least as many pixels as were sampled gives, in each channel, at most the sampled average |
| Prototype.SampleIsEvenPixel | src/main.rs:92-95 | sample `(row, col)` is the pixel at row `2·row`, column `2·col` |
| Prototype.UnitRegionIsReadable | src/main.rs:92-98 | for a region inside the unit square and a full frame, every blue, green and red read is inside the data |
| Prototype.WholeFrameDivisorDarkens | src/main.rs:102-103 | a white 2 x 2 frame and the region (0, 0)-(1, 1): one pixel is sampled, its average is 255, and 63 is reported per channel |

## Left out

- The capture library and its raw-pointer handling (`Capturer`, `capture_frame`, `replace_frame`, `Drop`, `Vec::from_raw_parts`) are foreign calls and unsafe memory. Frame data is a plain sequence here.
- The serial connection, sleeping, `precise_time_s` frame pacing, the diagnostics printed by both `main` loops and the ratio printed by `update_process_ratio` (`main_wf.rs` line 127) are I/O and wall-clock timing. MainWf.Frame.UpdateProcessRatio models only the two ratios it stores.
- The per-LED `Future::spawn`/`Arc` fan-out is concurrency. Each LED's average is computed independently anyway, and that computation is modelled.
- The per-frame pixel fold of `main_wf.rs` (lines 458-484) is left out. It applies the bound stages to each average and pushes three bytes per LED onto the output buffer. The buffer is cut back to its header only at the end of each pass (line 518), so the first pass pushes after the header and the `3n` zero bytes `init_pixel_buffer` made (see Findings). Its parts are modelled: the averages, the stages, the header, the byte layout and what the receiver reads from a write.
- JSON decoding, opening the configuration file, and the hand-written `Decodable for Smoothing` are a library and I/O. Only the comment stripping is modelled.
- `f32` rounding is not modelled: values are exact reals. This affects `powf`, the SIMD arithmetic of `linear_smooth`, and the float index `row * ratio * width + col * ratio`. The HSV round trip is therefore proved exactly, not within ±1.
- `powf` and `partial_min` are defined outside the shown code. They are parameters. Nothing is claimed about `partial_min` except where a lemma assumes it clamps at 1 (`ClampsAtOne`).
- Sampling.DimRatio: a zero sampling dimension makes the Rust ratio NaN or infinite; here it is 0. It only arises for an empty frame, whose index ranges are empty, so the ratio is never used.
- Colors.Modulo requires `r > 0`, the only divisor the program passes (6.0).
- Capture.ImageAnalyzer.AverageColor, MainWf.FrameProcessor.AverageColor and Prototype.RawFrame.SampleSums require every read to be inside the data. The program panics on an out-of-bounds read. In the model such a read yields black, and the preconditions exclude it.
- Capture.ImageAnalyzer.AverageColor requires a non-empty region when there is data. For an empty region the program divides by zero and panics, and `x2 - x1` underflows when `x2 < x1`.
- MainWf.FrameProcessor.TakeFrame requires a frame in the slot. The program panics when the slot is empty.
- Prototype.RawFrame.AverageColorAsWritten requires `width * height > 0`. For an empty frame the program divides by zero and panics.
- Config.RangeOfParts models the release build, where `i + 1` and `j + 1` wrap to 0 at `usize::MAX`. A debug build panics there instead.
- MainWf.BindTransforms requires every parsed range to lie within the LED count. The program panics when slicing `led_transformers` past its end.
- MainWf.FrameProcessor.AverageColor requires a frame and a non-empty map. The program panics without a frame and divides by zero for an empty map.
- The `LEDS` table of `main.rs` is configuration data and is not modelled.
- The `u64` totals are unbounded integers. They could only overflow after more than 2^56 samples.
- `main_wf.rs` line 293 reserves capacity `(y2 - y1) * (x2 - x2)`, which is always 0. Capacity has no effect on the result, so it is not modelled. In a debug build, `y2 - y1` panics when `y2 < y1`; the model follows the release build, where the map is simply empty.
- `main_wf.rs` line 411 casts the LED count to `u16`. MainWf.InitPixelBuffer takes a `u16` count of at least 1, because `n_leds - 1` underflows for 0.

## Findings

| source | as written | input that shows it | evidently intended | confidence | as-written member | corrected member |
|---|---|---|---|---|---|---|
| src/main_wf.rs:392-394 | the RGB stage is skipped when red and green are default; red is tested twice and blue never | a transform with default red and green and blue black level 0.5: no RGB stage is bound, although it turns a black pixel's blue from 0 into 127 | skip the stage only when all three channels are default | high (not executed) | MainWf.BlueOnlyCorrectionDropped | MainWf.RgbStageSkipsOnlyIdentity |
| src/main.rs:102-103 | the channel totals are divided by the pixel count of the whole frame, `width * height` | a white 2 x 2 frame and the region (0, 0)-(1, 1): one sample of 255, result 63 per channel | divide by the number of samples | high (not executed) | Prototype.WholeFrameDivisorDarkens | Prototype.RawFrame.AverageColor |
| src/main_wf.rs:350-352 | `init_pixel_buffer` fills the buffer with the header and `3n` zero bytes, and each pass pushes the colours onto it; it is cut back to the header only at the end of the pass (line 518) | the first pass for any `n >= 1` LEDs: `6 + 6n` bytes are written, and the receiver reads 0 in every channel of every LED | a buffer holding only the header (with room for the pixels), so that every pass, the first included, writes the header and then the colours | medium (not executed) | MainWf.FirstPassShowsBlack | MainWf.HeaderOnlyPassShowsColours |
