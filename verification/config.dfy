/** Configuration records and the two pure transforms of the configuration loader:
    LED index-range parsing and comment stripping (src/config.rs). */
module Config {
  import opened Prelude
  import opened Text

  /** HSV gains of one colour transform. */
  datatype HsvConf = HsvConf(saturationGain: real, valueGain: real)
  {
    /** `HSV::is_default`: both gains are 1. */
    predicate IsDefault()
    {
      saturationGain == 1.0 && valueGain == 1.0
    }
  }

  /** Correction of one additive channel (red, green or blue). */
  datatype AdditiveColorConf = AdditiveColorConf(threshold: real, gamma: real, blacklevel: real, whitelevel: real)
  {
    /** `AdditiveColorConf::is_default`: threshold 0, gamma 1, blacklevel 0, whitelevel 1. */
    predicate IsDefault()
    {
      threshold == 0.0 && gamma == 1.0 && blacklevel == 0.0 && whitelevel == 1.0
    }
  }

  const DEFAULT_HSV := HsvConf(1.0, 1.0)
  const DEFAULT_ADDITIVE := AdditiveColorConf(0.0, 1.0, 0.0, 1.0)

  /** The default values are the only ones the identity checks accept. */
  lemma DefaultsAreUnique(h: HsvConf, a: AdditiveColorConf)
    ensures h.IsDefault() <==> h == DEFAULT_HSV
    ensures a.IsDefault() <==> a == DEFAULT_ADDITIVE
  {
  }

  /** One entry of the configuration's transform list. */
  datatype TransformConf = TransformConf(leds: string, hsv: HsvConf,
                                         red: AdditiveColorConf, green: AdditiveColorConf, blue: AdditiveColorConf)

  /** The fractional part of the image along one axis (both ends inclusive). */
  datatype LedAxisPos = LedAxisPos(minimum: real, maximum: real)

  /** The part of the monitor averaged for one LED. */
  datatype Region = Region(hscan: LedAxisPos, vscan: LedAxisPos)

  /** A half-open index range `start..end`. */
  datatype Range = Range(start: nat, end: nat)

  /** The range one comma-separated entry stands for, or `None` when the entry is
      skipped: it is trimmed as a whole, split at '-', and must consist of one index or
      two indices, each a valid `usize`. Both bounds are `usize` values: the end is
      one past the last index, wrapping to 0 past `usize::MAX`. */
  function EntryRange(entry: string): (r: Option<Range>)
    ensures r.Some? ==> r.value.start <= USIZE_MAX && r.value.end <= USIZE_MAX
  {
    RangeOfParts(Split(Trim(entry), '-'))
  }

  /** The range named by the '-'-separated parts of a trimmed entry: there is one
      exactly when there are one or two parts and every part is a `usize`; it starts
      at the first index and ends one past the last (`i + 1` or `j + 1`, which wrap
      to 0 at `usize::MAX` in a release build). */
  function RangeOfParts(parts: seq<string>): (r: Option<Range>)
    ensures r.Some? <==> (|parts| == 1 || |parts| == 2) && forall k :: 0 <= k < |parts| ==> ParseUsize(parts[k]).Some?
    ensures r.Some? ==> r.value.start == ParseUsize(parts[0]).value
    ensures r.Some? ==> r.value.end == WrappingInc(ParseUsize(parts[|parts| - 1]).value)
    ensures r.Some? ==> r.value.start <= USIZE_MAX && r.value.end <= USIZE_MAX
  {
    if |parts| == 1 then
      match ParseUsize(parts[0])
      case Some(i) => Some(Range(i, WrappingInc(i)))
      case None => None
    else if |parts| == 2 then
      match ParseUsize(parts[0])
      case Some(i) => (
        match ParseUsize(parts[1])
        case Some(j) => Some(Range(i, WrappingInc(j)))
        case None => None)
      case None => None
    else None
  }

  /** The range of one entry as a list of zero or one elements. */
  function EntryList(entry: string): (r: seq<Range>)
    ensures |r| <= 1
  {
    match EntryRange(entry)
    case Some(rg) => [rg]
    case None => []
  }

  /** The ranges of the entries that parse, in the entries' order (`filter_map`). */
  function EntryRanges(entries: seq<string>): seq<Range>
  {
    FlatMap(entries, EntryList)
  }

  /** `parse_led_indices`: "*" selects all LEDs; anything else is a comma-separated
      list of indices `i` (giving `i..i+1`) and inclusive ranges `i-j` (giving `i..j+1`). */
  function ParseLedIndices(indices: string, totalLeds: nat): (r: seq<Range>)
    ensures indices == "*" ==> r == [Range(0, totalLeds)]
    ensures indices != "*" ==> forall k :: 0 <= k < |r| ==> r[k].start <= USIZE_MAX && r[k].end <= USIZE_MAX
  {
    if indices == "*" then [Range(0, totalLeds)]
    else
      EntryRangesBounded(Split(indices, ','));
      EntryRanges(Split(indices, ','))
  }

  lemma {:induction false} EntryRangesBounded(entries: seq<string>)
    ensures forall k :: 0 <= k < |EntryRanges(entries)| ==>
              EntryRanges(entries)[k].start <= USIZE_MAX && EntryRanges(entries)[k].end <= USIZE_MAX
    decreases |entries|
  {
    if |entries| > 0 {
      EntryRangesBounded(entries[1..]);
      assert EntryRanges(entries) == EntryList(entries[0]) + EntryRanges(entries[1..]);
    }
  }

  /** Apart from "*", the LED count plays no part: indices are never clamped to it. */
  lemma ParseIgnoresLedCount(indices: string, n: nat, m: nat)
    requires indices != "*"
    ensures ParseLedIndices(indices, n) == ParseLedIndices(indices, m)
  {
  }

  /** An entry that does not parse is dropped without affecting the others. */
  lemma BadEntryIsSkipped(before: seq<string>, bad: string, after: seq<string>)
    requires EntryRange(bad).None?
    ensures EntryRanges(before + [bad] + after) == EntryRanges(before) + EntryRanges(after)
  {
    FlatMapSkip(before, bad, after, EntryList);
  }

  lemma SingleEntry(e: string)
    ensures FlatMap([e], EntryList) == EntryList(e)
  {
    assert FlatMap([e], EntryList) == EntryList(e) + FlatMap([e][1..], EntryList);
    assert [e][1..] == [];
  }

  /** An entry with white space around its '-' is dropped: only whole entries are
      trimmed, so the index before the '-' keeps a trailing space and does not parse. */
  lemma SpacedRangeIsSkipped(entry: string, a: string, b: string)
    requires '-' !in a && '-' !in b
    requires Trim(entry) == a + " - " + b
    ensures EntryRange(entry).None?
  {
    var e := a + " - " + b;
    assert e == (a + " ") + ['-'] + (" " + b);
    PrefixSplit(a + " ", " " + b, '-');
    NoSepSplit(" " + b, '-');
    assert Split(e, '-') == [a + " ", " " + b];
    assert (a + " ")[|a|] == ' ';
  }

  /** The canonical text of a range: `i` for `i..i+1`, `i-j` for `i..j+1`. */
  function FormatRange(r: Range): string
    requires r.end >= 1
  {
    if r.end == r.start + 1 then NatToString(r.start)
    else NatToString(r.start) + "-" + NatToString(r.end - 1)
  }

  /** A range list as the configuration writes it: entries separated by ", ". */
  function FormatLedIndices(rs: seq<Range>): string
    requires forall k :: 0 <= k < |rs| ==> rs[k].end >= 1
  {
    Join(FormattedEntries(rs), ',')
  }

  /** The entries of a formatted range list: every range after the first preceded by
      a space. */
  function FormattedEntries(rs: seq<Range>): (es: seq<string>)
    requires forall k :: 0 <= k < |rs| ==> rs[k].end >= 1
    ensures |es| == |rs|
  {
    seq(|rs|, k requires 0 <= k < |rs| => (if k == 0 then "" else " ") + FormatRange(rs[k]))
  }

  /** Parsing is the inverse of formatting: every range with `usize` bounds and an end
      of at least 1 (so that its last index `end - 1` can be written) is read back
      exactly, in order. */
  lemma ParseFormatRoundTrip(rs: seq<Range>, totalLeds: nat)
    requires forall k :: 0 <= k < |rs| ==> 1 <= rs[k].end <= USIZE_MAX && rs[k].start <= USIZE_MAX
    ensures ParseLedIndices(FormatLedIndices(rs), totalLeds) == rs
  {
    var entries := FormattedEntries(rs);
    var s := FormatLedIndices(rs);
    if |rs| == 0 {
      assert s == "";
      assert Split(s, ',') == [""];
      assert EntryRange("").None? by { assert Trim("") == ""; NoSepSplit("", '-'); }
      assert EntryRanges([""]) == [] by { assert [""][1..] == []; }
    } else {
      forall k | 0 <= k < |entries| ensures ',' !in entries[k] && EntryRange(entries[k]) == Some(rs[k]) {
        EntryRoundTrip(rs[k], k != 0);
      }
      JoinSplit(entries, ',');
      assert s != "*" by {
        assert s[0] == entries[0][0];
        assert IsDigit(entries[0][0]) by { FormatRangeShape(rs[0]); }
      }
      EntryRangesOfGood(entries, rs);
    }
  }

  lemma EntryRangesOfGood(entries: seq<string>, rs: seq<Range>)
    requires |entries| == |rs|
    requires forall k :: 0 <= k < |entries| ==> EntryRange(entries[k]) == Some(rs[k])
    ensures EntryRanges(entries) == rs
  {
    forall k | 0 <= k < |entries| ensures EntryList(entries[k]) == [rs[k]] {
    }
    FlatMapSingletons(entries, rs, EntryList);
  }

  lemma FormatRangeShape(r: Range)
    requires r.end >= 1
    ensures |FormatRange(r)| > 0 && IsDigit(FormatRange(r)[0]) && IsDigit(FormatRange(r)[|FormatRange(r)| - 1])
    ensures forall k :: 0 <= k < |FormatRange(r)| ==> FormatRange(r)[k] != ','
  {
    var a := NatToString(r.start);
    if r.end != r.start + 1 {
      var b := NatToString(r.end - 1);
      assert FormatRange(r) == a + "-" + b;
      forall k | 0 <= k < |FormatRange(r)| ensures FormatRange(r)[k] != ',' {
        if k < |a| { assert FormatRange(r)[k] == a[k]; }
        else if k > |a| { assert FormatRange(r)[k] == b[k - |a| - 1]; }
      }
    }
  }

  lemma TrimDigitsBounded(t: string, lead: bool)
    requires |t| > 0 && IsDigit(t[0]) && IsDigit(t[|t| - 1])
    ensures Trim((if lead then " " else "") + t) == t
  {
    if lead {
      TrimLeadingBlank(t);
    } else {
      assert "" + t == t;
      TrimNoOp(t);
    }
  }

  /** One formatted entry, possibly after a space, parses to its range. */
  lemma EntryRoundTrip(r: Range, lead: bool)
    requires 1 <= r.end <= USIZE_MAX && r.start <= USIZE_MAX
    ensures ',' !in (if lead then " " else "") + FormatRange(r)
    ensures EntryRange((if lead then " " else "") + FormatRange(r)) == Some(r)
  {
    var t := FormatRange(r);
    var e := (if lead then " " else "") + t;
    FormatRangeShape(r);
    TrimDigitsBounded(t, lead);
    NoCommaAfterBlank(t, lead);
    TrimmedEntryParses(e, r);
  }

  lemma TrimmedEntryParses(e: string, r: Range)
    requires 1 <= r.end <= USIZE_MAX && r.start <= USIZE_MAX
    requires Trim(e) == FormatRange(r)
    ensures EntryRange(e) == Some(r)
  {
    if r.end == r.start + 1 {
      assert Trim(e) == NatToString(r.start);
      SingleEntryParses(e, r.start);
      assert WrappingInc(r.start) == r.end;
    } else {
      assert Trim(e) == NatToString(r.start) + "-" + NatToString(r.end - 1);
      PairEntryParses(e, r.start, r.end - 1);
      assert WrappingInc(r.end - 1) == r.end;
    }
  }

  lemma NoCommaAfterBlank(t: string, lead: bool)
    requires ',' !in t
    ensures ',' !in (if lead then " " else "") + t
  {
  }

  /** An entry that trims to the decimal form of a `usize` `i` is the range `i..i+1`. */
  lemma SingleEntryParses(e: string, i: nat)
    requires i <= USIZE_MAX && Trim(e) == NatToString(i)
    ensures EntryRange(e) == Some(Range(i, WrappingInc(i)))
  {
    var a := NatToString(i);
    ParseNatToString(i);
    DigitsHaveNoDash(a);
    NoSepSplit(a, '-');
  }

  /** An entry that trims to `i-j` for two `usize` values is the range `i..j+1`. */
  lemma PairEntryParses(e: string, i: nat, j: nat)
    requires i <= USIZE_MAX && j <= USIZE_MAX && Trim(e) == NatToString(i) + "-" + NatToString(j)
    ensures EntryRange(e) == Some(Range(i, WrappingInc(j)))
  {
    var a, b := NatToString(i), NatToString(j);
    ParseNatToString(i);
    ParseNatToString(j);
    DigitsHaveNoDash(a);
    DigitsHaveNoDash(b);
    assert Trim(e) == a + ['-'] + b;
    PrefixSplit(a, b, '-');
    NoSepSplit(b, '-');
    EntryOfTwoParts(Split(Trim(e), '-'), a, b, i, j);
  }

  /** An entry that trims to two numbers around one dash is the inclusive range
      between them. */
  lemma EntryOfTwoParts(parts: seq<string>, a: string, b: string, i: nat, j: nat)
    requires parts == [a] + [b]
    requires ParseUsize(a) == Some(i) && ParseUsize(b) == Some(j)
    ensures RangeOfParts(parts) == Some(Range(i, WrappingInc(j)))
  {
  }

  lemma OneIndexEntry(e: string, i: nat)
    requires i <= USIZE_MAX && e == NatToString(i)
    ensures EntryRanges([e]) == [Range(i, WrappingInc(i))]
  {
    TrimNoOp(e);
    SingleEntryParses(e, i);
    SingleEntry(e);
  }

  /** In a release build the largest index wraps: "18446744073709551615" names the
      backwards range `usize::MAX..0`, which holds no LED. */
  lemma LargestIndexWraps(e: string)
    requires Trim(e) == NatToString(USIZE_MAX)
    ensures EntryRange(e) == Some(Range(USIZE_MAX, 0))
  {
    SingleEntryParses(e, USIZE_MAX);
  }

  /** Likewise an inclusive range ending at `usize::MAX` wraps to an end of 0. */
  lemma RangeToLargestIndexWraps(e: string, i: nat)
    requires i <= USIZE_MAX && Trim(e) == NatToString(i) + "-" + NatToString(USIZE_MAX)
    ensures EntryRange(e) == Some(Range(i, 0))
  {
    PairEntryParses(e, i, USIZE_MAX);
  }

  lemma DigitsHaveNoDash(s: string)
    requires AllDigits(s)
    ensures '-' !in s
  {
  }

  /** The comment-stripping step of `parse_config`: every line is trimmed, blank lines
      and lines starting with "//" are dropped, and the rest are concatenated in order. */
  function StripComments(text: string): string
  {
    FlatMap(Lines(text), KeptLine)
  }

  /** Whether a trimmed line survives comment stripping. */
  predicate KeepLine(trimmed: string)
  {
    trimmed != [] && !StartsWithSlashes(trimmed)
  }

  /** What one line contributes: itself trimmed, or nothing. */
  function KeptLine(line: string): (r: string)
    ensures r == [] || KeepLine(r)
  {
    var t := Trim(line);
    if KeepLine(t) then t else ""
  }

  lemma TrimIsSlice(s: string) returns (i: nat, j: nat)
    ensures i <= j <= |s| && Trim(s) == s[i..j]
  {
    var a := TrimStart(s);
    var b := TrimEnd(a);
    i, j := |s| - |a|, |s| - |a| + |b|;
    assert b == a[..|b|];
  }

  /** The stripped text holds no line break: the lines are run together. */
  lemma StripCommentsSingleLine(text: string)
    ensures '\n' !in StripComments(text)
  {
    var lines := Lines(text);
    forall k | 0 <= k < |lines| ensures '\n' !in KeptLine(lines[k]) {
      var i, j := TrimIsSlice(lines[k]);
      assert forall c :: c in lines[k][i..j] ==> c in lines[k];
    }
    FlatMapAvoids(lines, KeptLine, '\n');
  }

  /** Stripping distributes over the lines: a text made of two groups of whole lines
      strips to the two stripped groups, one after the other. */
  lemma StripCommentsAppend(xs: string, ys: string)
    requires xs == [] || xs[|xs| - 1] == '\n'
    ensures StripComments(xs + ys) == StripComments(xs) + StripComments(ys)
  {
    LinesAppend(xs, ys);
    FlatMapAppend(Lines(xs), Lines(ys), KeptLine);
  }

  /** A text of only blank and comment lines strips to nothing. */
  lemma AllCommentsStripToNothing(text: string)
    requires forall k :: 0 <= k < |Lines(text)| ==> !KeepLine(Trim(Lines(text)[k]))
    ensures StripComments(text) == ""
  {
    FlatMapAllEmpty(Lines(text), KeptLine);
  }

  /** First case of the unit test of `parse_led_indices`: indices and ranges in the
      order written, and "20-24" kept although only 10 LEDs exist. (The second case,
      "*", is the first postcondition of `ParseLedIndices`.) */
  lemma ParseLedIndicesMixedList(s: string)
    requires s == "3, 4-8, 0, 20-24"
    ensures ParseLedIndices(s, 10) == [Range(3, 4), Range(4, 9), Range(0, 1), Range(20, 25)]
  {
    var rs := [Range(3, 4), Range(4, 9), Range(0, 1), Range(20, 25)];
    var es := ["3", " 4-8", " 0", " 20-24"];
    MixedListEntries(rs, es);
    MixedListJoin(es, s);
    ParseFormatRoundTrip(rs, 10);
  }

  lemma MixedListEntries(rs: seq<Range>, es: seq<string>)
    requires rs == [Range(3, 4), Range(4, 9), Range(0, 1), Range(20, 25)]
    requires es == ["3", " 4-8", " 0", " 20-24"]
    ensures FormattedEntries(rs) == es
  {
    assert NatToString(20) == "20" && NatToString(24) == "24";
    assert NatToString(3) == "3" && NatToString(4) == "4" && NatToString(8) == "8" && NatToString(0) == "0";
    assert FormatRange(rs[1]) == "4" + "-" + "8" == "4-8";
    assert FormatRange(rs[3]) == "20" + "-" + "24" == "20-24";
    var fs := FormattedEntries(rs);
    assert fs[0] == "" + FormatRange(rs[0]) == es[0];
    assert fs[1] == " " + FormatRange(rs[1]) == es[1];
    assert fs[2] == " " + FormatRange(rs[2]) == es[2];
    assert fs[3] == " " + FormatRange(rs[3]) == es[3];
  }

  lemma MixedListJoin(es: seq<string>, s: string)
    requires es == ["3", " 4-8", " 0", " 20-24"]
    requires s == "3, 4-8, 0, 20-24"
    ensures Join(es, ',') == s
  {
    assert Join(es[3..], ',') == " 20-24";
    assert Join(es[2..], ',') == " 0, 20-24" by { assert es[2..][1..] == es[3..]; }
    assert Join(es[1..], ',') == " 4-8, 0, 20-24" by { assert es[1..][1..] == es[2..]; }
    assert Join(es, ',') == "3" + [','] + " 4-8, 0, 20-24";
  }

  /** Third case of the unit test: spaces around the '-' make the entry unparsable,
      so "0, 1 - 5" yields only the index 0. */
  lemma ParseLedIndicesSpacedRange(first: string, bad: string)
    requires first == "0" && bad == " 1 - 5"
    ensures ParseLedIndices(first + [','] + bad, 10) == [Range(0, 1)]
  {
    SpacedEntry(bad);
    IndexThenBadEntry(first + [','] + bad, first, 0, bad, 10);
  }

  lemma SpacedEntry(e: string)
    requires e == " 1 - 5"
    ensures EntryRange(e).None? && ',' !in e
  {
    TrimLeadingBlank("1 - 5");
    SpacedRangeIsSkipped(e, "1", "5");
  }

  /** An index followed by one entry that does not parse yields the index alone. */
  lemma IndexThenBadEntry(s: string, first: string, i: nat, bad: string, n: nat)
    requires i <= USIZE_MAX && first == NatToString(i)
    requires ',' !in bad && EntryRange(bad).None?
    requires s == first + [','] + bad
    ensures ParseLedIndices(s, n) == [Range(i, WrappingInc(i))]
  {
    assert Split(s, ',') == [first, bad] by {
      assert ',' !in first;
      NoSepSplit(bad, ',');
      PrefixSplit(first, bad, ',');
    }
    assert EntryRanges([first, bad]) == [Range(i, WrappingInc(i))] by {
      assert [first] + [bad] + [] == [first, bad];
      BadEntryIsSkipped([first], bad, []);
      OneIndexEntry(first, i);
      assert EntryRanges([]) == [];
    }
    assert s != "*" by { assert |s| >= 2; }
  }

  /** Fourth case of the unit test: a part that is not a number drops the entry. */
  lemma ParseLedIndicesNotANumber(u: string)
    requires u == "1-A"
    ensures ParseLedIndices(u, 10) == []
  {
    assert Split(u, ',') == [u] by { NoSepSplit(u, ','); }
    assert EntryRange(u).None? by {
      assert Trim(u) == u by { TrimNoOp(u); }
      assert Split(u, '-') == ["1", "A"] by {
        assert u == "1" + ['-'] + "A";
        PrefixSplit("1", "A", '-');
        NoSepSplit("A", '-');
      }
      assert ParseUsize("A").None?;
    }
    SingleEntry(u);
  }
}
