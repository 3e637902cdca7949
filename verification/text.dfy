/** The pieces of Rust's `str` API that the configuration code relies on:
    `split`, `trim`, `lines`, `starts_with` and `parse::<usize>`, plus the decimal
    formatting that is their inverse. */
module Text {
  import opened Prelude

  /** Rust's `char::is_whitespace`: the Unicode White_Space property. */
  predicate IsWhitespace(c: char)
  {
    var n := c as int;
    (9 <= n <= 13) || n == 32 || n == 0x85 || n == 0xA0 || n == 0x1680
    || (0x2000 <= n <= 0x200A) || n == 0x2028 || n == 0x2029 || n == 0x202F
    || n == 0x205F || n == 0x3000
  }

  predicate IsDigit(c: char)
  {
    '0' <= c <= '9'
  }

  predicate AllDigits(s: string)
  {
    forall i :: 0 <= i < |s| ==> IsDigit(s[i])
  }

  /** Every character is white space. */
  predicate Blank(s: string)
  {
    forall k :: 0 <= k < |s| ==> IsWhitespace(s[k])
  }

  /** `str::trim_start`. */
  function TrimStart(s: string): (r: string)
    ensures |r| <= |s| && r == s[|s| - |r|..]
    ensures r == [] || !IsWhitespace(r[0])
    decreases |s|
  {
    if |s| > 0 && IsWhitespace(s[0]) then TrimStart(s[1..]) else s
  }

  /** `trim_start` removes only white space. */
  lemma {:induction false} TrimStartRemovesBlanks(s: string)
    ensures Blank(s[..|s| - |TrimStart(s)|])
    decreases |s|
  {
    if |s| > 0 && IsWhitespace(s[0]) {
      TrimStartRemovesBlanks(s[1..]);
      var m := |s| - |TrimStart(s)|;
      forall k | 0 <= k < m ensures IsWhitespace(s[..m][k]) {
        if k > 0 { assert s[..m][k] == s[1..][..m - 1][k - 1]; }
      }
    }
  }

  /** `str::trim_end`. */
  function TrimEnd(s: string): (r: string)
    ensures |r| <= |s| && r == s[..|r|]
    ensures r == [] || !IsWhitespace(r[|r| - 1])
    decreases |s|
  {
    if |s| > 0 && IsWhitespace(s[|s| - 1]) then TrimEnd(s[..|s| - 1]) else s
  }

  /** `trim_end` removes only white space. */
  lemma {:induction false} TrimEndRemovesBlanks(s: string)
    ensures Blank(s[|TrimEnd(s)|..])
    decreases |s|
  {
    if |s| > 0 && IsWhitespace(s[|s| - 1]) {
      TrimEndRemovesBlanks(s[..|s| - 1]);
      var m := |TrimEnd(s)|;
      forall k | m <= k < |s| ensures IsWhitespace(s[k]) {
        if k < |s| - 1 { assert s[k] == s[..|s| - 1][m..][k - m]; }
      }
    }
  }

  /** Trimming leaves a string alone when its ends are not white space. */
  lemma TrimNoOp(t: string)
    requires |t| > 0 && !IsWhitespace(t[0]) && !IsWhitespace(t[|t| - 1])
    ensures Trim(t) == t
  {
    assert TrimStart(t) == t;
  }

  /** A leading blank is trimmed away. */
  lemma TrimLeadingBlank(t: string)
    requires |t| > 0 && !IsWhitespace(t[0]) && !IsWhitespace(t[|t| - 1])
    ensures Trim(" " + t) == t
  {
    assert (" " + t)[1..] == t;
    assert TrimStart(" " + t) == TrimStart(t) == t;
  }

  /** `str::trim`: strips white space from both ends and nowhere else. */
  function Trim(s: string): (r: string)
    ensures |r| <= |s|
    ensures r == [] || (!IsWhitespace(r[0]) && !IsWhitespace(r[|r| - 1]))
    ensures TrimmedFrom(s, r, |s| - |TrimStart(s)|)
  {
    var t := TrimStart(s);
    var r := TrimEnd(t);
    TrimStartRemovesBlanks(s);
    TrimEndRemovesBlanks(t);
    InnerSlice(s, t, r);
    r
  }

  /** `r` is the slice of `s` starting at `a`, and everything around it is white
      space. */
  predicate TrimmedFrom(s: string, r: string, a: nat)
  {
    a + |r| <= |s| && r == s[a..a + |r|] && Blank(s[..a]) && Blank(s[a + |r|..])
  }

  /** A tail `t` of `s` after a blank prefix, and a head `r` of `t` before a blank
      suffix, is a slice of `s` with blanks on both sides. */
  lemma InnerSlice(s: string, t: string, r: string)
    requires |t| <= |s| && t == s[|s| - |t|..] && Blank(s[..|s| - |t|])
    requires |r| <= |t| && r == t[..|r|] && Blank(t[|r|..])
    ensures TrimmedFrom(s, r, |s| - |t|)
  {
    var a := |s| - |t|;
    forall k | 0 <= k < |r| ensures r[k] == s[a..a + |r|][k] {
      assert r[k] == t[k] == s[a + k];
    }
    assert t[|r|..] == s[a + |r|..];
  }

  /** `str::split(sep)` on a single character, collected: the pieces between the
      separators, including empty ones; never an empty list. */
  function Split(s: string, sep: char): (r: seq<string>)
    ensures |r| >= 1
    decreases |s|
  {
    if |s| == 0 then [""]
    else
      var rest := Split(s[1..], sep);
      if s[0] == sep then [""] + rest
      else [[s[0]] + rest[0]] + rest[1..]
  }

  /** The inverse of `Split`: the pieces with `sep` between consecutive ones. */
  function Join(ps: seq<string>, sep: char): string
  {
    if |ps| == 0 then ""
    else if |ps| == 1 then ps[0]
    else ps[0] + [sep] + Join(ps[1..], sep)
  }

  /** No piece of a split contains the separator, and joining the pieces back gives
      the original string. */
  lemma {:induction false} SplitJoin(s: string, sep: char)
    ensures Join(Split(s, sep), sep) == s
    ensures forall k :: 0 <= k < |Split(s, sep)| ==> sep !in Split(s, sep)[k]
    decreases |s|
  {
    if |s| > 0 {
      var rest := Split(s[1..], sep);
      SplitJoin(s[1..], sep);
      if s[0] == sep {
        assert Split(s, sep) == [""] + rest;
        if |rest| == 1 {
          assert Join([""] + rest, sep) == "" + [sep] + rest[0];
        } else {
          assert ([""] + rest)[1..] == rest;
        }
        assert s == [s[0]] + s[1..];
      } else {
        var r := Split(s, sep);
        assert r == [[s[0]] + rest[0]] + rest[1..];
        if |rest| == 1 {
          assert Join(r, sep) == [s[0]] + rest[0];
        } else {
          assert r[1..] == rest[1..];
          assert Join(rest, sep) == rest[0] + [sep] + Join(rest[1..], sep);
        }
        assert s == [s[0]] + s[1..];
        forall k | 0 <= k < |r| ensures sep !in r[k] {
          if k > 0 { assert r[k] == rest[k]; }
        }
      }
    }
  }

  /** Splitting a join of separator-free pieces gives the pieces back. */
  lemma {:induction false} JoinSplit(ps: seq<string>, sep: char)
    requires |ps| >= 1
    requires forall k :: 0 <= k < |ps| ==> sep !in ps[k]
    ensures Split(Join(ps, sep), sep) == ps
    decreases |ps|
  {
    if |ps| == 1 {
      NoSepSplit(ps[0], sep);
    } else {
      JoinSplit(ps[1..], sep);
      PrefixSplit(ps[0], Join(ps[1..], sep), sep);
      assert [ps[0]] + ps[1..] == ps;
    }
  }

  /** A string without the separator splits into itself alone. */
  lemma {:induction false} NoSepSplit(s: string, sep: char)
    requires sep !in s
    ensures Split(s, sep) == [s]
    decreases |s|
  {
    if |s| > 0 {
      NoSepSplit(s[1..], sep);
      assert [s[0]] + s[1..] == s;
    }
  }

  /** Splitting `a + [sep] + b` where `a` is separator-free: `a`, then the pieces of `b`. */
  lemma {:induction false} PrefixSplit(a: string, b: string, sep: char)
    requires sep !in a
    ensures Split(a + [sep] + b, sep) == [a] + Split(b, sep)
    decreases |a|
  {
    if |a| == 0 {
      assert a + [sep] + b == [sep] + b;
      assert ([sep] + b)[1..] == b;
    } else {
      PrefixSplit(a[1..], b, sep);
      var s := a + [sep] + b;
      assert s[0] == a[0] && s[1..] == a[1..] + [sep] + b;
      assert [a[0]] + a[1..] == a;
    }
  }

  /** `str::starts_with("//")`. */
  predicate StartsWithSlashes(s: string)
  {
    |s| >= 2 && s[0] == '/' && s[1] == '/'
  }

  /** Drops one trailing carriage return, as `str::lines` does for "\r\n" endings. */
  function StripCr(l: string): (r: string)
    ensures r == l || (|l| > 0 && l[|l| - 1] == '\r' && r == l[..|l| - 1])
  {
    if |l| > 0 && l[|l| - 1] == '\r' then l[..|l| - 1] else l
  }

  /** `str::lines`: the text split at '\n', without the empty piece after a final
      newline (so the empty string has no lines), with "\r\n" endings stripped. */
  function Lines(s: string): (r: seq<string>)
    ensures forall k :: 0 <= k < |r| ==> '\n' !in r[k]
  {
    var ps := Split(s, '\n');
    SplitJoin(s, '\n');
    StripCrEach(DropFinalEmpty(ps))
  }

  /** A list of pieces without its last one when that one is empty. */
  function DropFinalEmpty(ps: seq<string>): (r: seq<string>)
    ensures r == ps || (|ps| > 0 && ps[|ps| - 1] == "" && r == ps[..|ps| - 1])
  {
    if |ps| > 0 && ps[|ps| - 1] == "" then ps[..|ps| - 1] else ps
  }

  /** `StripCr` applied to every line. */
  function StripCrEach(ls: seq<string>): (r: seq<string>)
    ensures |r| == |ls| && forall k :: 0 <= k < |ls| ==> r[k] == StripCr(ls[k])
  {
    seq(|ls|, k requires 0 <= k < |ls| => StripCr(ls[k]))
  }

  lemma StripCrEachAppend(xs: seq<string>, ys: seq<string>)
    ensures StripCrEach(xs + ys) == StripCrEach(xs) + StripCrEach(ys)
  {
    var l, r := StripCrEach(xs + ys), StripCrEach(xs) + StripCrEach(ys);
    forall k | 0 <= k < |l| ensures l[k] == r[k] {
      if k < |xs| { assert (xs + ys)[k] == xs[k]; } else { assert (xs + ys)[k] == ys[k - |xs|]; }
    }
  }

  /** Only the last piece of a list can be dropped, so a non-empty tail shields the
      pieces before it. */
  lemma DropFinalEmptyAppend(xs: seq<string>, ys: seq<string>)
    requires |ys| > 0
    ensures DropFinalEmpty(xs + ys) == xs + DropFinalEmpty(ys)
  {
    var s := xs + ys;
    assert s[|s| - 1] == ys[|ys| - 1];
    if ys[|ys| - 1] == "" {
      assert s[..|s| - 1] == xs + ys[..|ys| - 1];
    }
  }

  /** Splitting at a separator splits both sides independently. */
  lemma SplitConcat(p: string, q: string, sep: char)
    ensures Split(p + [sep] + q, sep) == Split(p, sep) + Split(q, sep)
  {
    var a, b := Split(p, sep), Split(q, sep);
    SplitJoin(p, sep);
    SplitJoin(q, sep);
    JoinAppend(a, b, sep);
    SeparatorFreeAppend(a, b, sep);
    JoinSplit(a + b, sep);
  }

  lemma SeparatorFreeAppend(a: seq<string>, b: seq<string>, sep: char)
    requires forall k :: 0 <= k < |a| ==> sep !in a[k]
    requires forall k :: 0 <= k < |b| ==> sep !in b[k]
    ensures forall k :: 0 <= k < |a + b| ==> sep !in (a + b)[k]
  {
    forall k | 0 <= k < |a + b| ensures sep !in (a + b)[k] {
      if k < |a| { assert (a + b)[k] == a[k]; } else { assert (a + b)[k] == b[k - |a|]; }
    }
  }

  /** Joining two non-empty lists of pieces puts one separator between their joins. */
  lemma {:induction false} JoinAppend(a: seq<string>, b: seq<string>, sep: char)
    requires |a| >= 1 && |b| >= 1
    ensures Join(a + b, sep) == Join(a, sep) + [sep] + Join(b, sep)
    decreases |a|
  {
    if |a| == 1 {
      assert (a + b)[0] == a[0] && (a + b)[1..] == b;
    } else {
      JoinAppend(a[1..], b, sep);
      assert (a + b)[0] == a[0] && (a + b)[1..] == a[1..] + b;
    }
  }

  /** The lines of a text that ends in a line break, followed by more text, are the
      lines of the first part followed by those of the second. */
  lemma LinesAppend(xs: string, ys: string)
    requires xs == [] || xs[|xs| - 1] == '\n'
    ensures Lines(xs + ys) == Lines(xs) + Lines(ys)
  {
    if xs == [] {
      assert xs + ys == ys;
    } else {
      var a := xs[..|xs| - 1];
      assert xs == a + ['\n'] + "";
      assert xs + ys == a + ['\n'] + ys;
      SplitConcat(a, "", '\n');
      SplitConcat(a, ys, '\n');
      var pa := Split(a, '\n');
      DropFinalEmptyAppend(pa, [""]);
      assert pa + [""] == pa + DropFinalEmpty([""]) + [""];
      DropFinalEmptyAppend(pa, Split(ys, '\n'));
      StripCrEachAppend(pa, DropFinalEmpty(Split(ys, '\n')));
    }
  }

  /** The numeric value of a string of decimal digits. */
  function DigitsValue(s: string): nat
    requires AllDigits(s)
  {
    if |s| == 0 then 0
    else DigitsValue(s[..|s| - 1]) * 10 + (s[|s| - 1] as int - '0' as int)
  }

  /** `str::parse::<usize>`: an optional '+', then at least one ASCII digit and nothing
      else, with a value that fits in a `usize`. */
  function ParseUsize(s: string): (r: Option<nat>)
    ensures r.Some? ==> r.value <= USIZE_MAX
    ensures r.Some? ==> |s| > 0 && (s[0] == '+' || IsDigit(s[0])) && forall k :: 0 < k < |s| ==> IsDigit(s[k])
    ensures r.Some? && IsDigit(s[0]) ==> r.value == DigitsValue(s)
    ensures r.Some? && s[0] == '+' ==> |s| > 1 && r.value == DigitsValue(s[1..])
    ensures |s| > 0 && AllDigits(s) && DigitsValue(s) <= USIZE_MAX ==> r == Some(DigitsValue(s))
    ensures |s| > 1 && s[0] == '+' && AllDigits(s[1..]) && DigitsValue(s[1..]) <= USIZE_MAX ==> r == Some(DigitsValue(s[1..]))
  {
    var digits := if |s| > 0 && s[0] == '+' then s[1..] else s;
    if |digits| > 0 && AllDigits(digits) && DigitsValue(digits) <= USIZE_MAX
    then
      assert forall k :: 0 < k < |s| ==> IsDigit(s[k]) by {
        forall k | 0 < k < |s| ensures IsDigit(s[k]) {
          if s[0] == '+' { assert s[k] == digits[k - 1]; } else { assert s[k] == digits[k]; }
        }
      }
      Some(DigitsValue(digits))
    else None
  }

  function DigitChar(d: nat): (c: char)
    requires d < 10
    ensures IsDigit(c) && c as int - '0' as int == d
  {
    ('0' as int + d) as char
  }

  /** Decimal notation of a natural number, without leading zeros. */
  function NatToString(n: nat): (s: string)
    ensures |s| > 0 && AllDigits(s)
  {
    if n < 10 then [DigitChar(n)] else NatToString(n / 10) + [DigitChar(n % 10)]
  }

  /** Decimal formatting and parsing are inverse to each other. */
  lemma {:induction false} NatToStringValue(n: nat)
    ensures DigitsValue(NatToString(n)) == n
  {
    if n >= 10 {
      NatToStringValue(n / 10);
      var s := NatToString(n);
      assert s[..|s| - 1] == NatToString(n / 10);
    }
  }

  lemma ParseNatToString(n: nat)
    requires n <= USIZE_MAX
    ensures ParseUsize(NatToString(n)) == Some(n)
  {
    NatToStringValue(n);
  }
}
