/** The colour model (src/color.rs): 8-bit RGB pixels, HSV pixels over reals, the
    conversions between them, the per-channel RGB correction, the HSV gain, the raw
    byte view handed to the serial port, and the two smoothing policies. `f32`
    arithmetic is modelled by exact reals and every `as u8` by `ToU8`. */
module Colors {
  import opened Prelude
  import opened Config

  /** Bytes per pixel on the wire: LEDstream expects r, g, b. */
  const RGB_SIZE: nat := 3

  /** A pixel with 8 bits per colour. */
  datatype Rgb8 = Rgb8(r: u8, g: u8, b: u8)

  /** A pixel in the HSV format: hue in [0, 1) as a fraction of the colour wheel,
      saturation and value in [0, 1]. */
  datatype Hsv = Hsv(hue: real, saturation: real, value: real)

  /** A pixel of either format. */
  datatype Color = RGB(rgb: Rgb8) | HSV(hsv: Hsv)
  {
    /** `Color::into_rgb`: an RGB pixel as it is, an HSV pixel converted. */
    function IntoRgb(): (c: Rgb8)
      ensures RGB? ==> c == rgb
      ensures HSV? ==> c == ToRgb(hsv)
    {
      match this
      case HSV(h) => ToRgb(h)
      case RGB(c) => c
    }

    /** `Color::into_hsv`: an HSV pixel as it is, an RGB pixel converted. */
    function IntoHsv(): (h: Hsv)
      ensures HSV? ==> h == hsv
      ensures RGB? ==> h == ToHsv(rgb)
    {
      match this
      case RGB(c) => ToHsv(c)
      case HSV(h) => h
    }
  }

  /** The integer part of a real, rounded toward zero. */
  function Trunc(x: real): (n: int)
    ensures x >= 0.0 ==> n == x.Floor
    ensures x < 0.0 ==> n == -((-x).Floor)
  {
    if x >= 0.0 then x.Floor else -((-x).Floor)
  }

  /** Rust's `%` on floats: the remainder of the division truncated toward zero, with
      the sign of the dividend. */
  function FRem(l: real, r: real): real
    requires r != 0.0
  {
    l - r * Trunc(l / r) as real
  }

  /** `modulo`: a remainder that is never negative. It differs from `l` by a whole
      multiple of `r` and lies in [0, r]; it reaches `r` only when `l` is a negative
      multiple of `r`. */
  function Modulo(l: real, r: real): (m: real)
    requires r > 0.0
    ensures 0.0 <= m <= r
    ensures m == r ==> l < 0.0
    ensures 0.0 <= l < r ==> m == l
    ensures -r < l < 0.0 ==> m == l + r
  {
    FRemBounds(l, r);
    if l >= 0.0 then FRem(l, r) else r + FRem(l, r)
  }

  /** The remainder has the sign of the dividend, is smaller than the divisor in
      magnitude, and is the dividend itself when that is already smaller. */
  lemma FRemBounds(l: real, r: real)
    requires r > 0.0
    ensures l >= 0.0 ==> 0.0 <= FRem(l, r) < r
    ensures l < 0.0 ==> -r < FRem(l, r) <= 0.0
    ensures -r < l < r ==> FRem(l, r) == l
  {
    var f := FRemFraction(l, r);
    if l >= 0.0 {
      FRemOfNonNegative(l, r, f);
    } else {
      FRemOfNegative(l, r, f);
    }
  }

  /** The remainder is the divisor times the fractional part of the quotient. */
  lemma FRemFraction(l: real, r: real) returns (f: real)
    requires r > 0.0
    ensures f == l / r - Trunc(l / r) as real
    ensures FRem(l, r) == r * f
  {
    f := l / r - Trunc(l / r) as real;
    Distribute(l, r, Trunc(l / r) as real);
  }

  lemma FRemOfNonNegative(l: real, r: real, f: real)
    requires r > 0.0 && l >= 0.0
    requires f == l / r - Trunc(l / r) as real && FRem(l, r) == r * f
    ensures 0.0 <= FRem(l, r) < r
    ensures l < r ==> FRem(l, r) == l
  {
    assert 0.0 <= f < 1.0;
    MulBounds(r, f);
    if l < r {
      QuotientBelowOne(l, r);
    }
  }

  lemma FRemOfNegative(l: real, r: real, f: real)
    requires r > 0.0 && l < 0.0
    requires f == l / r - Trunc(l / r) as real && FRem(l, r) == r * f
    ensures -r < FRem(l, r) <= 0.0
    ensures -r < l ==> FRem(l, r) == l
  {
    var q := l / r;
    NegativeQuotient(l, r);
    assert -1.0 < f <= 0.0;
    MulBoundsNegative(r, f);
    if -r < l {
      assert Trunc(q) == 0;
    }
  }

  lemma NegativeQuotient(l: real, r: real)
    requires r > 0.0 && l < 0.0
    ensures l / r < 0.0
    ensures -r < l ==> -1.0 < l / r
  {
    var q := l / r;
    assert r * q == l;
    assert r * (q + 1.0) == l + r;
    if q >= 0.0 {
      MulNonNegative(r, q);
    }
    if q + 1.0 <= 0.0 {
      MulNonNegative(r, -(q + 1.0));
    }
  }

  lemma MulNonNegative(a: real, b: real)
    requires a >= 0.0 && b >= 0.0
    ensures a * b >= 0.0
  {
  }

  lemma MulBoundsNegative(r: real, f: real)
    requires r > 0.0 && -1.0 < f <= 0.0
    ensures -r < r * f <= 0.0
  {
  }

  lemma Distribute(l: real, r: real, k: real)
    requires r > 0.0
    ensures l - r * k == r * (l / r - k)
  {
  }

  lemma QuotientBelowOne(l: real, r: real)
    requires 0.0 <= l < r
    ensures 0.0 <= l / r < 1.0
  {
  }

  lemma MulBounds(r: real, f: real)
    requires r > 0.0 && 0.0 <= f < 1.0
    ensures 0.0 <= r * f < r
  {
  }

  /** A quotient of a part by its whole lies in [0, 1], and multiplying back gives
      the part. */
  lemma Ratio(a: real, b: real)
    requires 0.0 <= a <= b && b > 0.0
    ensures 0.0 <= a / b <= 1.0 && a / b * b == a
  {
  }

  /** The share `part / whole` of a positive whole. */
  function Fraction(part: real, whole: real): (x: real)
    requires 0.0 <= part <= whole && whole > 0.0
    ensures 0.0 <= x <= 1.0 && Scaled(x, whole) == part
  {
    Ratio(part, whole);
    part / whole
  }

  /** Whole multiples: `Modulo(l, r)` is `l` shifted by an integer number of `r`. */
  lemma ModuloShift(l: real, r: real) returns (k: int)
    requires r > 0.0
    ensures Modulo(l, r) == l + k as real * r
  {
    if l >= 0.0 {
      k := -Trunc(l / r);
    } else {
      k := 1 - Trunc(l / r);
    }
  }

  function Max3(c: Rgb8): (m: u8)
    ensures m >= c.r && m >= c.g && m >= c.b
    ensures m == c.r || m == c.g || m == c.b
  {
    if c.r >= c.g && c.r >= c.b then c.r else if c.g >= c.b then c.g else c.b
  }

  function Min3(c: Rgb8): (m: u8)
    ensures m <= c.r && m <= c.g && m <= c.b
    ensures m == c.r || m == c.g || m == c.b
  {
    if c.r <= c.g && c.r <= c.b then c.r else if c.g <= c.b then c.g else c.b
  }

  /** The position on the colour wheel, in sixths, before the division by 6: measured
      from red when red is the brightest channel, from green (at 2) when green is, and
      from blue (at 4) otherwise, by the difference of the two other channels relative
      to the chroma. */
  function HueSixths(c: Rgb8): (hp: real)
    ensures 0.0 <= hp < 6.0
    ensures Max3(c) == Min3(c) ==> hp == 0.0
  {
    var mx, mn := Max3(c), Min3(c);
    var chroma := mx - mn;
    if chroma == 0 then 0.0
    else if mx == c.r then
      var x := Offset(c.g as real - c.b as real, chroma as real);
      RedHue(x);
      Modulo(x, 6.0)
    else if mx == c.g then
      Offset(c.b as real - c.r as real, chroma as real) + 2.0
    else
      Offset(c.r as real - c.g as real, chroma as real) + 4.0
  }

  /** The difference of the two weaker channels relative to the chroma: at most one
      sixth of the wheel either way. */
  function Offset(d: real, chroma: real): (x: real)
    requires chroma > 0.0 && -chroma <= d <= chroma
    ensures -1.0 <= x <= 1.0 && x * chroma == d
  {
    SixthBounds(d, chroma);
    d / chroma
  }

  /** The hue position times the chroma is the difference of the two weaker
      channels, measured from red (0, or 6 after wrapping), green (2) or blue (4),
      whichever is the brightest. */
  lemma HueSixthsShape(c: Rgb8)
    requires Max3(c) > Min3(c)
    ensures HueShape(c, HueSixths(c))
  {
    if Max3(c) == c.r {
      RedHueShape(c);
    } else if Max3(c) == c.g {
      GreenHueShape(c);
    } else {
      BlueHueShape(c);
    }
  }

  lemma RedHueShape(c: Rgb8)
    requires Max3(c) > Min3(c) && Max3(c) == c.r
    ensures var hp, ch := HueSixths(c), (Max3(c) - Min3(c)) as real;
            || (hp <= 1.0 && hp * ch == c.g as real - c.b as real)
            || (5.0 <= hp && (hp - 6.0) * ch == c.g as real - c.b as real)
  {
  }

  lemma GreenHueShape(c: Rgb8)
    requires Max3(c) > Min3(c) && Max3(c) == c.g && Max3(c) != c.r
    ensures var hp, ch := HueSixths(c), (Max3(c) - Min3(c)) as real;
            1.0 <= hp <= 3.0 && (hp - 2.0) * ch == c.b as real - c.r as real
  {
  }

  lemma BlueHueShape(c: Rgb8)
    requires Max3(c) > Min3(c) && Max3(c) != c.r && Max3(c) != c.g
    ensures var hp, ch := HueSixths(c), (Max3(c) - Min3(c)) as real;
            3.0 <= hp <= 5.0 && (hp - 4.0) * ch == c.r as real - c.g as real
  {
  }

  /** `hp` times the chroma is the difference of the two weaker channels, measured
      from red (0, or 6 after wrapping), green (2) or blue (4), whichever is the
      brightest. */
  predicate HueShape(c: Rgb8, hp: real)
  {
    var ch := (Max3(c) - Min3(c)) as real;
    && (Max3(c) == c.r ==>
          || (hp <= 1.0 && hp * ch == c.g as real - c.b as real)
          || (5.0 <= hp && (hp - 6.0) * ch == c.g as real - c.b as real))
    && (Max3(c) != c.r && Max3(c) == c.g ==>
          1.0 <= hp <= 3.0 && (hp - 2.0) * ch == c.b as real - c.r as real)
    && (Max3(c) != c.r && Max3(c) != c.g ==>
          3.0 <= hp <= 5.0 && (hp - 4.0) * ch == c.r as real - c.g as real)
  }

  lemma SixthOfTurn(hp: real)
    requires 0.0 <= hp < 6.0
    ensures 0.0 <= 1.0 / 6.0 * hp < 1.0 && 1.0 / 6.0 * hp * 6.0 == hp
  {
  }

  /** Around red the hue wraps: a negative offset lands just below a full turn. */
  lemma RedHue(x: real)
    requires -1.0 <= x <= 1.0
    ensures x >= 0.0 ==> Modulo(x, 6.0) == x
    ensures x < 0.0 ==> Modulo(x, 6.0) == x + 6.0
  {
  }

  lemma SixthBounds(d: real, chroma: real)
    requires chroma > 0.0 && -chroma <= d <= chroma
    ensures -1.0 <= d / chroma <= 1.0
    ensures d / chroma * chroma == d
  {
  }

  /** `Rgb8::to_hsv`. Grey (zero chroma) has hue 0, black has saturation 0, the value
      is the largest channel scaled to [0, 1], and the saturation is the chroma
      relative to it. Every component lies in its range. */
  function ToHsv(c: Rgb8): (h: Hsv)
    ensures 0.0 <= h.hue < 1.0
    ensures 0.0 <= h.saturation <= 1.0
    ensures 0.0 <= h.value <= 1.0
    ensures Max3(c) == Min3(c) ==> h.hue == 0.0
    ensures Max3(c) == 0 ==> h.saturation == 0.0
    ensures Max3(c) > 0 ==> Scaled(h.saturation, Max3(c) as real) == (Max3(c) - Min3(c)) as real
    ensures h.value * 255.0 == Max3(c) as real
    ensures h.hue * 6.0 == HueSixths(c)
  {
    var mx, mn := Max3(c), Min3(c);
    var hp := HueSixths(c);
    SixthOfTurn(hp);
    Hsv(1.0 / 6.0 * hp, Saturation(mx, mn), mx as real / 255.0)
  }

  /** The saturation of a pixel with largest channel `mx` and smallest `mn`: the
      chroma relative to `mx`, or 0 for black. */
  function Saturation(mx: u8, mn: u8): (s: real)
    requires mn <= mx
    ensures 0.0 <= s <= 1.0
    ensures mx == 0 ==> s == 0.0
    ensures mx > 0 ==> Scaled(s, mx as real) == (mx - mn) as real
  {
    if mx == 0 then 0.0 else Fraction((mx - mn) as real, mx as real)
  }

  /** `HSV::to_rgb`. Zero saturation gives a grey; otherwise the sector of the hue picks
      which channel is the full value, which the minimum and which the rising or
      falling one, with every sector from 5 on taking the last arm. For a pixel in
      range the full value is the brightest channel. */
  function ToRgb(h: Hsv): (c: Rgb8)
    ensures h.saturation == 0.0 ==> c.r == c.g == c.b == ToU8(h.value * 255.0)
    ensures h.saturation != 0.0 ==> ToU8(h.value * 255.0) in {c.r, c.g, c.b}
    ensures h.saturation != 0.0 && ToU8(h.hue * 6.0) >= 5 ==> c.r == ToU8(h.value * 255.0)
    ensures 0.0 <= h.hue < 1.0 && 0.0 <= h.saturation <= 1.0 && 0.0 <= h.value ==>
              Max3(c) == ToU8(h.value * 255.0)
  {
    if h.saturation == 0.0 then
      var v := ToU8(h.value * 255.0);
      Rgb8(v, v, v)
    else
      var sectorF := h.hue * 6.0;
      var sector := ToU8(sectorF);
      var frac := sectorF - sector as real;
      var val := h.value * 255.0;
      var p := ToU8(Scaled(val, 1.0 - h.saturation));
      var q := ToU8(Scaled(val, 1.0 - Scaled(h.saturation, frac)));
      var t := ToU8(Scaled(val, 1.0 - Scaled(h.saturation, 1.0 - frac)));
      if 0.0 <= h.hue < 1.0 && 0.0 <= h.saturation <= 1.0 && 0.0 <= h.value then
        FracInRange(sectorF);
        ArmsBelowValue(val, h.saturation, frac);
        SectorColor(sector, ToU8(val), p, q, t)
      else
        SectorColor(sector, ToU8(val), p, q, t)
  }

  /** The arm of `to_rgb` for one sector of the hue: `v` is the full value, `p` the
      minimum, `q` the falling and `t` the rising channel. */
  function SectorColor(sector: u8, v: u8, p: u8, q: u8, t: u8): (c: Rgb8)
    ensures v in {c.r, c.g, c.b}
    ensures p <= v && q <= v && t <= v ==> Max3(c) == v
    ensures sector >= 5 ==> c == Rgb8(v, p, q)
  {
    match sector
    case 0 => Rgb8(v, t, p)
    case 1 => Rgb8(q, v, p)
    case 2 => Rgb8(p, v, t)
    case 3 => Rgb8(p, q, v)
    case 4 => Rgb8(t, p, v)
    case _ => Rgb8(v, p, q)
  }

  lemma FracInRange(x: real)
    requires 0.0 <= x < 6.0
    ensures 0.0 <= x - ToU8(x) as real < 1.0
  {
  }

  /** None of the three derived channels exceeds the full value. */
  lemma ArmsBelowValue(val: real, s: real, frac: real)
    requires 0.0 <= val && 0.0 <= s <= 1.0 && 0.0 <= frac <= 1.0
    ensures ToU8(Scaled(val, 1.0 - s)) <= ToU8(val)
    ensures ToU8(Scaled(val, 1.0 - Scaled(s, frac))) <= ToU8(val)
    ensures ToU8(Scaled(val, 1.0 - Scaled(s, 1.0 - frac))) <= ToU8(val)
  {
    BelowValue(val, 1.0 - s);
    MulUnit(s, frac);
    BelowValue(val, 1.0 - Scaled(s, frac));
    MulUnit(s, 1.0 - frac);
    BelowValue(val, 1.0 - Scaled(s, 1.0 - frac));
  }

  /** Scaling the value by a factor in [0, 1] never raises the byte. */
  lemma BelowValue(val: real, g: real)
    requires 0.0 <= val && 0.0 <= g <= 1.0
    ensures ToU8(Scaled(val, g)) <= ToU8(val)
  {
    MulUnit(val, g);
    ToU8Monotone(Scaled(val, g), val);
  }

  lemma MulUnit(a: real, f: real)
    requires 0.0 <= a && 0.0 <= f <= 1.0
    ensures 0.0 <= Scaled(a, f) <= a
  {
  }

  lemma ToU8Monotone(x: real, y: real)
    requires x <= y
    ensures ToU8(x) <= ToU8(y)
  {
  }

  /** An integer in 0..255, cast from float, comes back unchanged. */
  lemma ToU8Exact(n: int)
    requires 0 <= n < 256
    ensures ToU8(n as real) == n
  {
  }

  /** The arm `to_rgb` takes for a saturated pixel, with the channel values it uses. */
  lemma ToRgbArm(h: Hsv)
    requires h.saturation != 0.0
    ensures var sector := ToU8(h.hue * 6.0);
            var frac := h.hue * 6.0 - sector as real;
            var val := h.value * 255.0;
            ToRgb(h) == SectorColor(sector, ToU8(val), ToU8(Scaled(val, 1.0 - h.saturation)),
                                    ToU8(Scaled(val, 1.0 - Scaled(h.saturation, frac))),
                                    ToU8(Scaled(val, 1.0 - Scaled(h.saturation, 1.0 - frac))))
  {
  }

  /** The channels `to_rgb` derives from a value `mx` and a saturation `s` equal to
      `(mx - mn) / mx`: the minimum `mn` and the two ramps between `mx` and `mn`. */
  lemma Ramps(val: real, s: real, f: real, mx: real, mn: real)
    requires mx > mn && val == mx && Scaled(s, mx) == mx - mn
    ensures s != 0.0
    ensures Scaled(val, 1.0 - s) == mn
    ensures Scaled(val, 1.0 - Scaled(s, f)) == mx - (mx - mn) * f
    ensures Scaled(val, 1.0 - Scaled(s, 1.0 - f)) == mx - (mx - mn) * (1.0 - f)
  {
    assert s * f * mx == (mx - mn) * f;
    assert s * (1.0 - f) * mx == (mx - mn) * (1.0 - f);
  }

  /** Converting an RGB pixel to HSV and back gives the same pixel in exact
      arithmetic. (With `f32` the channels may be off by one; see README.) */
  lemma HsvRoundTrip(c: Rgb8)
    ensures ToRgb(ToHsv(c)) == c
  {
    if Max3(c) == Min3(c) {
      ToU8Exact(Max3(c));
      assert c.r == c.g == c.b == Max3(c);
    } else {
      SaturatedRoundTrip(c);
    }
  }

  /** The round trip for a pixel that is not grey: `to_rgb` takes the arm of the
      sector the hue falls in, and its full value, minimum and ramps are exactly the
      channels of the pixel. */
  lemma SaturatedRoundTrip(c: Rgb8)
    requires Max3(c) > Min3(c)
    ensures ToRgb(ToHsv(c)) == c
  {
    SaturatedArm(c);
    ToRgbArm(ToHsv(c));
  }

  /** The arithmetic of the round trip: for a pixel that is not grey, the arm
      `to_rgb` takes for the hue, saturation and value `to_hsv` gives puts the
      pixel back together. */
  lemma SaturatedArm(c: Rgb8)
    requires Max3(c) > Min3(c)
    ensures ToHsv(c).saturation != 0.0
    ensures var h := ToHsv(c);
            var sector := ToU8(h.hue * 6.0);
            var frac := h.hue * 6.0 - sector as real;
            var val := h.value * 255.0;
            SectorColor(sector, ToU8(val), ToU8(Scaled(val, 1.0 - h.saturation)),
                        ToU8(Scaled(val, 1.0 - Scaled(h.saturation, frac))),
                        ToU8(Scaled(val, 1.0 - Scaled(h.saturation, 1.0 - frac)))) == c
  {
    var h := ToHsv(c);
    var sector := ToU8(h.hue * 6.0);
    var f := h.hue * 6.0 - sector as real;
    var val := h.value * 255.0;
    var p := Scaled(val, 1.0 - h.saturation);
    var q := Scaled(val, 1.0 - Scaled(h.saturation, f));
    var t := Scaled(val, 1.0 - Scaled(h.saturation, 1.0 - f));
    HsvRamps(c, f);
    HueSixthsShape(c);
    assert sector == ToU8(HueSixths(c));
    SectorChannels(c, HueSixths(c), sector, f, q, t);
    SectorBytes(c, sector, val, p, q, t);
  }

  /** The value of the HSV form of a pixel that is not grey is its maximum, the
      minimum channel `to_rgb` derives is its minimum, and the two ramps, for any
      fraction `f` of the way through a sector, run between them. */
  lemma HsvRamps(c: Rgb8, f: real)
    requires Max3(c) > Min3(c)
    ensures var h := ToHsv(c);
            var val := h.value * 255.0;
            && h.saturation != 0.0
            && val == Max3(c) as real
            && Scaled(val, 1.0 - h.saturation) == Min3(c) as real
            && Ramped(c, f, Scaled(val, 1.0 - Scaled(h.saturation, f)),
                      Scaled(val, 1.0 - Scaled(h.saturation, 1.0 - f)))
  {
    var h := ToHsv(c);
    PixelRamps(c, h.value * 255.0, h.saturation, f);
  }

  /** The minimum and the ramps `to_rgb` derives from a value and a saturation that
      are those of the pixel `c`. */
  lemma PixelRamps(c: Rgb8, val: real, s: real, f: real)
    requires Max3(c) > Min3(c) && val == Max3(c) as real
    requires Scaled(s, Max3(c) as real) == (Max3(c) - Min3(c)) as real
    ensures s != 0.0
    ensures Scaled(val, 1.0 - s) == Min3(c) as real
    ensures Ramped(c, f, Scaled(val, 1.0 - Scaled(s, f)), Scaled(val, 1.0 - Scaled(s, 1.0 - f)))
  {
    Ramps(val, s, f, Max3(c) as real, Min3(c) as real);
  }

  /** The channels of `c`, as reals, are those the arm of `to_rgb` for `sector` puts
      together from the full value `v`, the minimum `p`, the falling `q` and the
      rising `t`. */
  predicate ChannelsOfSector(c: Rgb8, sector: u8, v: real, p: real, q: real, t: real)
  {
    match sector
    case 0 => c.r as real == v && c.g as real == t && c.b as real == p
    case 1 => c.r as real == q && c.g as real == v && c.b as real == p
    case 2 => c.r as real == p && c.g as real == v && c.b as real == t
    case 3 => c.r as real == p && c.g as real == q && c.b as real == v
    case 4 => c.r as real == t && c.g as real == p && c.b as real == v
    case _ => c.r as real == v && c.g as real == p && c.b as real == q
  }

  /** Channel values that are whole bytes survive the casts of `to_rgb`. */
  lemma SectorBytes(c: Rgb8, sector: u8, v: real, p: real, q: real, t: real)
    requires ChannelsOfSector(c, sector, v, p, q, t)
    ensures SectorColor(sector, ToU8(v), ToU8(p), ToU8(q), ToU8(t)) == c
  {
    ToU8Exact(c.r);
    ToU8Exact(c.g);
    ToU8Exact(c.b);
  }

  /** The falling channel `q` and the rising channel `t` of a sector whose fraction
      of the way through is `f`: the maximum less the chroma times `f` or `1 - f`. */
  predicate Ramped(c: Rgb8, f: real, q: real, t: real)
  {
    var ch := (Max3(c) - Min3(c)) as real;
    q == Max3(c) as real - ch * f && t == Max3(c) as real - ch * (1.0 - f)
  }

  /** `sector` is the whole part of `hp`, as `to_rgb` casts it, and `f` the rest. */
  predicate SectorOf(hp: real, sector: u8, f: real)
  {
    sector == ToU8(hp) && f == hp - sector as real
  }

  /** Whichever channel is the brightest, the sector of the hue and its fraction
      place the channels where the arm of `to_rgb` for that sector expects them. */
  lemma SectorChannels(c: Rgb8, hp: real, sector: u8, f: real, q: real, t: real)
    requires Max3(c) > Min3(c) && 0.0 <= hp < 6.0 && HueShape(c, hp)
    requires SectorOf(hp, sector, f) && Ramped(c, f, q, t)
    ensures ChannelsOfSector(c, sector, Max3(c) as real, Min3(c) as real, q, t)
  {
    if Max3(c) == c.r {
      RedSector(c, hp, sector, f, q, t);
    } else if Max3(c) == c.g {
      GreenSector(c, hp, sector, f, q, t);
    } else {
      BlueSector(c, hp, sector, f, q, t);
    }
  }

  /** The brightest channel is red: sector 0 (green rising), sector 1 at the exact
      yellow boundary, or sector 5 (blue falling). */
  lemma RedSector(c: Rgb8, hp: real, sector: u8, f: real, q: real, t: real)
    requires Max3(c) > Min3(c) && 0.0 <= hp < 6.0 && HueShape(c, hp) && Max3(c) == c.r
    requires SectorOf(hp, sector, f) && Ramped(c, f, q, t)
    ensures sector == 0 || sector == 1 || sector == 5
    ensures ChannelsOfSector(c, sector, Max3(c) as real, Min3(c) as real, q, t)
  {
    if hp <= 1.0 {
      YellowwardRed(c, hp, sector, f, q, t);
    } else {
      MagentawardRed(c, hp, sector, f, q, t);
    }
  }

  /** Red brightest with the hue in the first sixth: green rises towards yellow. */
  lemma YellowwardRed(c: Rgb8, hp: real, sector: u8, f: real, q: real, t: real)
    requires Max3(c) > Min3(c) && 0.0 <= hp <= 1.0 && Max3(c) == c.r
    requires hp * (Max3(c) - Min3(c)) as real == c.g as real - c.b as real
    requires SectorOf(hp, sector, f) && Ramped(c, f, q, t)
    ensures sector == 0 || sector == 1
    ensures ChannelsOfSector(c, sector, Max3(c) as real, Min3(c) as real, q, t)
  {
    MulNonNegative(hp, (Max3(c) - Min3(c)) as real);
    assert c.b == Min3(c);
    if sector == 0 {
      assert f == hp;
      assert c.g as real == t;
    } else {
      assert f == 0.0;
      assert c.r as real == q;
    }
  }

  /** Red brightest with the hue in the last sixth: blue falls away from magenta. */
  lemma MagentawardRed(c: Rgb8, hp: real, sector: u8, f: real, q: real, t: real)
    requires Max3(c) > Min3(c) && 5.0 <= hp < 6.0 && Max3(c) == c.r
    requires (hp - 6.0) * (Max3(c) - Min3(c)) as real == c.g as real - c.b as real
    requires SectorOf(hp, sector, f) && Ramped(c, f, q, t)
    ensures sector == 5
    ensures ChannelsOfSector(c, sector, Max3(c) as real, Min3(c) as real, q, t)
  {
    MulNonNegative(6.0 - hp, (Max3(c) - Min3(c)) as real);
    assert c.g == Min3(c);
    assert sector == 5 && f == hp - 5.0;
    assert c.b as real == q;
  }

  /** The brightest channel is green (and red is not): sector 1 (red falling),
      sector 2 (blue rising), or sector 3 at the exact cyan boundary. */
  lemma GreenSector(c: Rgb8, hp: real, sector: u8, f: real, q: real, t: real)
    requires Max3(c) > Min3(c) && 0.0 <= hp < 6.0 && HueShape(c, hp)
    requires Max3(c) == c.g && Max3(c) != c.r
    requires SectorOf(hp, sector, f) && Ramped(c, f, q, t)
    ensures sector == 1 || sector == 2 || sector == 3
    ensures ChannelsOfSector(c, sector, Max3(c) as real, Min3(c) as real, q, t)
  {
    var mx, mn := Max3(c), Min3(c);
    var ch := (mx - mn) as real;
    if hp < 2.0 {
      MulNonNegative(2.0 - hp, ch);
      assert c.b == mn;
      assert sector == 1 && f == hp - 1.0;
      assert c.r as real == q;
    } else {
      MulNonNegative(hp - 2.0, ch);
      assert c.r == mn;
      if sector == 2 {
        assert f == hp - 2.0;
        assert c.b as real == t;
      } else {
        assert hp == 3.0 && f == 0.0;
        assert c.g as real == q;
      }
    }
  }

  /** The brightest channel is blue alone: sector 3 (green falling) or sector 4
      (red rising); sector 5 would need red at the maximum. */
  lemma BlueSector(c: Rgb8, hp: real, sector: u8, f: real, q: real, t: real)
    requires Max3(c) > Min3(c) && 0.0 <= hp < 6.0 && HueShape(c, hp)
    requires Max3(c) == c.b && Max3(c) != c.r && Max3(c) != c.g
    requires SectorOf(hp, sector, f) && Ramped(c, f, q, t)
    ensures sector == 3 || sector == 4
    ensures ChannelsOfSector(c, sector, Max3(c) as real, Min3(c) as real, q, t)
  {
    var mx, mn := Max3(c), Min3(c);
    var ch := (mx - mn) as real;
    if hp < 4.0 {
      MulNonNegative(4.0 - hp, ch);
      assert c.r == mn;
      assert sector == 3 && f == hp - 3.0;
      assert c.g as real == q;
    } else {
      MulNonNegative(hp - 4.0, ch);
      assert c.g == mn;
      assert hp < 5.0;
      assert sector == 4 && f == hp - 4.0;
      assert c.r as real == t;
    }
  }

  /** Through the tagged union: an RGB pixel converted to HSV and back is unchanged. */
  lemma ColorRoundTrip(c: Rgb8)
    ensures HSV(RGB(c).IntoHsv()).IntoRgb() == c
  {
    HsvRoundTrip(c);
  }

  // ---------------------------------------------------------------------------
  // Per-channel correction (`RgbTransformer::transform`)

  /** The corrected level of one channel before the threshold and the cast: the input
      as a fraction of 255 raised to `gamma`, scaled by `whitelevel`, then mapped into
      [blacklevel, 1] by `(1 - blacklevel)` and `+ blacklevel`. `pow` stands for
      `f32::powf`. */
  function Level(x: u8, conf: AdditiveColorConf, pow: (real, real) -> real): real
  {
    Scaled(Scaled(pow(x as real / 255.0, conf.gamma), conf.whitelevel), 1.0 - conf.blacklevel) + conf.blacklevel
  }

  /** One corrected channel: a level below the threshold turns the channel off,
      otherwise the level is scaled back to 0..255 and cast to a byte. */
  function CorrectChannel(x: u8, conf: AdditiveColorConf, pow: (real, real) -> real): (y: u8)
    ensures Level(x, conf, pow) < conf.threshold ==> y == 0
    ensures Level(x, conf, pow) >= conf.threshold ==> y as real <= Scaled(Level(x, conf, pow), 255.0) || Level(x, conf, pow) < 0.0
  {
    var c := Level(x, conf, pow);
    ToU8(Scaled(if c >= conf.threshold then c else 0.0, 255.0))
  }

  /** The three channel corrections of one transform entry. */
  datatype RgbTransformer = RgbTransformer(r: AdditiveColorConf, g: AdditiveColorConf, b: AdditiveColorConf)
  {
    /** `RgbTransformer::transform`: the channels are corrected in place, one after
        the other, each with its own configuration only. */
    method Transform(rgb: Rgb8, pow: (real, real) -> real) returns (out: Rgb8)
      ensures out == Rgb8(CorrectChannel(rgb.r, r, pow), CorrectChannel(rgb.g, g, pow), CorrectChannel(rgb.b, b, pow))
    {
      var channels := new u8[3] [rgb.r, rgb.g, rgb.b];
      var transformers := [r, g, b];
      ghost var inputs := channels[..];
      for i := 0 to 3
        invariant forall k :: 0 <= k < i ==> channels[k] == CorrectChannel(inputs[k], transformers[k], pow)
        invariant forall k :: i <= k < 3 ==> channels[k] == inputs[k]
      {
        channels[i] := CorrectChannel(channels[i], transformers[i], pow);
      }
      out := Rgb8(channels[0], channels[1], channels[2]);
    }
  }

  /** A default configuration leaves every channel unchanged, provided `pow` is the
      identity at exponent 1 for that input. */
  lemma DefaultCorrectionIsIdentity(x: u8, conf: AdditiveColorConf, pow: (real, real) -> real)
    requires conf.IsDefault()
    requires pow(x as real / 255.0, 1.0) == x as real / 255.0
    ensures CorrectChannel(x, conf, pow) == x
  {
    assert Level(x, conf, pow) == x as real / 255.0;
    assert Scaled(x as real / 255.0, 255.0) == x as real;
    ToU8Exact(x);
  }

  /** With a non-negative white level, a black level of at most 1 and a `pow` that
      does not decrease from `x` to `y`, a brighter input never gives a darker output:
      the threshold only switches low levels off. */
  lemma CorrectionMonotone(x: u8, y: u8, conf: AdditiveColorConf, pow: (real, real) -> real)
    requires x <= y
    requires conf.whitelevel >= 0.0 && conf.blacklevel <= 1.0
    requires pow(x as real / 255.0, conf.gamma) <= pow(y as real / 255.0, conf.gamma)
    ensures CorrectChannel(x, conf, pow) <= CorrectChannel(y, conf, pow)
  {
    var px, py := pow(x as real / 255.0, conf.gamma), pow(y as real / 255.0, conf.gamma);
    ScaledMonotone(px, py, conf.whitelevel);
    ScaledMonotone(Scaled(px, conf.whitelevel), Scaled(py, conf.whitelevel), 1.0 - conf.blacklevel);
    var lx, ly := Level(x, conf, pow), Level(y, conf, pow);
    assert lx <= ly;
    if lx >= conf.threshold {
      ScaledMonotone(lx, ly, 255.0);
      ToU8Monotone(Scaled(lx, 255.0), Scaled(ly, 255.0));
    }
  }

  lemma ScaledMonotone(a: real, b: real, f: real)
    requires a <= b && f >= 0.0
    ensures Scaled(a, f) <= Scaled(b, f)
  {
    MulNonNegative(b - a, f);
  }

  /** The black level is a floor: when `pow` stays in [0, 1], both levels lie in
      [0, 1] and the threshold does not exceed the black level, no channel goes
      below the black level's byte, and a white input level of 1 reaches 255 at
      white level 1. */
  lemma BlacklevelIsFloor(x: u8, conf: AdditiveColorConf, pow: (real, real) -> real)
    requires 0.0 <= pow(x as real / 255.0, conf.gamma) <= 1.0
    requires 0.0 <= conf.blacklevel <= 1.0 && 0.0 <= conf.whitelevel <= 1.0
    requires conf.threshold <= conf.blacklevel
    ensures ToU8(Scaled(conf.blacklevel, 255.0)) <= CorrectChannel(x, conf, pow)
  {
    var p := pow(x as real / 255.0, conf.gamma);
    MulNonNegative(p, conf.whitelevel);
    MulNonNegative(Scaled(p, conf.whitelevel), 1.0 - conf.blacklevel);
    var l := Level(x, conf, pow);
    assert conf.blacklevel <= l;
    ScaledMonotone(conf.blacklevel, l, 255.0);
    ToU8Monotone(Scaled(conf.blacklevel, 255.0), Scaled(l, 255.0));
  }

  // ---------------------------------------------------------------------------
  // HSV gain (`HSVTransformer::transform`)

  /** `HSVTransformer::transform`: saturation and value are multiplied by their gains
      and clamped by `partialMin(1, x, 1)`, which stands for the `partial_min` helper;
      the hue is passed through. */
  function HsvTransform(conf: HsvConf, h: Hsv, partialMin: (real, real, real) -> real): (t: Hsv)
    ensures t.hue == h.hue
  {
    Hsv(h.hue, partialMin(1.0, Scaled(h.saturation, conf.saturationGain), 1.0),
        partialMin(1.0, Scaled(h.value, conf.valueGain), 1.0))
  }

  /** `partialMin(1, x, 1)` behaves as the minimum of 1 and `x`. */
  ghost predicate ClampsAtOne(partialMin: (real, real, real) -> real)
  {
    forall x :: partialMin(1.0, x, 1.0) == (if x <= 1.0 then x else 1.0)
  }

  /** With a clamping `partialMin`, non-negative gains keep saturation and value in
      [0, 1], and the default gains leave a pixel of the HSV ranges unchanged. */
  lemma HsvTransformRanges(conf: HsvConf, h: Hsv, partialMin: (real, real, real) -> real)
    requires ClampsAtOne(partialMin)
    requires 0.0 <= h.saturation <= 1.0 && 0.0 <= h.value <= 1.0
    requires conf.saturationGain >= 0.0 && conf.valueGain >= 0.0
    ensures 0.0 <= HsvTransform(conf, h, partialMin).saturation <= 1.0
    ensures 0.0 <= HsvTransform(conf, h, partialMin).value <= 1.0
    ensures conf.IsDefault() ==> HsvTransform(conf, h, partialMin) == h
  {
    MulNonNegative(h.saturation, conf.saturationGain);
    MulNonNegative(h.value, conf.valueGain);
    assert partialMin(1.0, Scaled(h.saturation, conf.saturationGain), 1.0)
        == (if Scaled(h.saturation, conf.saturationGain) <= 1.0 then Scaled(h.saturation, conf.saturationGain) else 1.0);
    assert partialMin(1.0, Scaled(h.value, conf.valueGain), 1.0)
        == (if Scaled(h.value, conf.valueGain) <= 1.0 then Scaled(h.value, conf.valueGain) else 1.0);
  }

  /** Default gains applied to a converted pixel give it back, so an RGB pixel with a
      default HSV stage still round-trips through `to_hsv` and `to_rgb`. */
  lemma DefaultHsvStageRoundTrip(c: Rgb8, partialMin: (real, real, real) -> real)
    requires ClampsAtOne(partialMin)
    ensures ToRgb(HsvTransform(DEFAULT_HSV, ToHsv(c), partialMin)) == c
  {
    HsvTransformRanges(DEFAULT_HSV, ToHsv(c), partialMin);
    HsvRoundTrip(c);
  }

  // ---------------------------------------------------------------------------
  // The byte view (`rgbs_as_bytes`)

  /** `rgbs_as_bytes`: the pixels' bytes in memory order, r, g, b per pixel. */
  function RgbsAsBytes(v: seq<Rgb8>): (bs: seq<u8>)
    ensures |bs| == RGB_SIZE * |v|
  {
    if |v| == 0 then [] else [v[0].r, v[0].g, v[0].b] + RgbsAsBytes(v[1..])
  }

  /** Byte `3i + k` is channel `k` of pixel `i`. */
  lemma {:induction false} ByteLayout(v: seq<Rgb8>, i: nat)
    requires i < |v|
    ensures RgbsAsBytes(v)[RGB_SIZE * i] == v[i].r
    ensures RgbsAsBytes(v)[RGB_SIZE * i + 1] == v[i].g
    ensures RgbsAsBytes(v)[RGB_SIZE * i + 2] == v[i].b
    decreases i
  {
    if i > 0 {
      ByteLayout(v[1..], i - 1);
      assert RGB_SIZE * i == RGB_SIZE + RGB_SIZE * (i - 1);
    }
  }

  /** The inverse view: every three bytes read as one pixel. */
  function BytesAsRgbs(bs: seq<u8>): (v: seq<Rgb8>)
    requires |bs| % RGB_SIZE == 0
    ensures RGB_SIZE * |v| == |bs|
  {
    if |bs| == 0 then [] else [Rgb8(bs[0], bs[1], bs[2])] + BytesAsRgbs(bs[3..])
  }

  /** Reading the bytes back gives the pixels. */
  lemma {:induction false} BytesOfRgbsRoundTrip(v: seq<Rgb8>)
    ensures BytesAsRgbs(RgbsAsBytes(v)) == v
  {
    if |v| > 0 {
      BytesOfRgbsRoundTrip(v[1..]);
      var bs := RgbsAsBytes(v);
      assert bs[3..] == RgbsAsBytes(v[1..]);
      assert [v[0]] + v[1..] == v;
    }
  }

  /** Viewing the pixels read from a byte buffer gives the buffer. */
  lemma {:induction false} RgbsOfBytesRoundTrip(bs: seq<u8>)
    requires |bs| % RGB_SIZE == 0
    ensures RgbsAsBytes(BytesAsRgbs(bs)) == bs
    decreases |bs|
  {
    if |bs| > 0 {
      RgbsOfBytesRoundTrip(bs[3..]);
      var v := BytesAsRgbs(bs);
      assert v[1..] == BytesAsRgbs(bs[3..]);
      assert [bs[0], bs[1], bs[2]] + bs[3..] == bs;
    }
  }

  // ---------------------------------------------------------------------------
  // Smoothing

  /** `no_smooth`: the new colour is shown as it is. */
  function NoSmooth(from: Rgb8, to: Rgb8, factor: real): Rgb8
  {
    to
  }

  /** One channel of `linear_smooth` before the cast: `from + (to - from) * factor`. */
  function Lerp(a: u8, b: u8, factor: real): real
  {
    a as real + Scaled((b - a) as real, factor)
  }

  /** `linear_smooth`: past a factor of 1 the target itself, otherwise each channel
      moved the fraction `factor` of the way from `from` to `to` and cast to a byte. */
  function LinearSmooth(from: Rgb8, to: Rgb8, factor: real): Rgb8
  {
    if factor > 1.0 then to
    else Rgb8(ToU8(Lerp(from.r, to.r, factor)), ToU8(Lerp(from.g, to.g, factor)), ToU8(Lerp(from.b, to.b, factor)))
  }

  /** A factor of at least 1 reaches the target, as `no_smooth` does at once; a factor
      of 0 keeps the previous colour. */
  lemma LinearSmoothEnds(from: Rgb8, to: Rgb8, factor: real)
    ensures factor >= 1.0 ==> LinearSmooth(from, to, factor) == to == NoSmooth(from, to, factor)
    ensures factor == 0.0 ==> LinearSmooth(from, to, factor) == from
  {
    if factor == 1.0 {
      assert Lerp(from.r, to.r, 1.0) == to.r as real;
      assert Lerp(from.g, to.g, 1.0) == to.g as real;
      assert Lerp(from.b, to.b, 1.0) == to.b as real;
      ToU8Exact(to.r);
      ToU8Exact(to.g);
      ToU8Exact(to.b);
    } else if factor == 0.0 {
      ToU8Exact(from.r);
      ToU8Exact(from.g);
      ToU8Exact(from.b);
    }
  }

  /** For a factor in [0, 1] each channel lies between its previous and its target
      value: smoothing never overshoots. */
  lemma LinearSmoothBetween(from: Rgb8, to: Rgb8, factor: real)
    requires 0.0 <= factor <= 1.0
    ensures Between(LinearSmooth(from, to, factor).r, from.r, to.r)
    ensures Between(LinearSmooth(from, to, factor).g, from.g, to.g)
    ensures Between(LinearSmooth(from, to, factor).b, from.b, to.b)
  {
    LerpBetween(from.r, to.r, factor);
    LerpBetween(from.g, to.g, factor);
    LerpBetween(from.b, to.b, factor);
  }

  predicate Between(x: int, a: int, b: int)
  {
    (a <= x <= b) || (b <= x <= a)
  }

  lemma LerpBetween(a: u8, b: u8, factor: real)
    requires 0.0 <= factor <= 1.0
    ensures Between(ToU8(Lerp(a, b, factor)), a, b)
  {
    var l := Lerp(a, b, factor);
    ToU8Exact(a);
    ToU8Exact(b);
    if a <= b {
      MulNonNegative((b - a) as real, factor);
      MulNonNegative((b - a) as real, 1.0 - factor);
      ToU8Monotone(a as real, l);
      ToU8Monotone(l, b as real);
    } else {
      MulNonNegative((a - b) as real, factor);
      MulNonNegative((a - b) as real, 1.0 - factor);
      ToU8Monotone(b as real, l);
      ToU8Monotone(l, a as real);
    }
  }
}
