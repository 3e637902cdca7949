/** Machine integer types, the float-to-integer casts Rust performs, `Option` and the
    iterator adaptor `flat_map`, standing for the parts of Rust's standard library the
    program uses. */
module Prelude {

  /** The conventional Some/None datatype, standing for Rust's `Option`. */
  datatype Option<+T> = None | Some(value: T)

  type u8 = x: int | 0 <= x < 0x100
  type u16 = x: int | 0 <= x < 0x1_0000

  /** The largest `usize` on the 64-bit targets the program is built for. */
  const USIZE_MAX: int := 0xFFFF_FFFF_FFFF_FFFF

  /** Rust's `x as u8` for a float: NaN and negatives give 0, values past 255 give 255,
      everything else is truncated toward zero. */
  function ToU8(x: real): (r: u8)
    ensures 0.0 <= x < 256.0 ==> r == x.Floor
    ensures x < 0.0 ==> r == 0
    ensures x >= 255.0 ==> r == 255
    ensures r as real <= x || x < 0.0
  {
    if x <= 0.0 then 0 else if x >= 255.0 then 255 else x.Floor
  }

  /** Rust's `x as usize` for a float, saturating in the same way as `ToU8`. */
  function ToUsize(x: real): (r: nat)
    ensures r <= USIZE_MAX
    ensures 0.0 <= x < USIZE_MAX as real ==> r == x.Floor
    ensures r as real <= x || x < 0.0
  {
    if x <= 0.0 then 0 else if x >= USIZE_MAX as real then USIZE_MAX else x.Floor
  }

  /** `i + 1` on a `usize` in a release build, where arithmetic wraps: the successor,
      except that `usize::MAX` wraps around to 0. */
  function WrappingInc(i: nat): (r: nat)
    requires i <= USIZE_MAX
    ensures r <= USIZE_MAX
    ensures r == 0 <==> i == USIZE_MAX
    ensures r != 0 ==> r == i + 1
  {
    (i + 1) % (USIZE_MAX + 1)
  }

  /** `a * f` on `f32` values: a quantity scaled by a factor. Products that are cast
      to integers are written through this function. */
  function Scaled(a: real, f: real): real
  {
    a * f
  }

  /** Bitwise exclusive or of two bytes. */
  function Xor8(a: u8, b: u8): u8
  {
    ((a as bv8) ^ (b as bv8)) as int
  }

  /** `flat_map`: the images of the elements, concatenated in order. `filter_map` is
      the case where every image has at most one element. */
  function FlatMap<T, U>(xs: seq<T>, f: T -> seq<U>): seq<U>
  {
    if |xs| == 0 then [] else f(xs[0]) + FlatMap(xs[1..], f)
  }

  lemma {:induction false} FlatMapAppend<T, U>(xs: seq<T>, ys: seq<T>, f: T -> seq<U>)
    ensures FlatMap(xs + ys, f) == FlatMap(xs, f) + FlatMap(ys, f)
    decreases |xs|
  {
    if |xs| == 0 {
      assert xs + ys == ys;
    } else {
      FlatMapAppend(xs[1..], ys, f);
      assert (xs + ys)[1..] == xs[1..] + ys;
    }
  }

  /** When every element maps to exactly one value, `flat_map` is the plain map. */
  lemma {:induction false} FlatMapSingletons<T, U>(xs: seq<T>, ys: seq<U>, f: T -> seq<U>)
    requires |xs| == |ys|
    requires forall k :: 0 <= k < |xs| ==> f(xs[k]) == [ys[k]]
    ensures FlatMap(xs, f) == ys
    decreases |xs|
  {
    if |xs| > 0 {
      FlatMapSingletons(xs[1..], ys[1..], f);
      assert [ys[0]] + ys[1..] == ys;
    }
  }

  /** A value no image contains is not in the concatenation either. */
  lemma {:induction false} FlatMapAvoids<T, U>(xs: seq<T>, f: T -> seq<U>, u: U)
    requires forall k :: 0 <= k < |xs| ==> u !in f(xs[k])
    ensures u !in FlatMap(xs, f)
    decreases |xs|
  {
    if |xs| > 0 {
      FlatMapAvoids(xs[1..], f, u);
    }
  }

  /** When every image is empty, so is the concatenation. */
  lemma {:induction false} FlatMapAllEmpty<T, U>(xs: seq<T>, f: T -> seq<U>)
    requires forall k :: 0 <= k < |xs| ==> f(xs[k]) == []
    ensures FlatMap(xs, f) == []
    decreases |xs|
  {
    if |xs| > 0 {
      FlatMapAllEmpty(xs[1..], f);
    }
  }

  /** An element whose image is empty drops out without affecting the others. */
  lemma FlatMapSkip<T, U>(before: seq<T>, x: T, after: seq<T>, f: T -> seq<U>)
    requires f(x) == []
    ensures FlatMap(before + [x] + after, f) == FlatMap(before, f) + FlatMap(after, f)
  {
    FlatMapAppend(before + [x], after, f);
    FlatMapAppend(before, [x], f);
    assert FlatMap([x], f) == f(x) + FlatMap([x][1..], f);
  }
}
