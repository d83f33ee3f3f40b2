/** Fixed-point helpers of the LED animations (firmware/src/rgb/math_utils.rs).

    A value of the `fixed` crate's `I16F16` or `U16F16` is its raw bits,
    the value times 2^16; `U0F16` is a fraction below 1 in 16 bits. Sums
    and differences wrap round as in a release build, products of two
    fixed values drop the low 16 bits of the exact product, and division
    truncates toward zero. */
module MathUtils {

  import opened Util

  /** A colour, cichlid's `ColorRGB`. */
  datatype Rgb = Rgb(r: u8, g: u8, b: u8)

  /** 1.0 in 16 fractional bits. */
  const ONE: int := 0x1_0000

  /** `U16F16::MAX`. */
  const U16F16_MAX: int := U32_LIMIT - 1

  /** `wrapping_delta` as written: the signed difference b - a inside the
      range [min, max), taking the way round when the direct difference is
      more than half the range. */
  function WrappingDelta(a: int, b: int, min: int, max: int): (r: int)
    ensures I32_MIN <= r <= I32_MAX
    ensures InBounds(a, b, min, max) ==>
      if Abs(b - a) <= (max - min) / 2 then r == b - a
      else r == WrapI32((b - a) - (max - min))
  {
    var halfRange := TDiv(WrapI32(max - min), 2);
    var d := WrapI32(b - a);
    if WrapI32(Abs(d)) <= halfRange then d
    else WrapI32(WrapI32(b - max) + WrapI32(min - a))
  }

  /** Both points lie in a range `[min, max)` whose width fits the signed
      32-bit bits, so that no difference inside it wraps. */
  predicate InBounds(a: int, b: int, min: int, max: int)
  {
    SignedRange(min, max) && InRange(a, min, max) && InRange(b, min, max)
  }

  predicate InRange(a: int, min: int, max: int)
  {
    min <= a < max
  }

  /** The range of `[min, max)` fits the signed 32-bit bits. */
  predicate SignedRange(min: int, max: int)
  {
    I32_MIN <= min < max <= I32_MAX && max - min <= I32_MAX
  }

  /** Taking the way round, `wrapping_delta` always subtracts the range:
      when b lies more than half the range below a it returns
      (b - a) - (max - min), further from 0 than b - a itself, where the
      way round is (b - a) + (max - min). */
  lemma WrappingDeltaOvershoots(a: int, b: int, min: int, max: int)
    requires SignedRange(min, max) && InRange(a, min, max) && InRange(b, min, max)
    requires b - a < -((max - min) / 2) && I32_MIN <= (b - a) - (max - min)
    ensures WrappingDelta(a, b, min, max) == (b - a) - (max - min)
    ensures WrappingDelta(a, b, min, max) < b - a
  {
    var range := max - min;
    assert TDiv(WrapI32(range), 2) == range / 2;
    assert WrapI32(b - a) == b - a;
    assert WrapI32(Abs(b - a)) == a - b;
    assert WrapI32(b - max) == b - max;
    assert WrapI32(min - a) == min - a;
  }

  /** On the range [0, 10), from 9 to 1: the answer is -18 where the way
      round is +2. */
  lemma WrappingDeltaCounterexample()
    ensures WrappingDelta(9 * ONE, 1 * ONE, 0, 10 * ONE) == -18 * ONE
  {
    WrappingDeltaOvershoots(9 * ONE, 1 * ONE, 0, 10 * ONE);
  }

  /** The evidently intended delta: the way round adds the range when b
      lies below a. */
  function ShortestDelta(a: int, b: int, min: int, max: int): (r: int)
    requires SignedRange(min, max) && InRange(a, min, max) && InRange(b, min, max)
    ensures r == b - a || r == (b - a) - (max - min) || r == (b - a) + (max - min)
    ensures Abs(r) <= (max - min) / 2
    ensures b - a >= -((max - min) / 2) ==> r == WrappingDelta(a, b, min, max)
  {
    var halfRange := (max - min) / 2;
    var d := b - a;
    if Abs(d) <= halfRange then d
    else if d > 0 then d - (max - min)
    else d + (max - min)
  }

  /** `wrapping_delta_u` as written: |b - a| when it is at most half the
      range, otherwise `half_range - d`, an unsigned subtraction of a larger
      value, which wraps round in a release build. */
  function WrappingDeltaU(a: u32, b: u32, min: u32, max: u32): (r: u32)
    ensures Abs(b - a) <= WrapU32(max - min) / 2 ==> r == Abs(b - a)
    ensures Abs(b - a) > WrapU32(max - min) / 2 ==>
      r == U32_LIMIT + WrapU32(max - min) / 2 - Abs(b - a)
  {
    var halfRange := WrapU32(max - min) / 2;
    var d := Abs(b - a);
    if d <= halfRange then d else WrapU32(halfRange - d)
  }

  /** The animations' `tick_delta`: `wrapping_delta_u` over the whole
      `U16F16` range. */
  function TickDelta(a: u32, b: u32): (r: u32)
    ensures Abs(b - a) < 0x8000_0000 ==> r == Abs(b - a)
  {
    WrappingDeltaU(a, b, 0, U16F16_MAX)
  }

  /** The way round never comes out as the distance it is: a difference
      above half the range gives 2^31 more than the circular distance
      (2^32 - 1) - |b - a|. Just after the tick counter wraps, a stamp
      taken half a tick earlier reads as 32768.5 ticks old. */
  lemma TickDeltaAfterWrap(a: u32, b: u32)
    requires Abs(b - a) >= 0x8000_0000
    ensures TickDelta(a, b) == (U16F16_MAX - Abs(b - a)) + 0x8000_0000
    ensures TickDelta(U32_LIMIT - ONE / 2, 0) == 0x8000_0000 + ONE / 2 - 1
  {
  }

  /** `sqr`: a fixed-point square, wrapping when it overflows. */
  function Sqr(x: int): (r: int)
    requires I32_MIN <= x <= I32_MAX
    ensures I32_MIN <= r <= I32_MAX
    ensures (x * x) / ONE <= I32_MAX ==> 0 <= r && r * ONE <= x * x < (r + 1) * ONE
  {
    WrapI32((x * x) / ONE)
  }

  /** A square does not depend on the sign. */
  lemma SqrEven(x: int)
    requires I32_MIN < x <= I32_MAX
    ensures Sqr(x) == Sqr(-x)
  {
    assert (-x) * (-x) == x * x;
  }

  /** The mix of `ease_fade`'s first half, 2p^2, for p below 0.5. */
  function EaseIn(p: nat): (mix: nat)
    requires p < ONE / 2
    ensures mix < ONE / 2
  {
    MulMono(p, ONE / 2 - 1);
    assert 2 * p * p == 2 * (p * p);
    DivMono(2 * p * p, 2 * (ONE / 2 - 1) * (ONE / 2 - 1), ONE);
    (2 * p * p) / ONE
  }

  /** The mix of the second half, 1 - (2 - 2p)^2 / 2, for p in [0.5, 1). */
  function EaseOut(p: nat): (mix: nat)
    requires ONE / 2 <= p < ONE
    ensures ONE / 2 <= mix <= ONE
  {
    var a := 2 * ONE - 2 * p;
    MulMono(a, ONE);
    DivMono(a * a, ONE * ONE, ONE);
    var b := (a * a) / ONE;
    ONE - b / 2
  }

  /** `ease_fade`: the quadratic ease-in-out of a `U0F16` fraction, scaled
      to 0..255; the last step saturates into a `u8`. */
  function EaseFade(p: nat): (level: u8)
    requires p < ONE
    ensures p < ONE / 2 ==> level <= 127
    ensures p >= ONE / 2 ==> level >= 127
  {
    var mix := if p < ONE / 2 then EaseIn(p) else EaseOut(p);
    LevelBounds(mix);
    Clamp((mix * 255) / ONE, 0, 255)
  }

  /** The lerp to 0..255 keeps the halves apart at level 127. */
  lemma LevelBounds(mix: nat)
    requires mix <= ONE
    ensures (mix * 255) / ONE <= 255
    ensures mix < ONE / 2 ==> (mix * 255) / ONE <= 127
    ensures mix >= ONE / 2 ==> (mix * 255) / ONE >= 127
  {
    DivMono(mix * 255, ONE * 255, ONE);
    if mix < ONE / 2 {
      DivMono(mix * 255, (ONE / 2) * 255, ONE);
    } else {
      DivMono((ONE / 2) * 255, mix * 255, ONE);
    }
  }

  /** The fade starts dark and ends at full level. */
  lemma EaseFadeEnds()
    ensures EaseFade(0) == 0
    ensures EaseFade(ONE - 1) == 255
  {
  }

  /** The fade never steps back: a later fraction gives at least the
      level of an earlier one. */
  lemma EaseFadeMonotone(p: nat, q: nat)
    requires p <= q < ONE
    ensures EaseFade(p) <= EaseFade(q)
  {
    var mp := if p < ONE / 2 then EaseIn(p) else EaseOut(p);
    var mq := if q < ONE / 2 then EaseIn(q) else EaseOut(q);
    if q < ONE / 2 {
      EaseInMonotone(p, q);
    } else if p >= ONE / 2 {
      EaseOutMonotone(p, q);
    }
    assert mp <= mq;
    DivMono(mp * 255, mq * 255, ONE);
  }

  lemma EaseInMonotone(p: nat, q: nat)
    requires p <= q < ONE / 2
    ensures EaseIn(p) <= EaseIn(q)
  {
    MulMono(p, q);
    DivMono(2 * p * p, 2 * q * q, ONE);
  }

  lemma EaseOutMonotone(p: nat, q: nat)
    requires ONE / 2 <= p <= q < ONE
    ensures EaseOut(p) <= EaseOut(q)
  {
    var ap, aq := 2 * ONE - 2 * p, 2 * ONE - 2 * q;
    MulMono(aq, ap);
    DivMono(aq * aq, ap * ap, ONE);
    DivMono((aq * aq) / ONE, (ap * ap) / ONE, 2);
  }
}
