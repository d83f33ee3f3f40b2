/** Trackpad glide, the inertial scroll that continues a flick
    (firmware/src/trackpad/glide.rs). All arithmetic is on `i32` and wraps
    as a release build does; `/` truncates toward zero; the square root is
    the floor root of the `num` crate, which panics on a negative argument.
    The clock is a parameter: `now` in ticks, with `Instant::MIN` as 0. */
module Glide {

  import opened Util

  datatype GlideConfig = GlideConfig(coefficient: u8, interval: nat, triggerPx: u8)

  /** One generated motion, in pixels. */
  datatype Glide = Glide(dx: int, dy: int)

  /** The glide state: initial speed `v0` (scaled by 256), the position
      reached so far, the last contact pressure `z`, the time of the last
      step, the step counter and the latest finger motion. */
  datatype GlideStatus = GlideStatus(
    v0: int, x: int, y: int, z: u16, timer: nat, counter: u16, dx: int, dy: int)

  predicate IsI32(v: int) { I32_MIN <= v <= I32_MAX }

  /** The fields have their source widths, and `v0`, only ever set from a
      square root, is not negative. */
  predicate StatusWf(s: GlideStatus)
  {
    IsI32(s.x) && IsI32(s.y) && IsI32(s.dx) && IsI32(s.dy) && 0 <= s.v0 <= I32_MAX
  }

  /** `GlideStatus::default()`. */
  const DEFAULT: GlideStatus := GlideStatus(0, 0, 0, 0, 0, 0, 0, 0)

  /** `saturating_i32_to_i8`. */
  function SaturateI8(v: int): (r: int)
    ensures I8_MIN <= r <= I8_MAX
    ensures I8_MIN <= v <= I8_MAX ==> r == v
    ensures v < I8_MIN ==> r == I8_MIN
    ensures v > I8_MAX ==> r == I8_MAX
  {
    Clamp(v, I8_MIN, I8_MAX)
  }

  lemma DivAtMost(n: nat, d: int)
    requires d > 0
    ensures n / d <= n
  {
    if n / d > 0 {
      MulAtLeast(n / d, d);
      assert (n / d) * d <= n;
    }
  }

  /** `update`: the new finger motion (an `i16` pair widened to `i32`) and
      pressure. */
  function Update(s: GlideStatus, dx: int, dy: int, z: u16): (s': GlideStatus)
    requires -0x8000 <= dx < 0x8000 && -0x8000 <= dy < 0x8000
    ensures s'.dx == dx && s'.dy == dy && s'.z == z
    ensures s'.v0 == s.v0 && s'.x == s.x && s'.y == s.y
    ensures s'.timer == s.timer && s'.counter == s.counter
    ensures StatusWf(s) ==> StatusWf(s')
  {
    s.(dx := dx, dy := dy, z := z)
  }

  /** The displacement after `c` steps, p = v0 c - coefficient c^2 / 2,
      each operation wrapping. */
  function Displacement(v0: int, coefficient: u8, c: u16): (p: int)
    ensures IsI32(p)
    ensures IsI32(v0 * c) && IsI32(coefficient * c * c) && IsI32(v0 * c - TDiv(coefficient * c * c, 2))
      ==> p == v0 * c - TDiv(coefficient * c * c, 2)
  {
    var cc := WrapI32(coefficient * c);
    ProductFits(coefficient, c);
    var decel := WrapI32(cc * c);
    WrapI32(WrapI32(v0 * c) - TDiv(decel, 2))
  }

  /** The deceleration's first product never wraps: 255 * 65535 < 2^31. */
  lemma ProductFits(coefficient: u8, c: u16)
    ensures 0 <= coefficient * c <= I32_MAX
  {
    MulLeq(coefficient, 255, c);
    MulLeq(c, 65535, 255);
  }

  /** The position along one axis: the displacement times the finger's
      motion on that axis, over the initial speed. */
  function Share(p: int, d: int, v0: int): (x: int)
    requires v0 > 0
    ensures IsI32(x)
    ensures x == TDiv(WrapI32(p * d), v0)
  {
    var w := WrapI32(p * d);
    TDivBetween(w, v0);
    TDiv(w, v0)
  }

  /** Truncating division by a positive divisor lands between 0 and the
      dividend. */
  lemma TDivBetween(a: int, b: int)
    requires b > 0
    ensures a >= 0 ==> 0 <= TDiv(a, b) <= a
    ensures a < 0 ==> a <= TDiv(a, b) <= 0
  {
    DivAtMost(Abs(a), b);
  }

  /** `generate`: one glide step. A zero speed ends the glide. Otherwise
      the counter advances, the position is the displacement shared out
      along the finger's direction, and the step is the change in position.
      A step in [-1, 1) on both axes ends the glide; any other step is
      recorded. Either way the step is reported, saturated to `i8`. */
  function Generate(cfg: GlideConfig, s: GlideStatus, now: nat): (r: (GlideStatus, Option<Glide>))
    requires StatusWf(s)
    ensures StatusWf(r.0)
    ensures s.v0 == 0 ==> r == (DEFAULT, None)
    ensures s.v0 != 0 ==> r.1.Some?
    ensures r.1.Some? ==> I8_MIN <= r.1.value.dx <= I8_MAX && I8_MIN <= r.1.value.dy <= I8_MAX
    ensures s.v0 != 0 ==>
      var c := WrapU16(s.counter + 1);
      var p := Displacement(s.v0, cfg.coefficient, c);
      var x := Share(p, s.dx, s.v0);
      var y := Share(p, s.dy, s.v0);
      var stepX := WrapI32(x - s.x);
      var stepY := WrapI32(y - s.y);
      && r.1 == Some(Glide(SaturateI8(stepX), SaturateI8(stepY)))
      && (r.0 == DEFAULT <==> -1 <= stepX < 1 && -1 <= stepY < 1)
      && (r.0 != DEFAULT ==> r.0 == s.(x := x, y := y, timer := now, counter := c))
  {
    if s.v0 == 0 then (DEFAULT, None)
    else
      var c := WrapU16(s.counter + 1);
      var p := Displacement(s.v0, cfg.coefficient, c);
      var x := Share(p, s.dx, s.v0);
      var y := Share(p, s.dy, s.v0);
      var stepX := WrapI32(x - s.x);
      var stepY := WrapI32(y - s.y);
      var s' := if -1 <= stepX < 1 && -1 <= stepY < 1 then DEFAULT
                else s.(x := x, y := y, timer := now, counter := c);
      (s', Some(Glide(SaturateI8(stepX), SaturateI8(stepY))))
  }

  /** When no product wraps, the position `generate` records after `c`
      steps is the exact kinematic one: the distance v0 c - coefficient
      c^2 / 2 travelled along the finger's direction (dx, dy) / v0, each
      division truncating. */
  lemma GlidePositionExact(cfg: GlideConfig, s: GlideStatus, now: nat)
    requires StatusWf(s) && s.v0 != 0
    requires var c := WrapU16(s.counter + 1);
      var p := s.v0 * c - TDiv(cfg.coefficient * c * c, 2);
      IsI32(s.v0 * c) && IsI32(cfg.coefficient * c * c) && IsI32(p) && IsI32(p * s.dx) && IsI32(p * s.dy)
    requires Generate(cfg, s, now).0 != DEFAULT
    ensures var c := WrapU16(s.counter + 1);
      var p := s.v0 * c - TDiv(cfg.coefficient * c * c, 2);
      Generate(cfg, s, now).0.x == TDiv(p * s.dx, s.v0) && Generate(cfg, s, now).0.y == TDiv(p * s.dy, s.v0)
      && Generate(cfg, s, now).0.counter == c
  {
  }

  /** `check`, polled periodically: nothing happens while the finger is
      down, when there is no motion to continue, or before the interval has
      passed since the last step. */
  function Check(cfg: GlideConfig, s: GlideStatus, now: nat): (r: (GlideStatus, Option<Glide>))
    requires StatusWf(s) && now >= s.timer
    ensures StatusWf(r.0)
    ensures s.z != 0 || (s.dx == 0 && s.dy == 0) || now - s.timer < cfg.interval ==> r == (s, None)
    ensures s.z == 0 && (s.dx != 0 || s.dy != 0) && now - s.timer >= cfg.interval ==>
      r == Generate(cfg, s, now)
  {
    if s.z != 0 || (s.dx == 0 && s.dy == 0) || now - s.timer < cfg.interval then (s, None)
    else Generate(cfg, s, now)
  }

  /** The `i32` value whose root is the initial speed,
      (256 dx)^2 + (256 dy)^2 with every operation wrapping. */
  function SpeedSquared(dx: int, dy: int): (q: int)
    ensures IsI32(q)
  {
    var a := WrapI32(dx * 256);
    var b := WrapI32(dy * 256);
    WrapI32(WrapI32(a * a) + WrapI32(b * b))
  }

  /** The initial speed `v0`: 0 for no motion, otherwise the floor root
      of `SpeedSquared`, which panics when the wrapped square is negative. */
  function Speed(dx: int, dy: int): (r: Result<int>)
    ensures r.Panic? <==> (dx != 0 || dy != 0) && SpeedSquared(dx, dy) < 0
    ensures r.Ok? ==> 0 <= r.value <= I32_MAX
    ensures r.Ok? && (dx != 0 || dy != 0) ==> r.value == FloorSqrt(SpeedSquared(dx, dy))
    ensures r.Ok? && dx == 0 && dy == 0 ==> r.value == 0
  {
    if dx == 0 && dy == 0 then Ok(0)
    else
      var sq := SpeedSquared(dx, dy);
      if sq < 0 then Panic("the square root of a negative is imaginary")
      else
        var v0: nat := FloorSqrt(sq);
        RootBelow(sq, v0);
        Ok(v0)
  }

  /** `start`, when the finger lifts: below the trigger speed the glide is
      cancelled, otherwise a fresh glide begins at the current position
      and takes its first step. */
  function Start(cfg: GlideConfig, s: GlideStatus, now: nat): (r: Result<(GlideStatus, Option<Glide>)>)
    requires StatusWf(s)
    ensures r.Panic? <==> (s.dx != 0 || s.dy != 0) && SpeedSquared(s.dx, s.dy) < 0
    ensures r.Ok? ==> StatusWf(r.value.0)
    ensures r.Ok? && Speed(s.dx, s.dy).value >= cfg.triggerPx * 256 ==>
      r.value == Generate(cfg, GlideStatus(Speed(s.dx, s.dy).value, 0, 0, 0, now, 0, s.dx, s.dy), now)
    ensures r.Ok? && Speed(s.dx, s.dy).value < cfg.triggerPx * 256 ==> r.value == (DEFAULT, None)
    ensures r.Ok? && s.dx == 0 && s.dy == 0 ==> r.value == (DEFAULT, None)
  {
    match Speed(s.dx, s.dy)
    case Panic(why) => Panic(why)
    case Ok(v0) =>
      if v0 < cfg.triggerPx * 256 then Ok((DEFAULT, None))
      else Ok(Generate(cfg, GlideStatus(v0, 0, 0, 0, now, 0, s.dx, s.dy), now))
  }

  lemma RootBelow(n: nat, r: nat)
    requires r * r <= n && n <= I32_MAX
    ensures r <= I32_MAX
  {
    if r > I32_MAX {
      MulMono(I32_MAX, r);
      assert false;
    }
  }

  /** After a reset the glide is quiet: with no motion recorded, `check`
      reports nothing and changes nothing, whenever it is polled. */
  lemma ResetIsQuiet(cfg: GlideConfig, now: nat)
    ensures StatusWf(DEFAULT)
    ensures Check(cfg, DEFAULT, now) == (DEFAULT, None)
  {
  }

  /** For motions of at most 127 pixels per axis nothing wraps: the
      initial speed is exactly the floor of 256 sqrt(dx^2 + dy^2). */
  lemma {:induction false} SmallMotionSpeed(dx: int, dy: int)
    requires -127 <= dx <= 127 && -127 <= dy <= 127
    ensures SpeedSquared(dx, dy) == (256 * dx) * (256 * dx) + (256 * dy) * (256 * dy)
    ensures SpeedSquared(dx, dy) >= 0
  {
    SquareBound(dx);
    SquareBound(dy);
  }

  lemma SquareBound(d: int)
    requires -127 <= d <= 127
    ensures 0 <= (256 * d) * (256 * d) <= 32512 * 32512
  {
    var a := Abs(256 * d);
    assert a <= 32512;
    MulMono(a, 32512);
    assert (256 * d) * (256 * d) == a * a;
  }

  /** For motions of at most 127 pixels per axis `start` never panics. */
  lemma SmallMotionStarts(cfg: GlideConfig, s: GlideStatus, now: nat)
    requires StatusWf(s) && -127 <= s.dx <= 127 && -127 <= s.dy <= 127
    ensures Start(cfg, s, now).Ok?
  {
    SmallMotionSpeed(s.dx, s.dy);
  }

  /** A motion of (128, 128) makes the wrapped square exactly -2^31, so
      `start` panics in the root. */
  lemma DiagonalMotionPanics(cfg: GlideConfig, s: GlideStatus, now: nat)
    requires StatusWf(s) && s.dx == 128 && s.dy == 128
    ensures SpeedSquared(s.dx, s.dy) == I32_MIN
    ensures Start(cfg, s, now).Panic?
  {
    assert WrapI32(128 * 256) == 32768;
    assert WrapI32(32768 * 32768) == 0x4000_0000;
    assert WrapI32(0x4000_0000 + 0x4000_0000) == I32_MIN;
  }

  /** A flick of (3, 4) pixels has speed 1280 (5 pixels, scaled by 256):
      with a trigger of 2 pixels it glides. With coefficient 16 the first
      displacement is 1280 - 8 = 1272, shared out as (2, 3) after
      truncation, and that first step is recorded with the step time. */
  lemma FlickFirstStep(now: nat)
    ensures var s := Update(DEFAULT, 3, 4, 0);
      Start(GlideConfig(16, 10, 2), s, now)
        == Ok((GlideStatus(1280, 2, 3, 0, now, 1, 3, 4), Some(Glide(2, 3))))
  {
    var s := Update(DEFAULT, 3, 4, 0);
    assert SpeedSquared(3, 4) == 1280 * 1280;
    FloorSqrtUnique(1280 * 1280, 1280);
    assert Displacement(1280, 16, 1) == 1272;
    assert WrapI32(1272 * 3) == 3816 && Share(1272, 3, 1280) == 2;
    assert WrapI32(1272 * 4) == 5088 && Share(1272, 4, 1280) == 3;
  }
}
