/** The rain animation's bookkeeping (firmware/src/rgb/animations/rain.rs).
    Splashes live in a deque of 4, newest at the front; a splash appears
    every 70 ticks somewhere on the board and is forgotten 200 ticks
    later. The halves run their own splashes and share only the colour.

    The random generator's draws of a splash position are parameters,
    reduced into the bounds as `gen_range` would. */
module Rain {

  import opened Util
  import opened MathUtils

  const CAPACITY: nat := 4
  /** `TICK_RATE`, 0.5. */
  const TICK_RATE: int := ONE / 2
  /** `BOUNDS`: x in -20..100, y in -30..70. */
  const X_START: int := -20
  const X_END: int := 100
  const Y_START: int := -30
  const Y_END: int := 70
  /** 200.0, the age past which the oldest splash goes. */
  const LIFETIME: int := 200 * ONE
  /** 70.0, the least age of the newest splash before another appears. */
  const SPAWN_GAP: int := 70 * ONE

  /** `x` and `y` are `I16F16` bits, `instant` `U16F16` bits. */
  datatype Splash = Splash(x: int, y: int, instant: u32)

  datatype Rain = Rain(tick: u32, colour: Rgb, splashes: seq<Splash>)

  /** The deque never holds more than its capacity. */
  predicate Wf(s: Rain)
  {
    |s.splashes| <= CAPACITY
  }

  /** `gen_range` over `start..end`, from a draw reduced into range. */
  function GenRange(start: int, end: int, draw: nat): (v: int)
    requires start < end
    ensures start <= v < end
  {
    start + draw % (end - start)
  }

  /** The oldest splash is more than 200 ticks old. */
  predicate Expires(splashes: seq<Splash>, tick: u32)
  {
    |splashes| > 0 && TickDelta(splashes[|splashes| - 1].instant, tick) > LIFETIME
  }

  /** There is no splash, or the newest is more than 70 ticks old. */
  predicate SpawnDue(splashes: seq<Splash>, tick: u32)
  {
    splashes == [] || TickDelta(splashes[0].instant, tick) > SPAWN_GAP
  }

  /** `tick`: advance the clock by 0.5 (wrapping), drop the oldest splash
      when it has expired, then add a splash at a random position, stamped
      with the new tick, when the newest is old enough. `push_front` on a
      full deque fails and the result is ignored, so the splash is lost. */
  function Tick(s: Rain, xDraw: nat, yDraw: nat): (r: Rain)
    ensures r.tick == WrapU32(s.tick + TICK_RATE) && r.colour == s.colour
    ensures Wf(s) ==> Wf(r)
  {
    var tick := WrapU32(s.tick + TICK_RATE);
    var n := |s.splashes|;
    var kept := if Expires(s.splashes, tick) then s.splashes[..n - 1] else s.splashes;
    var splashes :=
      if SpawnDue(kept, tick) && |kept| < CAPACITY then
        var x := GenRange(X_START, X_END, xDraw);
        var y := GenRange(Y_START, Y_END, yDraw);
        [Splash(x * ONE, y * ONE, tick)] + kept
      else kept;
    Rain(tick, s.colour, splashes)
  }

  /** What a tick does to the splashes: the oldest goes exactly when it has
      expired; the rest stay, in order, behind at most one new splash,
      which comes exactly when one is due and there is room, lies inside
      the bounds and carries the new tick. */
  lemma TickBookkeeping(s: Rain, xDraw: nat, yDraw: nat)
    ensures var r := Tick(s, xDraw, yDraw);
      var n := |s.splashes|;
      var kept := if Expires(s.splashes, r.tick) then n - 1 else n;
      var due := SpawnDue(s.splashes[..kept], r.tick) && kept < CAPACITY;
      |r.splashes| == (if due then kept + 1 else kept)
      && r.splashes[|r.splashes| - kept..] == s.splashes[..kept]
      && (due ==>
        var p := r.splashes[0];
        p.instant == r.tick
        && X_START * ONE <= p.x < X_END * ONE && p.x % ONE == 0
        && Y_START * ONE <= p.y < Y_END * ONE && p.y % ONE == 0)
  {
    var r := Tick(s, xDraw, yDraw);
    var n := |s.splashes|;
    var kept := if Expires(s.splashes, r.tick) then n - 1 else n;
    assert s.splashes[..n] == s.splashes;
    var due := SpawnDue(s.splashes[..kept], r.tick) && kept < CAPACITY;
    if due {
      assert r.splashes == [r.splashes[0]] + s.splashes[..kept];
      assert r.splashes[1..] == s.splashes[..kept];
    }
  }

  /** `construct_sync`: the colour is all that the halves share. */
  function ConstructSync(s: Rain): (c: Rgb)
    ensures NewFromSync(c).colour == s.colour
    ensures Sync(s, c) == s
  {
    s.colour
  }

  /** `sync`: take the other half's colour. */
  function Sync(s: Rain, c: Rgb): (r: Rain)
    ensures r.colour == c && r.tick == s.tick && r.splashes == s.splashes
    ensures Wf(s) ==> Wf(r)
  {
    s.(colour := c)
  }

  /** `new_from_sync`: a fresh animation in the given colour; the
      default's random colour is replaced. */
  function NewFromSync(c: Rgb): (r: Rain)
    ensures r.colour == c && r.tick == 0 && r.splashes == [] && Wf(r)
  {
    Rain(0, c, [])
  }

  /** Syncing changes only the colour: a half keeps its own splashes and
      clock and shows the other half's colour, and syncing from its own
      message changes nothing. A half built from another's message starts
      with no splash, its clock at 0, in that half's colour. */
  lemma SyncRoundTrip(s: Rain, t: Rain)
    ensures var r := Sync(s, ConstructSync(t));
      r.colour == t.colour && r.tick == s.tick && r.splashes == s.splashes
    ensures Sync(s, ConstructSync(s)) == s
    ensures var n := NewFromSync(ConstructSync(t));
      n.colour == t.colour && n.tick == 0 && n.splashes == [] && Wf(n)
  {
  }
}
