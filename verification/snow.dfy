/** The snow animation's bookkeeping (firmware/src/rgb/animations/snow.rs).
    Flakes live in a deque of 16, newest at the front; each remembers the
    column ("weight bin") it fell in, and `column_weights` counts the live
    flakes per column so that new flakes favour empty columns.

    The random generator's choice among the weighted columns is a
    parameter, reduced into range; a flake's colour is left out. */
module Snow {

  import opened Util
  import opened MathUtils

  const CAPACITY: nat := 16
  /** `column_weights` is a `[u8; 5]`. */
  const NUM_COLS: nat := 5
  /** `TICK_RATE`, 0.5. */
  const TICK_RATE: int := ONE / 2
  /** `Y_BOUNDS` is -30..90. */
  const Y_START: int := -30
  const Y_END: int := 90
  /** 0.7 in `I16F16`, rounded to the nearest bit pattern. */
  const FALL: int := 45875
  /** 15.0, the least age of the newest flake before another spawns. */
  const SPAWN_GAP: int := 15 * ONE

  /** `x` and `y` are `I16F16` bits, `instant` `U16F16` bits. */
  datatype Flake = Flake(bin: u8, x: int, y: int, instant: u32)

  datatype Snow = Snow(tick: u32, flakes: seq<Flake>, weights: seq<u8>)

  /** What the types guarantee: five weights, bins naming a column. */
  predicate Shaped(s: Snow)
  {
    |s.weights| == NUM_COLS && forall i :: 0 <= i < |s.flakes| ==> s.flakes[i].bin < NUM_COLS
  }

  /** The column x-positions, `left::COLUMNS` or `right::COLUMNS`. */
  predicate Columns(cols: seq<int>)
  {
    |cols| == NUM_COLS && forall i :: 0 <= i < NUM_COLS ==> I16_MIN <= cols[i] <= I16_MAX
  }

  function Bins(flakes: seq<Flake>): (bins: seq<u8>)
    ensures |bins| == |flakes| && forall i :: 0 <= i < |flakes| ==> bins[i] == flakes[i].bin
  {
    seq(|flakes|, i requires 0 <= i < |flakes| => flakes[i].bin)
  }

  /** The invariant the animation keeps: at most 16 flakes, and each
      column's weight is the number of live flakes in it. */
  predicate Wf(s: Snow)
  {
    Shaped(s) && |s.flakes| <= CAPACITY
    && forall b :: 0 <= b < NUM_COLS ==> s.weights[b] == Count(Bins(s.flakes), b)
  }

  function Default(): (s: Snow)
    ensures Wf(s) && s.flakes == []
  {
    Snow(0, [], [0, 0, 0, 0, 0])
  }

  lemma {:induction false} CountRepeat<T>(x: T, n: nat, y: T)
    ensures Count(Repeat(x, n), y) == if x == y then n else 0
    decreases n
  {
    if n > 0 {
      assert Repeat(x, n)[1..] == Repeat(x, n - 1);
      CountRepeat(x, n - 1, y);
    }
  }

  /** `weights.iter().sum()` into a `u8`, wrapping. */
  function Total(weights: seq<u8>): nat
  {
    if weights == [] then 0 else weights[0] + Total(weights[1..])
  }

  /** The entries `weighted_iter` chains for columns `i` to 4: column j
      repeated 1 + (total - weights[j]) times, the subtraction in `u8`. */
  function WeightedFrom(weights: seq<u8>, cols: seq<int>, total: u8, i: nat): (items: seq<(u8, int)>)
    requires |weights| == NUM_COLS && |cols| == NUM_COLS && i <= NUM_COLS
    ensures |items| >= NUM_COLS - i
    ensures forall k :: 0 <= k < |items| ==>
      i <= items[k].0 < NUM_COLS && items[k].1 == cols[items[k].0]
    decreases NUM_COLS - i
  {
    if i == NUM_COLS then []
    else
      var head := Repeat((i as u8, cols[i]), Entries(weights, total, i));
      var rest := WeightedFrom(weights, cols, total, i + 1);
      WeightedConcat(cols, i, head, rest);
      head + rest
  }

  /** Prepending column `i`'s entries keeps every entry tagged with its
      column and value. */
  lemma WeightedConcat(cols: seq<int>, i: nat, head: seq<(u8, int)>, rest: seq<(u8, int)>)
    requires |cols| == NUM_COLS && i < NUM_COLS
    requires forall k :: 0 <= k < |head| ==> head[k] == (i as u8, cols[i])
    requires forall k :: 0 <= k < |rest| ==> i + 1 <= rest[k].0 < NUM_COLS && rest[k].1 == cols[rest[k].0]
    ensures forall k :: 0 <= k < |head + rest| ==>
      i <= (head + rest)[k].0 < NUM_COLS && (head + rest)[k].1 == cols[(head + rest)[k].0]
  {
    var items := head + rest;
    forall k | 0 <= k < |items|
      ensures i <= items[k].0 < NUM_COLS && items[k].1 == cols[items[k].0]
    {
      if k < |head| {
        assert items[k] == head[k];
      } else {
        assert items[k] == rest[k - |head|];
      }
    }
  }

  /** How many entries column `i` gets. */
  function Entries(weights: seq<u8>, total: u8, i: nat): (n: nat)
    requires |weights| == NUM_COLS && i < NUM_COLS
    ensures n >= 1
  {
    1 + WrapU8(total as int - weights[i] as int)
  }

  /** The columns come in order. */
  lemma {:induction false} WeightedFromSorted(weights: seq<u8>, cols: seq<int>, total: u8, i: nat)
    requires |weights| == NUM_COLS && |cols| == NUM_COLS && i <= NUM_COLS
    ensures var items := WeightedFrom(weights, cols, total, i);
      forall k, l :: 0 <= k <= l < |items| ==> items[k].0 <= items[l].0
    decreases NUM_COLS - i
  {
    if i < NUM_COLS {
      var head := Repeat((i as u8, cols[i]), Entries(weights, total, i));
      var rest := WeightedFrom(weights, cols, total, i + 1);
      WeightedFromSorted(weights, cols, total, i + 1);
      var items := head + rest;
      assert items == WeightedFrom(weights, cols, total, i);
      forall k, l | 0 <= k <= l < |items|
        ensures items[k].0 <= items[l].0
      {
        if l < |head| {
        } else if k < |head| {
          assert items[l] == rest[l - |head|];
        } else {
          assert items[k] == rest[k - |head|] && items[l] == rest[l - |head|];
        }
      }
    }
  }

  /** Column j appears exactly its number of entries. */
  lemma {:induction false} WeightedFromCounts(weights: seq<u8>, cols: seq<int>, total: u8, i: nat, j: u8)
    requires |weights| == NUM_COLS && |cols| == NUM_COLS && i <= j < NUM_COLS
    ensures Count(WeightedFrom(weights, cols, total, i), (j, cols[j])) == Entries(weights, total, j)
    decreases NUM_COLS - i
  {
    var head := Repeat((i as u8, cols[i]), Entries(weights, total, i));
    var rest := WeightedFrom(weights, cols, total, i + 1);
    assert WeightedFrom(weights, cols, total, i) == head + rest;
    CountAppend(head, rest, (j, cols[j]));
    CountRepeat((i as u8, cols[i]), Entries(weights, total, i), (j, cols[j]));
    if j == i {
      CountAbsent(rest, (j, cols[j]));
    } else {
      WeightedFromCounts(weights, cols, total, i + 1, j);
    }
  }

  lemma {:induction false} CountAbsent<T>(s: seq<T>, x: T)
    requires forall k :: 0 <= k < |s| ==> s[k] != x
    ensures Count(s, x) == 0
    decreases |s|
  {
    if s != [] {
      CountAbsent(s[1..], x);
    }
  }

  /** `weighted_iter`: every column appears, each entry pairing the column
      with its x-position, so `choose` always finds one. */
  function WeightedIter(weights: seq<u8>, cols: seq<int>): (items: seq<(u8, int)>)
    requires |weights| == NUM_COLS && |cols| == NUM_COLS
    ensures |items| >= NUM_COLS
    ensures forall k :: 0 <= k < |items| ==> items[k].0 < NUM_COLS && items[k].1 == cols[items[k].0]
  {
    WeightedFrom(weights, cols, WrapU8(Total(weights)), 0)
  }

  /** The entries come in column order, column j exactly
      1 + (total - weights[j]) times with the `u8` sum and subtraction. */
  lemma WeightedIterCounts(weights: seq<u8>, cols: seq<int>, j: u8)
    requires |weights| == NUM_COLS && |cols| == NUM_COLS && j < NUM_COLS
    ensures var items := WeightedIter(weights, cols);
      (forall k, l :: 0 <= k <= l < |items| ==> items[k].0 <= items[l].0)
      && Count(items, (j, cols[j])) == Entries(weights, WrapU8(Total(weights)), j)
  {
    WeightedFromSorted(weights, cols, WrapU8(Total(weights)), 0);
    WeightedFromCounts(weights, cols, WrapU8(Total(weights)), 0, j);
  }

  /** With at most 255 flakes in all, nothing wraps: column j appears
      1 + total - weights[j] times, so a column holding fewer flakes is
      at least as likely to be chosen. */
  lemma LighterColumnsFavoured(weights: seq<u8>, cols: seq<int>, i: u8, j: u8)
    requires |weights| == NUM_COLS && |cols| == NUM_COLS && Total(weights) < U8_LIMIT
    requires i < NUM_COLS && j < NUM_COLS
    ensures Count(WeightedIter(weights, cols), (i, cols[i])) == 1 + Total(weights) - weights[i]
    ensures weights[i] <= weights[j] ==>
      Count(WeightedIter(weights, cols), (i, cols[i])) >= Count(WeightedIter(weights, cols), (j, cols[j]))
  {
    TotalCovers(weights, i);
    TotalCovers(weights, j);
    var total := WrapU8(Total(weights));
    assert total == Total(weights);
    WeightedIterCounts(weights, cols, i);
    WeightedIterCounts(weights, cols, j);
    assert Entries(weights, total, i) == 1 + Total(weights) - weights[i];
    assert Entries(weights, total, j) == 1 + Total(weights) - weights[j];
  }

  lemma {:induction false} TotalCovers(weights: seq<u8>, i: nat)
    requires i < |weights|
    ensures weights[i] <= Total(weights)
  {
    if i > 0 {
      TotalCovers(weights[1..], i - 1);
    }
  }

  /** `choose` on `weighted_iter`: the generator's pick among the entries.
      The iterator is never empty, so the `else { return; }` of the source
      is never taken. */
  function Choose(weights: seq<u8>, cols: seq<int>, pick: nat): (c: (u8, int))
    requires |weights| == NUM_COLS && |cols| == NUM_COLS
    ensures c.0 < NUM_COLS && c.1 == cols[c.0]
    ensures c in WeightedIter(weights, cols)
  {
    var items := WeightedIter(weights, cols);
    items[pick % |items|]
  }

  /** Stage 1 of `tick`: the oldest flake goes once it is below the
      bottom, and its column's weight drops (a `u8` subtraction). */
  function Expire(s: Snow): (r: Snow)
    requires Shaped(s)
    ensures Shaped(r) && r.tick == s.tick
    ensures var n := |s.flakes|;
      if n > 0 && s.flakes[n - 1].y < Y_START * ONE then
        r.flakes == s.flakes[..n - 1]
        && r.weights == s.weights[s.flakes[n - 1].bin := WrapU8(s.weights[s.flakes[n - 1].bin] as int - 1)]
      else r == s
  {
    var n := |s.flakes|;
    if n > 0 && s.flakes[n - 1].y < Y_START * ONE then
      var bin := s.flakes[n - 1].bin;
      Snow(s.tick, s.flakes[..n - 1], s.weights[bin := WrapU8(s.weights[bin] as int - 1)])
    else s
  }

  /** The number of flakes that survive expiry: all but the oldest, when
      that one is below the bottom. */
  function Kept(s: Snow): (kept: nat)
    ensures kept == |s.flakes| || kept == |s.flakes| - 1
  {
    var n := |s.flakes|;
    if n > 0 && s.flakes[n - 1].y < Y_START * ONE then n - 1 else n
  }

  /** One flake's fall by 0.7 (wrapping `I16F16`); nothing else of it
      changes. */
  function Drop(f: Flake): (g: Flake)
    ensures g.bin == f.bin && g.x == f.x && g.instant == f.instant
    ensures g.y == WrapI32(f.y - FALL)
  {
    f.(y := WrapI32(f.y - FALL))
  }

  /** Stage 2: every flake moves down by 0.7 (wrapping `I16F16`). */
  function Fall(flakes: seq<Flake>): (r: seq<Flake>)
    ensures |r| == |flakes|
    ensures forall i :: 0 <= i < |r| ==> r[i] == Drop(flakes[i])
  {
    seq(|flakes|, i requires 0 <= i < |flakes| => Drop(flakes[i]))
  }

  /** Stage 3: when the deque has room and the newest flake is more than
      15.0 ticks old (or there is none), a flake spawns at the top of the
      chosen column, stamped with the current tick, and that column's
      weight grows (a `u8` addition). */
  function Spawn(s: Snow, cols: seq<int>, pick: nat): (r: Snow)
    requires Shaped(s) && Columns(cols)
    ensures Shaped(r) && r.tick == s.tick
    ensures !SpawnDue(s) ==> r == s
    ensures SpawnDue(s) ==>
      |r.flakes| == |s.flakes| + 1 && r.flakes[1..] == s.flakes
      && var f := r.flakes[0];
      f.y == Y_END * ONE && f.instant == s.tick && f.x == cols[f.bin] * ONE
      && r.weights == s.weights[f.bin := WrapU8(s.weights[f.bin] as int + 1)]
  {
    if SpawnDue(s) then
      var (bin, x) := Choose(s.weights, cols, pick);
      var f := Flake(bin, x * ONE, Y_END * ONE, s.tick);
      var flakes := [f] + s.flakes;
      assert flakes[1..] == s.flakes && flakes[0] == f;
      assert forall i :: 1 <= i < |flakes| ==> flakes[i] == s.flakes[i - 1];
      Snow(s.tick, flakes, s.weights[bin := WrapU8(s.weights[bin] as int + 1)])
    else s
  }

  /** The deque has room and the newest flake is more than 15.0 old. */
  predicate SpawnDue(s: Snow)
  {
    |s.flakes| < CAPACITY && (s.flakes == [] || TickDelta(s.flakes[0].instant, s.tick) > SPAWN_GAP)
  }

  /** `tick`: advance the clock by 0.5 (wrapping), expire, fall, spawn. */
  function Tick(s: Snow, cols: seq<int>, pick: nat): (r: Snow)
    requires Shaped(s) && Columns(cols)
    ensures Shaped(r) && r.tick == WrapU32(s.tick + TICK_RATE)
  {
    Spawn(Advance(s), cols, pick)
  }

  /** The stages before the spawn: the clock moves on, at most the oldest
      flake goes, and only when below the bottom, and the others keep
      their order and column and move down by 0.7. */
  function Advance(s: Snow): (r: Snow)
    requires Shaped(s)
    ensures Shaped(r) && r.tick == WrapU32(s.tick + TICK_RATE)
    ensures var kept := Kept(s);
      |r.flakes| == kept
      && forall i :: 0 <= i < kept ==> r.flakes[i] == Drop(s.flakes[i])
    ensures Wf(s) ==> Wf(r)
  {
    var clocked := s.(tick := WrapU32(s.tick + TICK_RATE));
    var expired := Expire(clocked);
    SurvivorsFall(s);
    if Wf(s) then
      ExpireKeepsCounts(clocked);
      var fallen := expired.(flakes := Fall(expired.flakes));
      assert Bins(fallen.flakes) == Bins(expired.flakes);
      fallen
    else
      expired.(flakes := Fall(expired.flakes))
  }

  /** What a tick does to the flakes: the survivors of `Advance`, behind
      at most one new flake at the front. */
  lemma TickBookkeeping(s: Snow, cols: seq<int>, pick: nat)
    requires Shaped(s) && Columns(cols)
    ensures var r := Tick(s, cols, pick);
      |r.flakes| == Kept(s) || |r.flakes| == Kept(s) + 1
    ensures var r := Tick(s, cols, pick);
      |r.flakes| == Kept(s) ==>
        forall i :: 0 <= i < Kept(s) ==> r.flakes[i] == Drop(s.flakes[i])
    ensures var r := Tick(s, cols, pick);
      |r.flakes| == Kept(s) + 1 ==>
        forall i :: 0 <= i < Kept(s) ==> r.flakes[i + 1] == Drop(s.flakes[i])
  {
    SpawnShifts(Advance(s), cols, pick);
  }

  /** Expiry and fall together: the first `kept` flakes, moved down. */
  lemma SurvivorsFall(s: Snow)
    requires Shaped(s)
    ensures var kept := Kept(s);
      var expired := Expire(s.(tick := WrapU32(s.tick + TICK_RATE)));
      var fallen := Fall(expired.flakes);
      |fallen| == kept
      && forall i :: 0 <= i < kept ==> fallen[i] == Drop(s.flakes[i])
  {
    var n := |s.flakes|;
    var kept := Kept(s);
    var expired := Expire(s.(tick := WrapU32(s.tick + TICK_RATE)));
    assert expired.flakes == s.flakes[..kept];
  }

  /** A spawn keeps the flakes there were, behind at most one new one. */
  lemma SpawnShifts(s: Snow, cols: seq<int>, pick: nat)
    requires Shaped(s) && Columns(cols)
    ensures var r := Spawn(s, cols, pick);
      var born := |r.flakes| - |s.flakes|;
      (born == 0 || born == 1)
      && forall i :: 0 <= i < |s.flakes| ==> r.flakes[born + i] == s.flakes[i]
  {
    var r := Spawn(s, cols, pick);
    if SpawnDue(s) {
      assert forall i :: 0 <= i < |s.flakes| ==> r.flakes[1 + i] == r.flakes[1..][i];
    }
  }

  /** A new flake appears only when the survivors left room, at the top,
      stamped with the new tick. */
  lemma TickSpawnsAtTop(s: Snow, cols: seq<int>, pick: nat)
    requires Shaped(s) && Columns(cols)
    ensures var kept := Kept(s);
      var r := Tick(s, cols, pick);
      |r.flakes| == kept + 1 ==>
        kept < CAPACITY && r.flakes[0].y == Y_END * ONE && r.flakes[0].instant == r.tick
  {
    var fallen := Advance(s);
    assert Tick(s, cols, pick) == Spawn(fallen, cols, pick);
  }

  /** The invariant holds at every tick: the weights keep counting the
      flakes of each column (so no `u8` weight ever wraps), and there are
      never more than 16 flakes. */
  lemma TickPreservesWf(s: Snow, cols: seq<int>, pick: nat)
    requires Wf(s) && Columns(cols)
    ensures Wf(Tick(s, cols, pick))
  {
    SpawnKeepsCounts(Advance(s), cols, pick);
  }

  lemma ExpireKeepsCounts(s: Snow)
    requires Wf(s)
    ensures Wf(Expire(s))
  {
    var n := |s.flakes|;
    if n > 0 && s.flakes[n - 1].y < Y_START * ONE {
      var last := s.flakes[n - 1].bin;
      var rest := s.flakes[..n - 1];
      assert Bins(s.flakes) == Bins(rest) + [last];
      forall b | 0 <= b < NUM_COLS
        ensures Count(Bins(s.flakes), b) == Count(Bins(rest), b) + (if b == last then 1 else 0)
      {
        CountAppend(Bins(rest), [last], b);
        assert Count([last], b) == (if b == last then 1 else 0) + Count([last][1..], b);
      }
    }
  }

  lemma SpawnKeepsCounts(s: Snow, cols: seq<int>, pick: nat)
    requires Wf(s) && Columns(cols)
    ensures Wf(Spawn(s, cols, pick))
  {
    var r := Spawn(s, cols, pick);
    if |r.flakes| == |s.flakes| + 1 {
      var f := r.flakes[0];
      assert r.flakes == [f] + s.flakes;
      assert Bins(r.flakes) == [f.bin] + Bins(s.flakes);
      forall b | 0 <= b < NUM_COLS
        ensures Count(Bins(r.flakes), b) == Count(Bins(s.flakes), b) + (if b == f.bin then 1 else 0)
      {
        assert ([f.bin] + Bins(s.flakes))[1..] == Bins(s.flakes);
      }
    }
  }
}
