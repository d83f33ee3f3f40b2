/** The chording engine of firmware/src/keys/chord.rs. A chord is a set of
    input keys which, pressed together, stand for its action keys. The
    engine holds back presses of chord keys until a chord completes, a
    non-chord key arrives, or the chord timeout passes, and it swallows the
    releases of a chord's keys after the chord itself was released.

    The `Instant::now()` reads become a `now` parameter, in microseconds
    (embassy's tick); the statically allocated chord table is part of the
    engine state. */
module Chording {

  import opened Util
  import opened KeyEvent

  /** Capacity of the engine's `heapless::Vec`s. */
  const CAPACITY: nat := 16
  /** `CHORD_TIMEOUT`, 40 ms. */
  const CHORD_TIMEOUT: nat := 40_000

  /** `key_map` is the perfect-hash map from input key to its slot in
      `states`, listed in the map's iteration order. */
  datatype Chord = Chord(keyMap: seq<(Key, nat)>, states: seq<bool>, active: bool, action: seq<Key>)

  predicate AllTrue(s: seq<bool>)
  {
    forall i :: 0 <= i < |s| ==> s[i]
  }

  /** What the generated table guarantees and every operation keeps: keys
      are distinct, slots are in range, there is at least one slot, and
      `is_active` says whether every slot is pressed. */
  predicate ChordWf(c: Chord)
  {
    && |c.states| > 0
    && (forall n :: 0 <= n < |c.keyMap| ==> c.keyMap[n].1 < |c.states|)
    && (forall m, n :: 0 <= m < n < |c.keyMap| ==> c.keyMap[m].0 != c.keyMap[n].0)
    && c.active == AllTrue(c.states)
  }

  function Lookup(m: seq<(Key, nat)>, k: Key): (r: Option<nat>)
    ensures r.None? <==> forall n :: 0 <= n < |m| ==> m[n].0 != k
    ensures r.Some? ==> exists n :: 0 <= n < |m| && m[n] == (k, r.value)
  {
    if m == [] then None else if m[0].0 == k then Some(m[0].1) else Lookup(m[1..], k)
  }

  /** `Chord::process`: a key of the chord records its new state and the
      chord recomputes whether it is complete, reporting the new value when
      it changed. */
  function ProcessChord(c: Chord, e: Event): (r: (Chord, Option<bool>))
    requires ChordWf(c)
    ensures ChordWf(r.0)
    ensures r.0.keyMap == c.keyMap && r.0.action == c.action && |r.0.states| == |c.states|
    ensures Lookup(c.keyMap, e.Coord()).None? ==> r == (c, None)
    ensures Lookup(c.keyMap, e.Coord()).Some? ==>
      r.0.states == c.states[Lookup(c.keyMap, e.Coord()).value := e.Press?]
      && r.0.active == AllTrue(r.0.states)
    ensures r.1.Some? <==> r.0.active != c.active
    ensures r.1.Some? ==> r.1.value == r.0.active
  {
    match Lookup(c.keyMap, e.Coord())
    case None => (c, None)
    case Some(slot) =>
      var states := c.states[slot := e.Press?];
      var active := AllTrue(states);
      (c.(states := states, active := active), if active != c.active then Some(active) else None)
  }

  /** `Chord::clear_if_inactive`. */
  function ClearIfInactive(c: Chord): (r: Chord)
    requires ChordWf(c)
    ensures ChordWf(r)
    ensures r.keyMap == c.keyMap && r.action == c.action && r.active == c.active
    ensures c.active ==> r == c
    ensures !c.active ==> |r.states| == |c.states| && forall n :: 0 <= n < |r.states| ==> !r.states[n]
  {
    if c.active then c
    else
      var cleared := seq(|c.states|, _ => false);
      assert !cleared[0];
      c.(states := cleared)
  }

  predicate ChordsWf(cs: seq<Chord>)
  {
    forall i :: 0 <= i < |cs| ==> ChordWf(cs[i])
  }

  /** Two chord tables with the same chords, possibly in other states. */
  predicate SameShape(a: seq<Chord>, b: seq<Chord>)
  {
    |a| == |b| &&
    forall i :: 0 <= i < |a| ==>
      a[i].keyMap == b[i].keyMap && a[i].action == b[i].action && |a[i].states| == |b[i].states|
  }

  /** Putting a chord of the same shape in place of another keeps the
      table's shape. */
  lemma ReplaceChord(cs: seq<Chord>, i: nat, c: Chord)
    requires ChordsWf(cs) && i < |cs| && ChordWf(c)
    requires c.keyMap == cs[i].keyMap && c.action == cs[i].action && |c.states| == |cs[i].states|
    ensures ChordsWf(cs[i := c]) && SameShape(cs, cs[i := c])
  {
  }

  lemma SameShapeTrans(a: seq<Chord>, b: seq<Chord>, c: seq<Chord>)
    requires SameShape(a, b) && SameShape(b, c)
    ensures SameShape(a, c)
  {
  }

  predicate IndicesIn(idxs: seq<nat>, n: nat)
  {
    forall m :: 0 <= m < |idxs| ==> idxs[m] < n
  }

  /** The engine: the chord table with its key-to-chords index, the held
      and ignored key lists, and the time of the last noted press. */
  datatype Engine = Engine(
    keyChordMap: map<Key, seq<nat>>,
    chords: seq<Chord>,
    held: seq<Key>,
    ignored: seq<Key>,
    lastPress: nat)

  predicate Wf(e: Engine)
  {
    && (forall k :: k in e.keyChordMap ==> IndicesIn(e.keyChordMap[k], |e.chords|))
    && ChordsWf(e.chords)
    && |e.held| <= CAPACITY && |e.ignored| <= CAPACITY
  }

  function NewEngine(keyChordMap: map<Key, seq<nat>>, chords: seq<Chord>, now: nat): (e: Engine)
    ensures e.held == [] && e.ignored == [] && e.lastPress == now
    ensures e.keyChordMap == keyChordMap && e.chords == chords
  {
    Engine(keyChordMap, chords, [], [], now)
  }

  /** `heapless::Vec::push` whose `Err` on a full vector is ignored. */
  function PushCapped(s: seq<Key>, k: Key): (r: seq<Key>)
    requires |s| <= CAPACITY
    ensures |r| <= CAPACITY
    ensures |s| < CAPACITY ==> r == s + [k]
    ensures |s| == CAPACITY ==> r == s
  {
    if |s| < CAPACITY then s + [k] else s
  }

  function PushAllCapped(s: seq<Key>, ks: seq<Key>): (r: seq<Key>)
    requires |s| <= CAPACITY
    ensures |r| <= CAPACITY
    ensures |s| + |ks| <= CAPACITY ==> r == s + ks
    ensures |s| + |ks| >= CAPACITY ==> |r| == CAPACITY
    ensures |s| + |ks| > CAPACITY ==> r == (s + ks)[..CAPACITY]
    ensures r[..|s|] == s
    decreases |ks|
  {
    if ks == [] then s
    else
      var s1 := PushCapped(s, ks[0]);
      var r := PushAllCapped(s1, ks[1..]);
      assert |s| < CAPACITY ==> s1 + ks[1..] == s + ks;
      assert |s| == CAPACITY ==> (s + ks)[..CAPACITY] == s;
      assert r[..|s|] == r[..|s1|][..|s|];
      r
  }

  /** `retain(|&e| e != k)`. */
  function RemoveAll(s: seq<Key>, k: Key): (r: seq<Key>)
    ensures |r| <= |s|
    ensures k !in r
    ensures forall x :: x != k ==> (x in r <==> x in s)
  {
    Filter(s, x => x != k)
  }

  function FirstIndex(s: seq<Key>, k: Key): (i: nat)
    requires k in s
    ensures i < |s| && s[i] == k && k !in s[..i]
  {
    if s[0] == k then 0 else 1 + FirstIndex(s[1..], k)
  }

  /** `position` followed by `remove`: the first occurrence goes, the rest
      keeps its order. */
  function RemoveFirst(s: seq<Key>, k: Key): (r: seq<Key>)
    requires k in s
    ensures |r| == |s| - 1
    ensures multiset(r) == multiset(s) - multiset{k}
  {
    var i := FirstIndex(s, k);
    assert s == s[..i] + [k] + s[i + 1..];
    s[..i] + s[i + 1..]
  }

  /** The input keys of a chord whose slot is pressed, in key-map order. */
  function StillPressed(c: Chord): (ks: seq<Key>)
    requires ChordWf(c)
    ensures forall k :: k in ks <==> exists n :: 0 <= n < |c.keyMap| && c.keyMap[n].0 == k && c.states[c.keyMap[n].1]
  {
    PressedEntries(c.keyMap, c.states)
  }

  function PressedEntries(m: seq<(Key, nat)>, states: seq<bool>): (ks: seq<Key>)
    requires forall n :: 0 <= n < |m| ==> m[n].1 < |states|
    ensures forall k :: k in ks <==> exists n :: 0 <= n < |m| && m[n].0 == k && states[m[n].1]
  {
    if m == [] then []
    else
      var rest := PressedEntries(m[1..], states);
      assert forall n :: 1 <= n < |m| ==> m[n] == m[1..][n - 1];
      (if states[m[0].1] then [m[0].0] else []) + rest
  }

  /** The loop over the chords of a key: each one processes the event, and
      the first whose activity changes in the event's direction (complete
      on a press, broken on a release) ends the loop. */
  function ChordLoop(cs: seq<Chord>, idxs: seq<nat>, e: Event): (r: (seq<Chord>, Option<nat>))
    requires ChordsWf(cs) && IndicesIn(idxs, |cs|)
    ensures ChordsWf(r.0) && SameShape(cs, r.0)
    ensures forall i :: 0 <= i < |cs| && i !in idxs ==> r.0[i] == cs[i]
    ensures r.1.Some? ==> r.1.value in idxs && r.0[r.1.value].active == e.Press?
    ensures r.1.Some? ==> Lookup(cs[r.1.value].keyMap, e.Coord()).Some?
    decreases |idxs|
  {
    if idxs == [] then (cs, None)
    else
      var i := idxs[0];
      var (c, rep) := ProcessChord(cs[i], e);
      var cs1 := cs[i := c];
      ReplaceChord(cs, i, c);
      if rep == Some(e.Press?) then (cs1, Some(i))
      else
        assert IndicesIn(idxs[1..], |cs1|);
        var r := ChordLoop(cs1, idxs[1..], e);
        SameShapeTrans(cs, cs1, r.0);
        assert forall j :: j !in idxs ==> j !in idxs[1..];
        r
  }

  /** The chord reports the activity change that stops the loop: completed
      by a press, or broken by a release. */
  predicate Fires(c: Chord, e: Event)
    requires ChordWf(c)
  {
    ProcessChord(c, e).1 == Some(e.Press?)
  }

  /** Each chord is listed at most once, as the generated index promises. */
  predicate DistinctIndices(idxs: seq<nat>)
  {
    forall m, n :: 0 <= m < n < |idxs| ==> idxs[m] != idxs[n]
  }

  /** The position in `idxs` of the first chord that fires on `e` when
      each processes it from its state in `cs`, or `|idxs|` if none does. */
  function FirstFiring(cs: seq<Chord>, idxs: seq<nat>, e: Event): (m: nat)
    requires ChordsWf(cs) && IndicesIn(idxs, |cs|)
    ensures m <= |idxs|
    decreases |idxs|
  {
    if idxs == [] then 0
    else if Fires(cs[idxs[0]], e) then 0
    else 1 + FirstFiring(cs, idxs[1..], e)
  }

  /** No chord before the first firing position fires, and the one there
      does. */
  lemma {:induction false} FirstFiringIsFirst(cs: seq<Chord>, idxs: seq<nat>, e: Event)
    requires ChordsWf(cs) && IndicesIn(idxs, |cs|)
    ensures var m := FirstFiring(cs, idxs, e);
      && (forall n :: 0 <= n < m ==> !Fires(cs[idxs[n]], e))
      && (m < |idxs| ==> Fires(cs[idxs[m]], e))
    decreases |idxs|
  {
    if idxs != [] && !Fires(cs[idxs[0]], e) {
      var rest := idxs[1..];
      FirstFiringIsFirst(cs, rest, e);
      assert forall n :: 1 <= n < |idxs| ==> idxs[n] == rest[n - 1];
    }
  }

  /** The first firing position sees only the chords the list names. */
  lemma {:induction false} FirstFiringAgree(a: seq<Chord>, b: seq<Chord>, idxs: seq<nat>, e: Event)
    requires ChordsWf(a) && ChordsWf(b) && IndicesIn(idxs, |a|) && IndicesIn(idxs, |b|)
    requires forall m :: 0 <= m < |idxs| ==> a[idxs[m]] == b[idxs[m]]
    ensures FirstFiring(a, idxs, e) == FirstFiring(b, idxs, e)
    decreases |idxs|
  {
    if idxs != [] {
      assert a[idxs[0]] == b[idxs[0]];
      var rest := idxs[1..];
      assert forall m :: 0 <= m < |rest| ==> rest[m] == idxs[m + 1];
      FirstFiringAgree(a, b, rest, e);
    }
  }

  /** Every chord the list names, as it is after processing `e` from its
      state in `cs`. */
  function AfterAll(cs: seq<Chord>, idxs: seq<nat>, e: Event): (a: seq<Chord>)
    requires ChordsWf(cs) && IndicesIn(idxs, |cs|)
    ensures |a| == |idxs|
    ensures forall m :: 0 <= m < |idxs| ==> a[m] == ProcessChord(cs[idxs[m]], e).0
  {
    seq(|idxs|, m requires 0 <= m < |idxs| => ProcessChord(cs[idxs[m]], e).0)
  }

  /** `r` and `fired` are what a loop over `idxs` leaves when it stops at
      position `f`: the chords up to and including that position hold their
      values in `after`, the later ones are untouched, and `fired` names the
      chord at `f` when there is one. */
  predicate Outcome<T(==)>(cs: seq<T>, idxs: seq<nat>, r: seq<T>, fired: Option<nat>, f: nat, after: seq<T>)
    requires IndicesIn(idxs, |cs|) && |after| == |idxs|
  {
    && |r| == |cs|
    && (fired.Some? <==> f < |idxs|)
    && (fired.Some? ==> fired.value == idxs[f])
    && forall m :: 0 <= m < |idxs| ==> r[idxs[m]] == if m <= f then after[m] else cs[idxs[m]]
  }

  /** `out` is the outcome the loop should have: it reports the first
      chord that fires, and that chord, with every chord before it, has
      processed the event; the chords after it are untouched. */
  predicate FiresFirst(cs: seq<Chord>, idxs: seq<nat>, e: Event, out: (seq<Chord>, Option<nat>))
    requires ChordsWf(cs) && IndicesIn(idxs, |cs|)
  {
    Outcome(cs, idxs, out.0, out.1, FirstFiring(cs, idxs, e), AfterAll(cs, idxs, e))
  }

  /** The loop's outcome, for a key whose chords are listed once each: it
      stops at the first chord that fires, and that chord, with every
      chord before it, has processed the event; the chords after it are
      untouched. When none fires, every chord of the key has processed the
      event and the loop reports nothing. */
  lemma {:induction false} ChordLoopFiresFirst(cs: seq<Chord>, idxs: seq<nat>, e: Event)
    requires ChordsWf(cs) && IndicesIn(idxs, |cs|) && DistinctIndices(idxs)
    ensures FiresFirst(cs, idxs, e, ChordLoop(cs, idxs, e))
    decreases |idxs|, 1
  {
    if idxs != [] {
      var i := idxs[0];
      var c := ProcessChord(cs[i], e).0;
      var cs1 := cs[i := c];
      var rest := idxs[1..];
      var r := ChordLoop(cs, idxs, e).0;
      assert forall m :: 1 <= m < |idxs| ==> idxs[m] != i;
      if Fires(cs[i], e) {
        assert r == cs1;
      } else {
        ChordLoopFiresFirstStep(cs, idxs, e);
      }
    }
  }

  /** When the first chord does not fire, the loop and the first firing
      position both move on to the rest of the list. */
  lemma ChordLoopUnfold(cs: seq<Chord>, idxs: seq<nat>, e: Event)
    requires ChordsWf(cs) && IndicesIn(idxs, |cs|) && DistinctIndices(idxs)
    requires idxs != [] && !Fires(cs[idxs[0]], e)
    ensures ChordsWf(cs[idxs[0] := ProcessChord(cs[idxs[0]], e).0]) && IndicesIn(idxs[1..], |cs|)
    ensures ChordLoop(cs, idxs, e) == ChordLoop(cs[idxs[0] := ProcessChord(cs[idxs[0]], e).0], idxs[1..], e)
    ensures FirstFiring(cs, idxs, e)
      == 1 + FirstFiring(cs[idxs[0] := ProcessChord(cs[idxs[0]], e).0], idxs[1..], e)
  {
    var i := idxs[0];
    var cs1 := cs[i := ProcessChord(cs[i], e).0];
    var rest := idxs[1..];
    assert forall m :: 0 <= m < |rest| ==> rest[m] == idxs[m + 1];
    assert i !in rest;
    ReplaceChord(cs, i, cs1[i]);
    FirstFiringAgree(cs, cs1, rest, e);
  }

  /** The inductive step of `ChordLoopFiresFirst` when the first chord does
      not fire. */
  lemma ChordLoopFiresFirstStep(cs: seq<Chord>, idxs: seq<nat>, e: Event)
    requires ChordsWf(cs) && IndicesIn(idxs, |cs|) && DistinctIndices(idxs)
    requires idxs != [] && !Fires(cs[idxs[0]], e)
    ensures FiresFirst(cs, idxs, e, ChordLoop(cs, idxs, e))
    decreases |idxs|, 0
  {
    var i := idxs[0];
    var c := ProcessChord(cs[i], e).0;
    var cs1 := cs[i := c];
    var rest := idxs[1..];
    assert forall m :: 0 <= m < |rest| ==> rest[m] == idxs[m + 1];
    assert i !in rest;
    ChordLoopUnfold(cs, idxs, e);
    ChordLoopFiresFirst(cs1, rest, e);
    var out := ChordLoop(cs1, rest, e);
    assert out.0[i] == cs1[i];
    AssembleFiresFirst(cs, idxs, e, cs1, out);
  }

  /** The firing rule over the whole list, from the rule over the rest once
      the first chord has processed the event without firing. */
  lemma AssembleFiresFirst(cs: seq<Chord>, idxs: seq<nat>, e: Event, cs1: seq<Chord>, out: (seq<Chord>, Option<nat>))
    requires ChordsWf(cs) && IndicesIn(idxs, |cs|) && DistinctIndices(idxs)
    requires idxs != [] && !Fires(cs[idxs[0]], e)
    requires cs1 == cs[idxs[0] := ProcessChord(cs[idxs[0]], e).0]
    requires ChordsWf(cs1) && IndicesIn(idxs[1..], |cs1|)
    requires FirstFiring(cs, idxs, e) == 1 + FirstFiring(cs1, idxs[1..], e)
    requires FiresFirst(cs1, idxs[1..], e, out)
    requires out.0[idxs[0]] == cs1[idxs[0]]
    ensures FiresFirst(cs, idxs, e, out)
  {
    var after := AfterAll(cs, idxs, e);
    AfterAllShift(cs, idxs, e, cs1);
    assert cs[idxs[0] := after[0]] == cs1;
    OutcomeShift(cs, idxs, out.0, out.1, FirstFiring(cs1, idxs[1..], e), after);
  }

  /** Once the first chord has processed the event, the rest of the list
      processes it from the same states as the whole list did. */
  lemma AfterAllShift(cs: seq<Chord>, idxs: seq<nat>, e: Event, cs1: seq<Chord>)
    requires ChordsWf(cs) && IndicesIn(idxs, |cs|) && DistinctIndices(idxs) && idxs != []
    requires cs1 == cs[idxs[0] := ProcessChord(cs[idxs[0]], e).0]
    requires ChordsWf(cs1) && IndicesIn(idxs[1..], |cs1|)
    ensures AfterAll(cs1, idxs[1..], e) == AfterAll(cs, idxs, e)[1..]
  {
    var a := AfterAll(cs, idxs, e);
    var b := AfterAll(cs1, idxs[1..], e);
    forall m | 0 <= m < |b|
      ensures b[m] == a[1..][m]
    {
      assert idxs[1..][m] == idxs[m + 1] && idxs[m + 1] != idxs[0];
      assert cs1[idxs[m + 1]] == cs[idxs[m + 1]];
    }
  }

  /** Moving an outcome over the rest of the list back to the whole list,
      once the first chord has taken its value in `after`. */
  lemma OutcomeShift<T>(cs: seq<T>, idxs: seq<nat>, r: seq<T>, fired: Option<nat>, f: nat, after: seq<T>)
    requires idxs != [] && IndicesIn(idxs, |cs|) && DistinctIndices(idxs) && |after| == |idxs|
    requires Outcome(cs[idxs[0] := after[0]], idxs[1..], r, fired, f, after[1..])
    requires r[idxs[0]] == after[0]
    ensures Outcome(cs, idxs, r, fired, f + 1, after)
  {
    var cs1 := cs[idxs[0] := after[0]];
    var rest := idxs[1..];
    forall m | 1 <= m < |idxs|
      ensures r[idxs[m]] == if m <= f + 1 then after[m] else cs[idxs[m]]
    {
      assert idxs[m] == rest[m - 1] && after[m] == after[1..][m - 1];
      assert idxs[m] != idxs[0];
      assert cs1[idxs[m]] == cs[idxs[m]];
    }
    if fired.Some? {
      assert idxs[f + 1] == rest[f];
    }
  }

  /** A chord that processes the same event twice is as after once. */
  lemma ProcessTwice(c: Chord, e: Event)
    requires ChordWf(c)
    ensures ProcessChord(ProcessChord(c, e).0, e).0 == ProcessChord(c, e).0
  {
  }

  /** Every chord of the key processes its release; every other chord is
      untouched. A chord listed twice processes it twice, to the same
      effect. */
  function ReleaseIn(cs: seq<Chord>, idxs: seq<nat>, k: Key): (r: seq<Chord>)
    requires ChordsWf(cs) && IndicesIn(idxs, |cs|)
    ensures ChordsWf(r) && SameShape(cs, r)
    ensures forall i :: 0 <= i < |cs| ==>
      r[i] == if i in idxs then ProcessChord(cs[i], Release(k.0, k.1)).0 else cs[i]
    decreases |idxs|
  {
    if idxs == [] then cs
    else
      var j := idxs[0];
      var cs1 := cs[j := ProcessChord(cs[j], Release(k.0, k.1)).0];
      var r := ReleaseIn(cs1, idxs[1..], k);
      ProcessTwice(cs[j], Release(k.0, k.1));
      assert forall i :: i in idxs <==> i == j || i in idxs[1..];
      r
  }

  /** Some held key `keys[j]` lists chord `i` in the index and sits in slot
      `n` of its key map, so its release clears that slot. */
  predicate HeldRelease(index: map<Key, seq<nat>>, keys: seq<Key>, i: nat, keyMap: seq<(Key, nat)>, n: nat)
  {
    exists j :: 0 <= j < |keys| && keys[j] in index && i in index[keys[j]] && Lookup(keyMap, keys[j]) == Some(n)
  }

  /** The held keys' releases reach their chords: a slot stays pressed
      exactly when it was pressed and no held key indexed to that chord
      sits in it. */
  function ReleaseHeld(cs: seq<Chord>, index: map<Key, seq<nat>>, keys: seq<Key>): (r: seq<Chord>)
    requires ChordsWf(cs) && forall k :: k in index ==> IndicesIn(index[k], |cs|)
    ensures ChordsWf(r) && SameShape(cs, r)
    ensures forall i, n :: 0 <= i < |cs| && 0 <= n < |cs[i].states| ==>
      r[i].states[n] == (cs[i].states[n] && !HeldRelease(index, keys, i, cs[i].keyMap, n))
    decreases |keys|
  {
    if keys == [] then cs
    else
      var cs1 := if keys[0] in index then ReleaseIn(cs, index[keys[0]], keys[0]) else cs;
      var r := ReleaseHeld(cs1, index, keys[1..]);
      ReleaseStep(cs, cs1, index, keys);
      r
  }

  /** One held key's release, and what remains to release after it. */
  lemma ReleaseStep(cs: seq<Chord>, cs1: seq<Chord>, index: map<Key, seq<nat>>, keys: seq<Key>)
    requires ChordsWf(cs) && forall k :: k in index ==> IndicesIn(index[k], |cs|)
    requires keys != []
    requires cs1 == if keys[0] in index then ReleaseIn(cs, index[keys[0]], keys[0]) else cs
    ensures SameShape(cs, cs1)
    ensures forall i, n :: 0 <= i < |cs| && 0 <= n < |cs[i].states| ==>
      (cs1[i].states[n] && !HeldRelease(index, keys[1..], i, cs1[i].keyMap, n))
      == (cs[i].states[n] && !HeldRelease(index, keys, i, cs[i].keyMap, n))
  {
    forall i, n | 0 <= i < |cs| && 0 <= n < |cs[i].states|
      ensures (cs1[i].states[n] && !HeldRelease(index, keys[1..], i, cs1[i].keyMap, n))
        == (cs[i].states[n] && !HeldRelease(index, keys, i, cs[i].keyMap, n))
    {
      var k := keys[0];
      var listed := k in index && i in index[k];
      var ev := Release(k.0, k.1);
      assert ev.Coord() == k;
      assert cs1[i] == if listed then ProcessChord(cs[i], ev).0 else cs[i];
      ReleaseSlot(cs[i], ev, n);
      HeldReleaseCons(index, keys, i, cs[i].keyMap, n);
    }
  }

  /** A slot after a release: cleared exactly when the released key sits
      in it. */
  lemma ReleaseSlot(c: Chord, ev: Event, n: nat)
    requires ChordWf(c) && ev.Release? && n < |c.states|
    ensures ProcessChord(c, ev).0.states[n] == (c.states[n] && Lookup(c.keyMap, ev.Coord()) != Some(n))
  {
    var slot := Lookup(c.keyMap, ev.Coord());
    if slot.Some? {
      var s := c.states[slot.value := false];
      assert ProcessChord(c, ev).0.states == s;
      assert s[n] == (c.states[n] && slot.value != n);
    }
  }

  /** Held releases of a list: its first key's, or the rest's. */
  lemma HeldReleaseCons(index: map<Key, seq<nat>>, keys: seq<Key>, i: nat, keyMap: seq<(Key, nat)>, n: nat)
    requires keys != []
    ensures HeldRelease(index, keys, i, keyMap, n)
      <==> (keys[0] in index && i in index[keys[0]] && Lookup(keyMap, keys[0]) == Some(n))
           || HeldRelease(index, keys[1..], i, keyMap, n)
  {
    var rest := keys[1..];
    assert forall j :: 0 <= j < |rest| ==> rest[j] == keys[j + 1];
    if HeldRelease(index, keys, i, keyMap, n) {
      var j :| 0 <= j < |keys| && keys[j] in index && i in index[keys[j]] && Lookup(keyMap, keys[j]) == Some(n);
      if j > 0 {
        assert rest[j - 1] == keys[j];
      }
    }
  }

  function ClearAll(cs: seq<Chord>): (r: seq<Chord>)
    requires ChordsWf(cs)
    ensures ChordsWf(r) && SameShape(cs, r)
    ensures forall i :: 0 <= i < |r| ==> r[i].active == cs[i].active
    ensures forall i :: 0 <= i < |r| && !r[i].active ==> forall n :: 0 <= n < |r[i].states| ==> !r[i].states[n]
  {
    seq(|cs|, i requires 0 <= i < |cs| => ClearIfInactive(cs[i]))
  }

  /** `purge`: the held keys are released in their chords, every
      incomplete chord forgets its pressed keys, and the held keys are
      handed back. */
  function Purge(e: Engine): (r: (Engine, seq<Key>))
    requires Wf(e)
    ensures Wf(r.0)
    ensures r.1 == e.held && r.0.held == []
    ensures r.0.keyChordMap == e.keyChordMap && r.0.ignored == e.ignored && r.0.lastPress == e.lastPress
    ensures SameShape(e.chords, r.0.chords)
    ensures forall i :: 0 <= i < |r.0.chords| && !r.0.chords[i].active ==>
      forall n :: 0 <= n < |r.0.chords[i].states| ==> !r.0.chords[i].states[n]
    // the held keys' releases reach their chords: a chord is complete
    // exactly when each slot was pressed and no held key of it sits there,
    // and then it keeps those slots
    ensures forall i :: 0 <= i < |e.chords| ==>
      (r.0.chords[i].active <==> forall n :: 0 <= n < |e.chords[i].states| ==>
         e.chords[i].states[n] && !HeldRelease(e.keyChordMap, e.held, i, e.chords[i].keyMap, n))
    ensures forall i, n :: 0 <= i < |e.chords| && 0 <= n < |e.chords[i].states| ==>
      r.0.chords[i].states[n]
      == (r.0.chords[i].active && e.chords[i].states[n] && !HeldRelease(e.keyChordMap, e.held, i, e.chords[i].keyMap, n))
  {
    var released := ReleaseHeld(e.chords, e.keyChordMap, e.held);
    var cs := ClearAll(released);
    PurgeSlots(e.chords, released, cs, e.keyChordMap, e.held);
    (e.(chords := cs, held := []), e.held)
  }

  /** Clearing the incomplete chords after the held releases. */
  lemma PurgeSlots(cs: seq<Chord>, released: seq<Chord>, cleared: seq<Chord>, index: map<Key, seq<nat>>, keys: seq<Key>)
    requires ChordsWf(cs) && forall k :: k in index ==> IndicesIn(index[k], |cs|)
    requires released == ReleaseHeld(cs, index, keys) && cleared == ClearAll(released)
    ensures forall i :: 0 <= i < |cs| ==>
      (cleared[i].active <==> forall n :: 0 <= n < |cs[i].states| ==>
         cs[i].states[n] && !HeldRelease(index, keys, i, cs[i].keyMap, n))
    ensures forall i, n :: 0 <= i < |cs| && 0 <= n < |cs[i].states| ==>
      cleared[i].states[n]
      == (cleared[i].active && cs[i].states[n] && !HeldRelease(index, keys, i, cs[i].keyMap, n))
  {
    forall i | 0 <= i < |cs|
      ensures cleared[i].active <==> forall n :: 0 <= n < |cs[i].states| ==>
         cs[i].states[n] && !HeldRelease(index, keys, i, cs[i].keyMap, n)
      ensures forall n :: 0 <= n < |cs[i].states| ==>
         cleared[i].states[n]
         == (cleared[i].active && cs[i].states[n] && !HeldRelease(index, keys, i, cs[i].keyMap, n))
    {
      assert cleared[i] == ClearIfInactive(released[i]);
      assert cleared[i].active == AllTrue(released[i].states);
    }
  }

  /** `tick`: purge once more than the timeout has passed since the last
      noted press; otherwise nothing happens. The clock is monotonic, so
      `now` is not before the last press. */
  function Tick(e: Engine, now: nat): (r: (Engine, seq<Key>))
    requires Wf(e) && now >= e.lastPress
    ensures Wf(r.0)
    ensures now - e.lastPress > CHORD_TIMEOUT ==> r == Purge(e) && r.1 == e.held && r.0.held == []
    ensures now - e.lastPress <= CHORD_TIMEOUT ==> r == (e, [])
  {
    if now - e.lastPress > CHORD_TIMEOUT then Purge(e) else (e, [])
  }

  /** `heapless::Vec::from_iter`, which panics past the capacity. */
  function Collect(es: seq<Event>): (r: Result<seq<Event>>)
    ensures r.Ok? <==> |es| <= CAPACITY
    ensures r.Ok? ==> r.value == es
  {
    if |es| <= CAPACITY then Ok(es) else Panic("Vec::from_iter overflow")
  }

  /** `ChordingEngine::process`, for an event at time `now`. */
  function Process(e: Engine, ev: Event, now: nat): (r: Result<(Engine, seq<Event>)>)
    requires Wf(e)
    ensures r.Ok? ==> Wf(r.value.0) && r.value.0.keyChordMap == e.keyChordMap
    ensures r.Ok? ==> SameShape(e.chords, r.value.0.chords)
    // a press clears every ignored release of its key
    ensures r.Ok? && ev.Press? ==> ev.Coord() !in r.value.0.ignored
    // a key in no chord: the held keys are purged and released first
    ensures ev.Coord() !in e.keyChordMap ==>
      (r.Ok? <==> |e.held| < CAPACITY) &&
      (r.Ok? ==> r.value.1 == Releases(e.held) + [ev] && r.value.0.held == []
                 && r.value.0.lastPress == e.lastPress)
    ensures ev.Coord() in e.keyChordMap ==>
      var (cs, fired) := ChordLoop(e.chords, e.keyChordMap[ev.Coord()], ev);
      && (fired.Some? ==>
          var action := cs[fired.value].action;
          && (r.Ok? <==> |action| <= CAPACITY)
          && (r.Ok? ==> r.value.0.chords == cs && r.value.0.lastPress == e.lastPress)
          // a press completing a chord: its action is pressed, held keys are dropped
          && (r.Ok? && ev.Press? ==> r.value.1 == Presses(action) && r.value.0.held == [])
          // a release breaking a chord: its action is released, its keys still
          // down will have their releases ignored
          && (r.Ok? && ev.Release? ==>
                r.value.1 == Releases(action) && r.value.0.held == e.held
                && r.value.0.ignored == PushAllCapped(e.ignored, StillPressed(cs[fired.value]))))
      && (fired.None? ==> r.Ok? && r.value.0.chords == cs)
      // a press completing nothing is held back
      && (fired.None? && ev.Press? ==>
            r.value.1 == [] && r.value.0.held == PushCapped(e.held, ev.Coord())
            && r.value.0.lastPress == now)
      // the release of a held key: that key is tapped
      && (fired.None? && ev.Release? && ev.Coord() in e.held ==>
            r.value.1 == [Press(ev.row, ev.col), ev]
            && multiset(r.value.0.held) == multiset(e.held) - multiset{ev.Coord()}
            && r.value.0.ignored == e.ignored && r.value.0.lastPress == e.lastPress)
      // an ignored release is consumed once
      && (fired.None? && ev.Release? && ev.Coord() !in e.held && ev.Coord() in e.ignored ==>
            r.value.1 == [] && r.value.0.held == e.held
            && multiset(r.value.0.ignored) == multiset(e.ignored) - multiset{ev.Coord()}
            && r.value.0.lastPress == now)
      // any other release passes through
      && (fired.None? && ev.Release? && ev.Coord() !in e.held && ev.Coord() !in e.ignored ==>
            r.value.1 == [ev] && r.value.0.held == e.held && r.value.0.ignored == e.ignored
            && r.value.0.lastPress == e.lastPress)
  {
    var k := ev.Coord();
    var ignored := if ev.Press? then RemoveAll(e.ignored, k) else e.ignored;
    if k !in e.keyChordMap then
      var (e1, purged) := Purge(e.(ignored := ignored));
      match Collect(Releases(purged) + [ev])
      case Panic(why) => Panic(why)
      case Ok(out) => Ok((e1, out))
    else
      var (cs, fired) := ChordLoop(e.chords, e.keyChordMap[k], ev);
      var e1 := e.(chords := cs, ignored := ignored);
      if fired.Some? then
        var i := fired.value;
        if ev.Press? then
          match Collect(Presses(cs[i].action))
          case Panic(why) => Panic(why)
          case Ok(out) => Ok((e1.(held := []), out))
        else
          match Collect(Releases(cs[i].action))
          case Panic(why) => Panic(why)
          case Ok(out) => Ok((e1.(ignored := PushAllCapped(ignored, StillPressed(cs[i]))), out))
      else
        if ev.Press? then
          Ok((e1.(held := PushCapped(e.held, k), lastPress := now), []))
        else if k in e.held then
          Ok((e1.(held := RemoveFirst(e.held, k)), [Press(ev.row, ev.col), ev]))
        else if k in ignored then
          Ok((e1.(ignored := RemoveFirst(ignored, k), lastPress := now), []))
        else
          Ok((e1, [ev]))
  }
}
