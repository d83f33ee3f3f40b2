/** The data of firmware/src/keys/layout.rs: the chord table handed to the
    macro and the dimensions of the keymap `LAYERS`. The actions inside
    `LAYERS` are keyberon's and are not part of this model. */
module KeyLayout {

  import opened Util
  import opened KeyEvent
  import opened Chording
  import opened ChordMacro

  /** `Layers<10, 6, 3, _>`: 3 layers of 6 rows of 10 columns. */
  const LAYER_COUNT: nat := 3
  const LAYER_ROWS: nat := 6
  const LAYER_COLS: nat := 10

  function Def(a: Key, b: Key, out: Key): ChordDef
  {
    ChordDef([a, b], [out])
  }

  /** The argument of `chords!` in `chorder()`. */
  const CHORDS: seq<ChordDef> := [
    Def((0, 0), (0, 1), (4, 0)),
    Def((1, 5), (1, 6), (4, 5)),
    Def((2, 7), (2, 8), (5, 0)),
    Def((0, 5), (0, 6), (4, 1)),
    Def((0, 6), (0, 7), (4, 2)),
    Def((2, 5), (2, 6), (4, 8)),
    Def((0, 8), (0, 9), (4, 4)),
    Def((1, 6), (1, 7), (4, 6)),
    Def((1, 7), (1, 8), (4, 7)),
    Def((0, 7), (0, 8), (4, 3)),
    Def((2, 6), (2, 7), (4, 9))
  ]

  /** Eleven chords, each of two horizontally adjacent keys of one row,
      each producing one key. */
  lemma ChordTableShape()
    ensures |CHORDS| == 11
    ensures forall i :: 0 <= i < |CHORDS| ==>
      && |CHORDS[i].inputs| == 2 && |CHORDS[i].outputs| == 1
      && CHORDS[i].inputs[1].0 == CHORDS[i].inputs[0].0
      && CHORDS[i].inputs[1].1 == CHORDS[i].inputs[0].1 + 1
  {
  }

  /** Every output is a key of row 4 or 5 that addresses a cell of
      `LAYERS`, and no two chords produce the same key. */
  lemma ChordOutputs()
    ensures forall i :: 0 <= i < |CHORDS| ==>
      var out := CHORDS[i].outputs[0];
      (out.0 == 4 || out.0 == 5) && out.0 < LAYER_ROWS && out.1 < LAYER_COLS
    ensures forall i, j :: 0 <= i < j < |CHORDS| ==> CHORDS[i].outputs[0] != CHORDS[j].outputs[0]
  {
  }

  /** The macro accepts the table. */
  lemma ChordTableExpands()
    ensures Expand(CHORDS).Ok?
  {
    assert forall i :: 0 <= i < |CHORDS| ==> Accepted(CHORDS[i]);
  }

  /** `ChordingEngine::new(layout::chorder())` at time `now`. */
  function Chorder(now: nat): (e: Engine)
    ensures Wf(e) && e.held == [] && e.ignored == [] && e.lastPress == now
    ensures |e.chords| == |CHORDS|
  {
    ChordTableExpands();
    var (index, chords) := Expand(CHORDS).value;
    NewEngine(index, chords, now)
  }

  /** The first chord at work: pressing (0, 0) is held back; pressing
      (0, 1) completes the chord and presses (4, 0) alone; releasing (0, 0)
      releases (4, 0) and marks (0, 1) to be ignored; releasing (0, 1) then
      produces nothing. */
  lemma FirstChordTapped(t0: nat)
    ensures var e0 := Chorder(t0);
      var r1 := Process(e0, Press(0, 0), t0 + 1);
      r1.Ok? && r1.value.1 == [] &&
      var r2 := Process(r1.value.0, Press(0, 1), t0 + 2);
      r2.Ok? && r2.value.1 == [Press(4, 0)] &&
      var r3 := Process(r2.value.0, Release(0, 0), t0 + 3);
      r3.Ok? && r3.value.1 == [Release(4, 0)] &&
      var r4 := Process(r3.value.0, Release(0, 1), t0 + 4);
      r4.Ok? && r4.value.1 == []
  {
    FirstChordInitially(t0);
    TapFirstChord(Chorder(t0), t0);
  }

  /** The same run from any engine in which (0, 0) and (0, 1) belong to
      the first chord alone and nothing is held or ignored. */
  lemma TapFirstChord(e0: Engine, t0: nat)
    requires Wf(e0) && |e0.chords| > 0 && e0.held == [] && e0.ignored == []
    requires (0, 0) in e0.keyChordMap && e0.keyChordMap[(0, 0)] == [0]
    requires (0, 1) in e0.keyChordMap && e0.keyChordMap[(0, 1)] == [0]
    requires e0.chords[0] == FirstChord()
    ensures var r1 := Process(e0, Press(0, 0), t0 + 1);
      r1.Ok? && r1.value.1 == [] &&
      var r2 := Process(r1.value.0, Press(0, 1), t0 + 2);
      r2.Ok? && r2.value.1 == [Press(4, 0)] &&
      var r3 := Process(r2.value.0, Release(0, 0), t0 + 3);
      r3.Ok? && r3.value.1 == [Release(4, 0)] &&
      var r4 := Process(r3.value.0, Release(0, 1), t0 + 4);
      r4.Ok? && r4.value.1 == []
  {
    var e2 := PressFirstChord(e0, t0);
    ReleaseFirstChord(e2, t0);
  }

  /** The two presses of the first chord: the first is held back, the
      second fires the chord. */
  lemma PressFirstChord(e0: Engine, t0: nat) returns (e2: Engine)
    requires Wf(e0) && |e0.chords| > 0 && e0.held == [] && e0.ignored == []
    requires (0, 0) in e0.keyChordMap && e0.keyChordMap[(0, 0)] == [0]
    requires (0, 1) in e0.keyChordMap && e0.keyChordMap[(0, 1)] == [0]
    requires e0.chords[0] == FirstChord()
    ensures var r1 := Process(e0, Press(0, 0), t0 + 1);
      r1.Ok? && r1.value.1 == [] &&
      var r2 := Process(r1.value.0, Press(0, 1), t0 + 2);
      r2.Ok? && r2.value.1 == [Press(4, 0)] && e2 == r2.value.0
    ensures Wf(e2) && |e2.chords| > 0 && e2.held == [] && e2.ignored == []
    ensures e2.keyChordMap == e0.keyChordMap && e2.chords[0].keyMap == FirstChord().keyMap
    ensures e2.chords[0].action == [(4, 0)] && e2.chords[0].states == [true, true]
    ensures e2.chords[0].active
  {
    var e1 := PressFirstKey(e0, t0);
    e2 := PressSecondKey(e1, t0);
  }

  lemma PressFirstKey(e0: Engine, t0: nat) returns (e1: Engine)
    requires Wf(e0) && |e0.chords| > 0 && e0.ignored == []
    requires (0, 0) in e0.keyChordMap && e0.keyChordMap[(0, 0)] == [0]
    requires e0.chords[0] == FirstChord()
    ensures var r1 := Process(e0, Press(0, 0), t0 + 1);
      r1.Ok? && r1.value.1 == [] && e1 == r1.value.0
    ensures Wf(e1) && |e1.chords| > 0 && e1.ignored == []
    ensures e1.keyChordMap == e0.keyChordMap && e1.chords[0].keyMap == FirstChord().keyMap
    ensures e1.chords[0].action == [(4, 0)] && e1.chords[0].states == [true, false]
    ensures !e1.chords[0].active
  {
    assert Lookup(FirstChord().keyMap, (0, 0)) == Some(0);
    assert !AllTrue([true, false]) by { assert ![true, false][1]; }
    assert !AllTrue([false, false]) by { assert ![false, false][0]; }
    e1 := Step(e0, Press(0, 0), t0 + 1, 0, [true, false], false, []);
  }

  lemma PressSecondKey(e1: Engine, t0: nat) returns (e2: Engine)
    requires Wf(e1) && |e1.chords| > 0 && e1.ignored == []
    requires (0, 1) in e1.keyChordMap && e1.keyChordMap[(0, 1)] == [0]
    requires e1.chords[0].keyMap == FirstChord().keyMap
    requires e1.chords[0].action == [(4, 0)] && e1.chords[0].states == [true, false]
    requires !e1.chords[0].active
    ensures var r2 := Process(e1, Press(0, 1), t0 + 2);
      r2.Ok? && r2.value.1 == [Press(4, 0)] && e2 == r2.value.0
    ensures Wf(e2) && |e2.chords| > 0 && e2.held == [] && e2.ignored == []
    ensures e2.keyChordMap == e1.keyChordMap && e2.chords[0].keyMap == FirstChord().keyMap
    ensures e2.chords[0].action == [(4, 0)] && e2.chords[0].states == [true, true]
    ensures e2.chords[0].active
  {
    assert Lookup(FirstChord().keyMap, (0, 1)) == Some(1);
    assert AllTrue([true, true]);
    e2 := Step(e1, Press(0, 1), t0 + 2, 1, [true, true], true, [Press(4, 0)]);
  }

  /** The two releases after the chord fired: the first releases the
      chord's output, the second is swallowed. */
  lemma ReleaseFirstChord(e2: Engine, t0: nat)
    requires Wf(e2) && |e2.chords| > 0 && e2.held == [] && e2.ignored == []
    requires (0, 0) in e2.keyChordMap && e2.keyChordMap[(0, 0)] == [0]
    requires (0, 1) in e2.keyChordMap && e2.keyChordMap[(0, 1)] == [0]
    requires e2.chords[0].keyMap == FirstChord().keyMap
    requires e2.chords[0].action == [(4, 0)] && e2.chords[0].states == [true, true]
    requires e2.chords[0].active
    ensures var r3 := Process(e2, Release(0, 0), t0 + 3);
      r3.Ok? && r3.value.1 == [Release(4, 0)] &&
      var r4 := Process(r3.value.0, Release(0, 1), t0 + 4);
      r4.Ok? && r4.value.1 == []
  {
    var e3 := ReleaseFirstKey(e2, t0);
    ReleaseSecondKey(e3, t0);
  }

  lemma ReleaseFirstKey(e2: Engine, t0: nat) returns (e3: Engine)
    requires Wf(e2) && |e2.chords| > 0 && e2.held == [] && e2.ignored == []
    requires (0, 0) in e2.keyChordMap && e2.keyChordMap[(0, 0)] == [0]
    requires e2.chords[0].keyMap == FirstChord().keyMap
    requires e2.chords[0].action == [(4, 0)] && e2.chords[0].states == [true, true]
    requires e2.chords[0].active
    ensures var r3 := Process(e2, Release(0, 0), t0 + 3);
      r3.Ok? && r3.value.1 == [Release(4, 0)] && e3 == r3.value.0
    ensures Wf(e3) && |e3.chords| > 0 && e3.held == [] && e3.ignored == [(0, 1)]
    ensures e3.keyChordMap == e2.keyChordMap && e3.chords[0].keyMap == FirstChord().keyMap
    ensures e3.chords[0].action == [(4, 0)] && e3.chords[0].states == [false, true]
    ensures !e3.chords[0].active
  {
    assert Lookup(FirstChord().keyMap, (0, 0)) == Some(0);
    assert AllTrue([true, true]);
    assert !AllTrue([false, true]) by { assert ![false, true][0]; }
    e3 := Step(e2, Release(0, 0), t0 + 3, 0, [false, true], true, [Release(4, 0)]);
    SecondStillPressed(e3.chords[0]);
  }

  /** With only its second key down, the first chord has that key pressed. */
  lemma SecondStillPressed(c: Chord)
    requires ChordWf(c) && c.keyMap == FirstChord().keyMap && c.states == [false, true]
    ensures StillPressed(c) == [(0, 1)]
  {
    var m: seq<(Key, nat)> := c.keyMap;
    assert m[1..] == [((0, 1), 1)] && m[1..][1..] == [];
    assert PressedEntries(m[1..], c.states) == [(0, 1)];
  }

  lemma ReleaseSecondKey(e3: Engine, t0: nat)
    requires Wf(e3) && |e3.chords| > 0 && e3.held == [] && e3.ignored == [(0, 1)]
    requires (0, 1) in e3.keyChordMap && e3.keyChordMap[(0, 1)] == [0]
    requires e3.chords[0].keyMap == FirstChord().keyMap
    requires e3.chords[0].action == [(4, 0)] && e3.chords[0].states == [false, true]
    requires !e3.chords[0].active
    ensures var r4 := Process(e3, Release(0, 1), t0 + 4);
      r4.Ok? && r4.value.1 == []
  {
    assert Lookup(FirstChord().keyMap, (0, 1)) == Some(1);
    assert !AllTrue([false, true]) by { assert ![false, true][0]; }
    assert !AllTrue([false, false]) by { assert ![false, false][0]; }
    var e4 := Step(e3, Release(0, 1), t0 + 4, 1, [false, false], false, []);
  }

  /** The generated first chord and its two keys' index entries. */
  lemma FirstChordInitially(t0: nat)
    ensures var e := Chorder(t0);
      && (0, 0) in e.keyChordMap && e.keyChordMap[(0, 0)] == [0]
      && (0, 1) in e.keyChordMap && e.keyChordMap[(0, 1)] == [0]
      && e.chords[0] == FirstChord()
  {
    ChordTableExpands();
    InputsDistinct();
    FirstChordKeys(CHORDS);
    assert Chorder(t0).chords[0] == Generate(CHORDS[0]);
  }

  lemma FirstChordKeys(defs: seq<ChordDef>)
    requires defs == CHORDS
    requires forall j :: 0 <= j < |defs| ==> Distinct(defs[j].inputs)
    ensures (0, 0) in KeyChordMap(defs) && KeyChordMap(defs)[(0, 0)] == [0]
    ensures (0, 1) in KeyChordMap(defs) && KeyChordMap(defs)[(0, 1)] == [0]
  {
    FirstChordKeysUnshared();
    SoleChord(defs, (0, 0), 0);
    SoleChord(defs, (0, 1), 0);
  }

  lemma InputsDistinct()
    ensures forall j :: 0 <= j < |CHORDS| ==> Distinct(CHORDS[j].inputs)
  {
    forall j | 0 <= j < |CHORDS| ensures Distinct(CHORDS[j].inputs) {
      assert Accepted(CHORDS[j]);
    }
  }

  lemma FirstChordKeysUnshared()
    ensures forall j :: 0 <= j < |CHORDS| && j != 0 ==> (0, 0) !in CHORDS[j].inputs && (0, 1) !in CHORDS[j].inputs
  {
  }

  function FirstChord(): (c: Chord)
    ensures c == Generate(CHORDS[0])
  {
    var c := Chord([((0, 0), 0), ((0, 1), 1)], [false, false], false, [(4, 0)]);
    assert c.keyMap == Generate(CHORDS[0]).keyMap;
    assert c.states == Generate(CHORDS[0]).states;
    c
  }

  /** One event on a key of the first chord only. */
  lemma Step(e: Engine, ev: Event, now: nat, slot: nat, states: seq<bool>, fires: bool, out: seq<Event>)
      returns (e': Engine)
    requires Wf(e) && |e.chords| > 0
    requires ev.Coord() in e.keyChordMap && e.keyChordMap[ev.Coord()] == [0]
    requires e.chords[0].action == [(4, 0)]
    requires Lookup(e.chords[0].keyMap, ev.Coord()) == Some(slot)
    requires slot < |e.chords[0].states| && states == e.chords[0].states[slot := ev.Press?]
    requires fires <==> AllTrue(states) != e.chords[0].active && AllTrue(states) == ev.Press?
    requires fires ==> out == (if ev.Press? then [Press(4, 0)] else [Release(4, 0)])
    requires !fires ==> ev.Press? ==> out == []
    requires !fires ==> ev.Release? ==> ev.Coord() !in e.held && ev.Coord() in e.ignored && out == []
    ensures Process(e, ev, now).Ok? && Process(e, ev, now).value.1 == out
    ensures e' == Process(e, ev, now).value.0 && e'.chords[0].states == states
    ensures e'.chords[0].active == AllTrue(states)
    ensures Wf(e') && e'.keyChordMap == e.keyChordMap && |e'.chords| == |e.chords|
    ensures e'.chords[0].keyMap == e.chords[0].keyMap && e'.chords[0].action == [(4, 0)]
    ensures ev.Press? && fires ==> e'.held == [] && e'.ignored == RemoveAll(e.ignored, ev.Coord())
    ensures ev.Press? && !fires ==> e'.ignored == RemoveAll(e.ignored, ev.Coord())
    ensures ev.Release? && fires ==>
      e'.held == e.held && e'.ignored == PushAllCapped(e.ignored, StillPressed(e'.chords[0]))
  {
    var pc := ProcessChord(e.chords[0], ev);
    assert ChordLoop(e.chords, [0], ev) == (e.chords[0 := pc.0], if fires then Some(0) else None);
    e' := Process(e, ev, now).value.0;
  }
}
