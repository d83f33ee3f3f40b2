/** The key tasks of firmware/src/keys/mod.rs as step functions: the
    right half's coordinate mirroring, the chord processor's outputs, the
    mapping between key events and inter-board messages, and the key event
    processor's custom events and report de-duplication. keyberon's
    `Layout` (which turns events into keycodes and custom events) is not
    modelled; its outputs are inputs here. */
module Keys {

  import opened Util
  import opened KeyEvent
  import Chording

  /** `evt.transform(|x, y| (x, 9 - y))`; the `u8` subtraction wraps. */
  function Mirror(e: Event): (m: Event)
    ensures m.Press? == e.Press? && m.row == e.row
    ensures e.col <= 9 ==> m.col == 9 - e.col
  {
    var col := WrapU8(9 - e.col);
    if e.Press? then Press(e.row, col) else Release(e.row, col)
  }

  /** Mirroring twice is the identity, for every column (with wrap-around
      the map y -> 9 - y is its own inverse modulo 256). */
  lemma MirrorInvolution(e: Event)
    ensures Mirror(Mirror(e)) == e
  {
    var c: int := WrapU8(9 - e.col);
    var q := (9 - e.col) / U8_LIMIT;
    assert 9 - e.col == q * U8_LIMIT + c;
    DivUnique(9 - c, U8_LIMIT, q, e.col);
  }

  /** `matrix_scanner`: the events of one scan, mirrored on the right
      half, in scan order. */
  function ScannedEvents(events: seq<Event>, isRight: bool): (out: seq<Event>)
    ensures |out| == |events|
    ensures forall i :: 0 <= i < |events| ==> out[i] == if isRight then Mirror(events[i]) else events[i]
  {
    if events == [] then []
    else [if isRight then Mirror(events[0]) else events[0]] + ScannedEvents(events[1..], isRight)
  }

  /** The scanner's columns 0..4 become 9..5 on the right half, so the two
      halves together cover columns 0..9. */
  lemma RightHalfColumns(e: Event)
    requires e.col < 5
    ensures 5 <= Mirror(e).col <= 9
  {
  }

  /** What `matrix_processor` selects: a timer tick or a matrix event. */
  datatype ProcessorInput = Tick | Matrix(event: Event)

  /** One iteration of `matrix_processor`. The events are published both
      locally and to the other half, in the same order. Keys released by a
      timed-out `tick` are sent as Press events. */
  function ProcessorStep(e: Chording.Engine, input: ProcessorInput, now: nat): (r: Result<(Chording.Engine, seq<Event>)>)
    requires Chording.Wf(e) && now >= e.lastPress
    ensures r.Ok? ==> Chording.Wf(r.value.0)
    ensures input.Tick? ==> r.Ok?
    ensures input.Tick? && now - e.lastPress > Chording.CHORD_TIMEOUT ==>
      r.value.1 == Presses(e.held) && r.value.0.held == []
    ensures input.Tick? && now - e.lastPress <= Chording.CHORD_TIMEOUT ==> r == Ok((e, []))
    ensures input.Matrix? ==> r == Chording.Process(e, input.event, now)
  {
    match input
    case Tick =>
      var (e1, keys) := Chording.Tick(e, now);
      Ok((e1, Presses(keys)))
    case Matrix(ev) => Chording.Process(e, ev, now)
  }

  /** The mouse flags synchronised between the halves. */
  datatype MouseState = MouseState(left: bool, right: bool, scrolling: bool)

  /** A mouse report, four `i8` deltas. */
  datatype MouseReport = MouseReport(x: i8, y: i8, wheel: i8, pan: i8)

  /** The inter-board message type. Payloads of the variants the key tasks
      do not look at are abstracted to a number. */
  datatype DeviceToDevice =
    | Ping
    | Pong
    | ForwardedFromHost(payload: nat)
    | ForwardedToHost(payload: nat)
    | ForwardedToHostMouse(report: MouseReport)
    | KeyPress(x: u8, y: u8)
    | KeyRelease(x: u8, y: u8)
    | SetAnimation(payload: nat)
    | SyncAnimation(payload: nat)
    | SyncMouseState(state: MouseState)

  /** `send_events_to_other_side`. */
  function ToWire(e: Event): (m: DeviceToDevice)
    ensures m.KeyPress? || m.KeyRelease?
    ensures m.KeyPress? <==> e.Press?
    ensures m.x == e.row && m.y == e.col
  {
    match e
    case Press(x, y) => KeyPress(x, y)
    case Release(x, y) => KeyRelease(x, y)
  }

  /** `receive_events_from_other_side`: key messages become events, every
      other message is skipped. */
  function FromWire(m: DeviceToDevice): (r: Option<Event>)
    ensures r.Some? <==> m.KeyPress? || m.KeyRelease?
    ensures r.Some? ==> ToWire(r.value) == m
  {
    match m
    case KeyPress(x, y) => Some(Press(x, y))
    case KeyRelease(x, y) => Some(Release(x, y))
    case _ => None
  }

  lemma WireRoundTrip(e: Event)
    ensures FromWire(ToWire(e)) == Some(e)
  {
  }

  /** The events the receiver publishes for a stream of messages. */
  function ReceivedEvents(ms: seq<DeviceToDevice>): (es: seq<Event>)
    ensures |es| <= |ms|
    decreases |ms|
  {
    if ms == [] then []
    else
      var rest := ReceivedEvents(ms[1..]);
      match FromWire(ms[0])
      case Some(e) => [e] + rest
      case None => rest
  }

  /** Sending a stream of events and receiving it on the other half gives
      back the same stream: nothing is added, lost or reordered. */
  lemma {:induction false} EventsCrossUnchanged(es: seq<Event>)
    ensures ReceivedEvents(Map(es)) == es
    decreases |es|
  {
    if es != [] {
      assert Map(es)[1..] == Map(es[1..]);
      EventsCrossUnchanged(es[1..]);
    }
  }

  function Map(es: seq<Event>): (ms: seq<DeviceToDevice>)
    ensures |ms| == |es| && forall i :: 0 <= i < |es| ==> ms[i] == ToWire(es[i])
  {
    seq(|es|, i requires 0 <= i < |es| => ToWire(es[i]))
  }

  /** The custom events of the keymap. */
  datatype UnicodeMode = Linux | Mac
  datatype CustomEvent = MouseLeft | MouseRight | MouseScroll | TypeUnicode(text: string, mode: UnicodeMode)

  /** The effects of one custom event reported by the layout: the new
      mouse state (always sent to the other half and published), and the
      text handed to the unicode task, if any. */
  function HandleCustom(ms: MouseState, ev: CustomEvent, isPress: bool): (r: (MouseState, Option<string>))
    ensures ev.MouseLeft? ==> r.0 == ms.(left := isPress)
    ensures ev.MouseRight? ==> r.0 == ms.(right := isPress)
    ensures ev.MouseScroll? ==> r.0 == ms.(scrolling := isPress)
    ensures ev.TypeUnicode? ==> r.0 == ms
    ensures r.1.Some? <==> ev.TypeUnicode? && !isPress
    ensures r.1.Some? ==> r.1.value == ev.text
  {
    match ev
    case MouseLeft => (ms.(left := isPress), None)
    case MouseRight => (ms.(right := isPress), None)
    case MouseScroll => (ms.(scrolling := isPress), None)
    case TypeUnicode(text, _) => (ms, if isPress then None else Some(text))
  }

  /** The messages a custom event produces: the mouse state goes to the
      other half and onto this half's bus, whatever the event was. */
  function CustomMessages(ms: MouseState, ev: CustomEvent, isPress: bool): (msgs: seq<DeviceToDevice>)
    ensures |msgs| == 1 && msgs[0].SyncMouseState?
    ensures ev.TypeUnicode? ==> msgs[0].state == ms
    ensures ev.MouseLeft? ==>
      msgs[0].state.left == isPress && msgs[0].state.right == ms.right
      && msgs[0].state.scrolling == ms.scrolling
  {
    [SyncMouseState(HandleCustom(ms, ev, isPress).0)]
  }

  /** The capacity of the keycode list. */
  const KEYCODE_CAPACITY: nat := 24

  /** The usages behind a report: each keycode cast to `u8` and looked up
      in the HID usage table `fromPrimitive` (from the HID crate, not part
      of this model), in order, dropping the codes it does not know. */
  function Usages(keycodes: seq<nat>, fromPrimitive: nat -> Option<nat>): (us: seq<nat>)
    ensures |us| <= |keycodes|
    ensures forall u :: u in us <==> exists k :: k in keycodes && fromPrimitive(k % 256) == Some(u)
    decreases |keycodes|
  {
    if keycodes == [] then []
    else
      var rest := Usages(keycodes[1..], fromPrimitive);
      assert forall k :: k in keycodes <==> k == keycodes[0] || k in keycodes[1..];
      match fromPrimitive(keycodes[0] % 256)
      case Some(u) => [u] + rest
      case None => rest
  }

  /** The report de-duplication after each iteration: the layout's
      keycodes are collected (`from_iter` panics past 24), and when they
      differ from the last published list they replace it and a report is
      published, built by `NKROBootKeyboardReport::new` (the parameter
      `report`, not part of this model) from their usages. */
  function ReportStep<R>(state: seq<nat>, keycodes: seq<nat>, fromPrimitive: nat -> Option<nat>,
                         report: seq<nat> -> R): (r: Result<(seq<nat>, Option<R>)>)
    ensures r.Panic? <==> |keycodes| > KEYCODE_CAPACITY
    ensures r.Ok? ==> r.value.0 == keycodes
    ensures r.Ok? ==> (r.value.1.Some? <==> keycodes != state)
    ensures r.Ok? && r.value.1.Some? ==> r.value.1.value == report(Usages(keycodes, fromPrimitive))
  {
    if |keycodes| > KEYCODE_CAPACITY then Panic("Vec::from_iter overflow")
    else if keycodes != state then Ok((keycodes, Some(report(Usages(keycodes, fromPrimitive)))))
    else Ok((state, None))
  }

  /** The reports over a run of iterations, each paired with the keycode
      list it was built from. */
  function Reports<R>(state: seq<nat>, frames: seq<seq<nat>>, fromPrimitive: nat -> Option<nat>,
                      report: seq<nat> -> R): (r: Result<seq<(seq<nat>, R)>>)
    decreases |frames|
  {
    if frames == [] then Ok([])
    else match ReportStep(state, frames[0], fromPrimitive, report)
      case Panic(why) => Panic(why)
      case Ok((s, out)) =>
        match Reports(s, frames[1..], fromPrimitive, report)
        case Panic(why) => Panic(why)
        case Ok(rest) => Ok((if out.Some? then [(s, out.value)] else []) + rest)
  }

  /** Every report is built from its keycode list, no two consecutive
      published keycode lists are equal, and the first differs from the
      list before the run. */
  lemma {:induction false} ReportsNeverRepeat<R>(state: seq<nat>, frames: seq<seq<nat>>,
                                                 fromPrimitive: nat -> Option<nat>, report: seq<nat> -> R)
    requires Reports(state, frames, fromPrimitive, report).Ok?
    ensures var rs := Reports(state, frames, fromPrimitive, report).value;
      (forall i :: 0 <= i < |rs| ==> rs[i].1 == report(Usages(rs[i].0, fromPrimitive)))
      && (|rs| > 0 ==> rs[0].0 != state) && forall i :: 0 < i < |rs| ==> rs[i].0 != rs[i - 1].0
    decreases |frames|
  {
    if frames != [] {
      var (s, out) := ReportStep(state, frames[0], fromPrimitive, report).value;
      ReportsNeverRepeat(s, frames[1..], fromPrimitive, report);
      var rest := Reports(s, frames[1..], fromPrimitive, report).value;
      if out.Some? {
        assert Reports(state, frames, fromPrimitive, report).value == [(s, out.value)] + rest;
      } else {
        assert s == state;
      }
    }
  }

  /** Distinct keycode lists can still give the same report: a keycode
      the usage table does not know changes the list but not the usages, so
      the report published after it repeats the one before. */
  lemma EqualReportsPossible<R>(fromPrimitive: nat -> Option<nat>, report: seq<nat> -> R)
    requires fromPrimitive(4) == Some(4) && fromPrimitive(0) == None
    ensures var r1 := ReportStep([], [4], fromPrimitive, report);
      var r2 := ReportStep([4], [4, 0], fromPrimitive, report);
      r1.Ok? && r2.Ok? && r1.value.1.Some? && r2.value.1.Some? && r1.value.1 == r2.value.1
  {
    assert Usages([4, 0], fromPrimitive) == [4] by {
      assert [4, 0][1..] == [0];
      assert [0][1..] == [];
    }
    assert Usages([4], fromPrimitive) == [4] by {
      assert [4][1..] == [];
    }
  }
}
