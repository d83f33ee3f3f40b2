/** The reliability layer of firmware/src/messages/transmissions.rs, as
    sequential steps over an explicit node state.

    A node owns the outbound mix channel (modelled as the sequence of
    everything ever sent on it), the stream of payloads it published to its
    local subscribers, and the waiter map from uuid to the waiter's event.
    An event lives in an `Arc`, so it can outlive its map entry: each one
    is a numbered handle, and `signalled` holds the handles whose event has
    been set. Frames arrive already decoded; the timeout of a wait is an
    explicit outcome chosen by the caller. */
module Transmissions {

  import opened Util
  import opened Cmd

  /** Size of the COBS buffer on both directions. */
  const BUF_SIZE: nat := 128

  /** Slots of the heapless waiter map. */
  const WAITER_CAPACITY: nat := 128

  type Handle = nat

  datatype Node<T, U> = Node(
    mix: seq<CmdOrAck<T>>,
    published: seq<U>,
    waiters: map<byte, Handle>,
    signalled: set<Handle>,
    nextHandle: Handle)

  function Fresh<T, U>(): Node<T, U>
  {
    Node([], [], map[], {}, 0)
  }

  // ---------------------------------------------------------------------
  // Receiving (`recv_task_inner`).
  // ---------------------------------------------------------------------

  /** What handling one decoded frame does, in the order it does it. */
  datatype RxEffect<U> = EnqueueAck(ack: Ack) | Publish(payload: U) | WakeWaiter(uuid: byte)

  function RxEffects<U>(hash: Hash64, feed: U -> seq<byte>, frame: CmdOrAck<U>): (es: seq<RxEffect<U>>)
    // a corrupted command is neither acked nor published
    ensures frame.CmdMsg? && !Validate(hash, feed, frame.command) ==> es == []
    // a valid reliable command is acked once, then published
    ensures frame.CmdMsg? && Validate(hash, feed, frame.command) && frame.command.reliability.Reliable? ==>
      es == [EnqueueAck(AckOf(hash, frame.command).value), Publish(frame.command.cmd)]
    // a valid unreliable command is dropped: publishing sits inside the ack branch
    ensures frame.CmdMsg? && frame.command.reliability.Unreliable? ==> es == []
    // an ack wakes its waiter only if it validates
    ensures frame.AckMsg? ==>
      es == (if AckValidate(hash, frame.ack).Some? then [WakeWaiter(frame.ack.uuid)] else [])
  {
    match frame
    case CmdMsg(c) =>
      if Validate(hash, feed, c) then
        match AckOf(hash, c)
        case Some(a) => [EnqueueAck(a), Publish(c.cmd)]
        case None => []
      else []
    case AckMsg(a) =>
      match AckValidate(hash, a)
      case Some(a') => [WakeWaiter(a'.uuid)]
      case None => []
  }

  function ApplyRx<T, U>(n: Node<T, U>, e: RxEffect<U>): Node<T, U>
  {
    match e
    case EnqueueAck(a) => n.(mix := n.mix + [AckMsg(a)])
    case Publish(u) => n.(published := n.published + [u])
    case WakeWaiter(uuid) =>
      if uuid in n.waiters then
        n.(waiters := n.waiters - {uuid}, signalled := n.signalled + {n.waiters[uuid]})
      else n
  }

  function ApplyAllRx<T, U>(n: Node<T, U>, es: seq<RxEffect<U>>): Node<T, U>
    decreases |es|
  {
    if es == [] then n else ApplyAllRx(ApplyRx(n, es[0]), es[1..])
  }

  /** Handling one decoded frame. */
  function Receive<T, U>(hash: Hash64, feed: U -> seq<byte>, n: Node<T, U>, frame: CmdOrAck<U>): (r: Node<T, U>)
    ensures r.nextHandle == n.nextHandle
    // an ack's waiter is removed and its event set; nothing else changes
    ensures frame.AckMsg? && AckValidate(hash, frame.ack).Some? && frame.ack.uuid in n.waiters ==>
      r == n.(waiters := n.waiters - {frame.ack.uuid},
              signalled := n.signalled + {n.waiters[frame.ack.uuid]})
    // an invalid ack, or one nobody waits for, changes nothing
    ensures frame.AckMsg? && (AckValidate(hash, frame.ack).None? || frame.ack.uuid !in n.waiters) ==> r == n
    // commands never touch the waiters
    ensures frame.CmdMsg? ==> r.waiters == n.waiters && r.signalled == n.signalled
    // a corrupted or unreliable command changes nothing
    ensures frame.CmdMsg? && !IsDelivered(hash, feed, frame) ==> r == n
    // a valid reliable one is acked on the mix channel and published
    ensures IsDelivered(hash, feed, frame) ==>
      r.mix == n.mix + [AckMsg(Ack(frame.command.reliability.uuid, CalcCsum(hash, AckStream(frame.command.reliability.uuid))))]
      && r.published == n.published + [frame.command.cmd]
  {
    match frame
    case CmdMsg(c) =>
      if IsDelivered(hash, feed, frame) then
        n.(mix := n.mix + [AckMsg(AckOf(hash, c).value)], published := n.published + [c.cmd])
      else n
    case AckMsg(a) =>
      if AckValidate(hash, a).Some? && a.uuid in n.waiters then
        n.(waiters := n.waiters - {a.uuid}, signalled := n.signalled + {n.waiters[a.uuid]})
      else n
  }

  /** Receiving a frame performs its effects in the order listed by
      `RxEffects`: the ack is enqueued before the payload is published. */
  lemma ReceiveFollowsEffects<T, U>(hash: Hash64, feed: U -> seq<byte>, n: Node<T, U>, frame: CmdOrAck<U>)
    ensures Receive(hash, feed, n, frame) == ApplyAllRx(n, RxEffects(hash, feed, frame))
  {
    var es := RxEffects(hash, feed, frame);
    if IsDelivered(hash, feed, frame) {
      var a := AckOf(hash, frame.command).value;
      var n1 := ApplyRx(n, EnqueueAck(a));
      var n2 := ApplyRx(n1, Publish(frame.command.cmd));
      assert es[1..] == [Publish(frame.command.cmd)];
      assert es[1..][1..] == [];
      assert ApplyAllRx(n, es) == ApplyAllRx(n1, es[1..]) == ApplyAllRx(n2, []);
    } else if es != [] {
      assert es[1..] == [];
    }
  }

  /** The receiver over a stream of frames. It only ever adds to what it
      has published and to the signalled events, only ever removes waiters,
      never registers a handle, and what it enqueues is acks. */
  function ReceiveAll<T, U>(hash: Hash64, feed: U -> seq<byte>, n: Node<T, U>, frames: seq<CmdOrAck<U>>): (r: Node<T, U>)
    ensures n.published <= r.published
    ensures n.signalled <= r.signalled
    ensures r.waiters.Keys <= n.waiters.Keys
    ensures r.nextHandle == n.nextHandle
    ensures n.mix <= r.mix && forall i :: |n.mix| <= i < |r.mix| ==> r.mix[i].AckMsg?
    decreases |frames|
  {
    if frames == [] then n else ReceiveAll(hash, feed, Receive(hash, feed, n, frames[0]), frames[1..])
  }

  /** The frames whose payload the receiver hands on. */
  predicate IsDelivered<U>(hash: Hash64, feed: U -> seq<byte>, frame: CmdOrAck<U>)
  {
    frame.CmdMsg? && frame.command.reliability.Reliable? && Validate(hash, feed, frame.command)
  }

  /** The payloads of the commands among `frames`, in order. */
  function Payloads<U>(frames: seq<CmdOrAck<U>>): (ps: seq<U>)
    ensures |ps| <= |frames|
  {
    if frames == [] then [] else PayloadOf(frames[0]) + Payloads(frames[1..])
  }

  function PayloadOf<U>(frame: CmdOrAck<U>): seq<U>
  {
    if frame.CmdMsg? then [frame.command.cmd] else []
  }

  lemma {:induction false} PayloadsAppend<U>(a: seq<CmdOrAck<U>>, b: seq<CmdOrAck<U>>)
    ensures Payloads(a + b) == Payloads(a) + Payloads(b)
  {
    if a == [] {
      assert a + b == b;
    } else {
      var t := a[1..];
      assert (a + b)[0] == a[0];
      assert (a + b)[1..] == t + b;
      PayloadsAppend(t, b);
      calc {
        Payloads(a + b);
        PayloadOf(a[0]) + Payloads(t + b);
        PayloadOf(a[0]) + (Payloads(t) + Payloads(b));
        (PayloadOf(a[0]) + Payloads(t)) + Payloads(b);
      }
    }
  }

  /** Over any stream of frames, the receiver publishes exactly the payloads
      of the valid reliable commands, in arrival order, duplicates included:
      there is no duplicate suppression. */
  lemma {:induction false} ReceiveAllPublishes<T, U>(hash: Hash64, feed: U -> seq<byte>, n: Node<T, U>, frames: seq<CmdOrAck<U>>)
    decreases |frames|
    ensures var d := Filter(frames, f => IsDelivered(hash, feed, f));
      ReceiveAll(hash, feed, n, frames).published == n.published + Payloads(d)
  {
    var p := (f: CmdOrAck<U>) => IsDelivered(hash, feed, f);
    if frames != [] {
      var f := frames[0];
      var n' := Receive(hash, feed, n, f);
      ReceiveAllPublishes(hash, feed, n', frames[1..]);
      var d1 := Filter(frames[1..], p);
      if p(f) {
        assert Filter(frames, p) == [f] + d1;
        assert Payloads([f] + d1) == [f.command.cmd] + Payloads(d1) by {
          assert ([f] + d1)[1..] == d1;
        }
        assert n'.published == n.published + [f.command.cmd];
        Assoc(n.published, [f.command.cmd], Payloads(d1));
      } else {
        assert Filter(frames, p) == d1;
        assert n'.published == n.published;
      }
    }
  }

  /** A valid reliable command arriving twice (a retransmission after a lost
      ack) is acked and published twice. */
  lemma RetransmissionDeliveredTwice<T, U>(hash: Hash64, feed: U -> seq<byte>, n: Node<T, U>, c: Command<U>)
    requires c.reliability.Reliable? && Validate(hash, feed, c)
    ensures var r := Receive(hash, feed, Receive(hash, feed, n, CmdMsg(c)), CmdMsg(c));
      var ack := AckMsg(AckOf(hash, c).value);
      r.published == n.published + [c.cmd, c.cmd] && r.mix == n.mix + [ack, ack]
  {
  }

  /** Unreliable commands are never published by this receiver. */
  lemma UnreliableNeverPublished<T, U>(hash: Hash64, feed: U -> seq<byte>, n: Node<T, U>, cmd: U)
    ensures Receive(hash, feed, n, CmdMsg(NewUnreliable(cmd))) == n
  {
  }

  // ---------------------------------------------------------------------
  // Sending (`EventSender`).
  // ---------------------------------------------------------------------

  /** `register_waiter`: inserting into the heapless map fails, and the
      sender panics, only when all slots are taken by other uuids; an entry
      for the same uuid is replaced. */
  function RegisterWaiter<T, U>(n: Node<T, U>, uuid: byte): (r: Result<(Node<T, U>, Handle)>)
    ensures r.Panic? <==> uuid !in n.waiters && |n.waiters| >= WAITER_CAPACITY
    ensures r.Ok? ==> var (n', h) := r.value;
      h == n.nextHandle && h !in n.signalled && n'.waiters == n.waiters[uuid := h]
      && n'.nextHandle == h + 1 && n'.mix == n.mix && n'.published == n.published
      && n'.signalled == n.signalled
    requires forall h :: h in n.signalled ==> h < n.nextHandle
  {
    if uuid !in n.waiters && |n.waiters| >= WAITER_CAPACITY then Panic("Duped waiter uuid")
    else Ok((n.(waiters := n.waiters[uuid := n.nextHandle], nextHandle := n.nextHandle + 1), n.nextHandle))
  }

  function DeregisterWaiter<T, U>(n: Node<T, U>, uuid: byte): (r: Node<T, U>)
    ensures uuid !in r.waiters
    ensures forall k :: k in r.waiters <==> k in n.waiters && k != uuid
    ensures forall k :: k in r.waiters ==> k in n.waiters && r.waiters[k] == n.waiters[k]
    ensures r.mix == n.mix && r.published == n.published
    ensures r.signalled == n.signalled && r.nextHandle == n.nextHandle
  {
    n.(waiters := n.waiters - {uuid})
  }

  function SendUnreliable<T, U>(n: Node<T, U>, msg: T): (r: Node<T, U>)
    ensures r.mix == n.mix + [CmdMsg(Command(Unreliable, msg))]
    ensures r.published == n.published && r.waiters == n.waiters
    ensures r.signalled == n.signalled && r.nextHandle == n.nextHandle
  {
    n.(mix := n.mix + [CmdMsg(NewUnreliable(msg))])
  }

  /** Where a `send_reliable` call stands: not in one, or waiting on the
      waiter of its current attempt. */
  datatype Sender<T> = Idle | Waiting(msg: T, timeout: nat, uuid: byte, handle: Handle)

  /** One attempt of `send_reliable`: register the waiter, then enqueue the
      command. The uuid is an input (it is generated outside this file). */
  function BeginAttempt<T, U>(hash: Hash64, feed: T -> seq<byte>, n: Node<T, U>, msg: T, timeout: nat, uuid: byte)
    : (r: Result<(Node<T, U>, Sender<T>)>)
    requires forall h :: h in n.signalled ==> h < n.nextHandle
    ensures r.Panic? <==> uuid !in n.waiters && |n.waiters| >= WAITER_CAPACITY
    ensures r.Ok? ==> var (n', s) := r.value;
      s == Waiting(msg, timeout, uuid, n.nextHandle)
      && n'.mix == n.mix + [CmdMsg(NewReliable(hash, feed, msg, uuid))]
      && n'.waiters == n.waiters[uuid := n.nextHandle]
      && n'.published == n.published
      && n'.signalled == n.signalled && n'.nextHandle == n.nextHandle + 1
  {
    match RegisterWaiter(n, uuid)
    case Panic(why) => Panic(why)
    case Ok((n', h)) =>
      Ok((n'.(mix := n'.mix + [CmdMsg(NewReliable(hash, feed, msg, uuid))]), Waiting(msg, timeout, uuid, h)))
  }

  /** The end of one wait, which comes once the event is set or the
      deadline passes (`deadlinePassed` is the timer's outcome). The waiter
      is polled before the timer, so a set event ends the call even when the
      deadline has passed as well; only an unset event at the deadline makes
      the sender deregister the uuid and send the same payload again, with
      the same timeout, under `nextUuid`. */
  function Resume<T, U>(hash: Hash64, feed: T -> seq<byte>, n: Node<T, U>, s: Sender<T>, deadlinePassed: bool, nextUuid: byte)
    : (r: Result<(Node<T, U>, Sender<T>)>)
    requires s.Waiting? && (s.handle in n.signalled || deadlinePassed)
    requires forall h :: h in n.signalled ==> h < n.nextHandle
    ensures r.Ok? ==> (r.value.1.Idle? <==> s.handle in n.signalled)
    ensures s.handle in n.signalled ==> r == Ok((n, Idle))
    ensures r.Ok? && r.value.1.Waiting? ==>
      r.value.1.msg == s.msg && r.value.1.timeout == s.timeout && r.value.1.uuid == nextUuid
      && r.value.0.mix == n.mix + [CmdMsg(NewReliable(hash, feed, s.msg, nextUuid))]
      && r.value.0.waiters == (n.waiters - {s.uuid})[nextUuid := n.nextHandle]
  {
    if s.handle in n.signalled then Ok((n, Idle))
    else BeginAttempt(hash, feed, DeregisterWaiter(n, s.uuid), s.msg, s.timeout, nextUuid)
  }

  /** A queued message: `timeout` Some means reliable. */
  datatype Transmitted<T> = Transmitted(msg: T, timeout: Option<nat>)

  /** The sender task's dispatch in `split_tasks`. */
  function Dispatch<T, U>(hash: Hash64, feed: T -> seq<byte>, n: Node<T, U>, tm: Transmitted<T>, uuid: byte)
    : (r: Result<(Node<T, U>, Sender<T>)>)
    requires forall h :: h in n.signalled ==> h < n.nextHandle
    ensures tm.timeout.None? ==> r == Ok((SendUnreliable(n, tm.msg), Idle))
    ensures tm.timeout.Some? ==> r == BeginAttempt(hash, feed, n, tm.msg, tm.timeout.value, uuid)
  {
    match tm.timeout
    case Some(t) => BeginAttempt(hash, feed, n, tm.msg, t, uuid)
    case None => Ok((SendUnreliable(n, tm.msg), Idle))
  }

  /** What holds between a node and its sender: handles are allocated in
      order, an idle sender has no waiter, and a waiting one has at most the
      waiter of its current attempt, which is gone exactly when its event
      has been set. */
  predicate SenderInv<T, U>(n: Node<T, U>, s: Sender<T>)
  {
    (forall h :: h in n.signalled ==> h < n.nextHandle)
    && (s.Idle? ==> n.waiters == map[])
    && (s.Waiting? ==>
          s.handle < n.nextHandle
          && (n.waiters == map[] || n.waiters == map[s.uuid := s.handle])
          && (n.waiters == map[] <==> s.handle in n.signalled))
  }

  lemma FreshInv<T, U>()
    ensures SenderInv(Fresh<T, U>(), Idle)
  {
  }

  /** Under the invariant no attempt can panic: the map never holds more
      than one waiter. */
  lemma DispatchPreservesInv<T, U>(hash: Hash64, feed: T -> seq<byte>, n: Node<T, U>, tm: Transmitted<T>, uuid: byte)
    requires SenderInv(n, Idle)
    ensures var r := Dispatch(hash, feed, n, tm, uuid);
      r.Ok? && SenderInv(r.value.0, r.value.1)
      && (r.value.1.Waiting? <==> tm.timeout.Some?)
  {
    assert |n.waiters| == 0;
    if tm.timeout.Some? {
      WaitingAfterBegin(hash, feed, n, tm.msg, tm.timeout.value, uuid);
    }
  }

  /** Starting an attempt on an empty waiter map sets up a single waiter. */
  lemma WaitingAfterBegin<T, U>(hash: Hash64, feed: T -> seq<byte>, n: Node<T, U>, msg: T, timeout: nat, uuid: byte)
    requires n.waiters == map[] && forall h :: h in n.signalled ==> h < n.nextHandle
    ensures var r := BeginAttempt(hash, feed, n, msg, timeout, uuid);
      r.Ok? && SenderInv(r.value.0, r.value.1)
  {
    assert |n.waiters| == 0;
    var (n', s') := BeginAttempt(hash, feed, n, msg, timeout, uuid).value;
    assert n'.waiters == map[uuid := n.nextHandle];
    assert n'.waiters.Keys == {uuid};
  }

  lemma ResumePreservesInv<T, U>(hash: Hash64, feed: T -> seq<byte>, n: Node<T, U>, s: Sender<T>, deadlinePassed: bool, nextUuid: byte)
    requires s.Waiting? && SenderInv(n, s) && (s.handle in n.signalled || deadlinePassed)
    ensures var r := Resume(hash, feed, n, s, deadlinePassed, nextUuid);
      r.Ok? && SenderInv(r.value.0, r.value.1)
  {
    if s.handle !in n.signalled {
      var n' := DeregisterWaiter(n, s.uuid);
      assert n'.waiters == map[];
      WaitingAfterBegin(hash, feed, n', s.msg, s.timeout, nextUuid);
    }
  }

  lemma ReceivePreservesInv<T, U>(hash: Hash64, feedU: U -> seq<byte>, n: Node<T, U>, s: Sender<T>, frame: CmdOrAck<U>)
    requires SenderInv(n, s)
    ensures SenderInv(Receive(hash, feedU, n, frame), s)
  {
  }

  // ---------------------------------------------------------------------
  // Transmitting (`EventOutProcessor::task`).
  // ---------------------------------------------------------------------

  /** Room of the 16-byte pipe the frames are written into. */
  const PIPE_CAPACITY: nat := 16

  /** What one `write` call delivers of a frame: the prefix of `taken`
      bytes, the count the transport returns. */
  function Delivered(frame: seq<byte>, taken: nat): (d: seq<byte>)
    ensures |d| <= |frame| && d == frame[..|d|]
    ensures taken >= |frame| ==> d == frame
  {
    frame[..Min(taken, |frame|)]
  }

  /** The bytes written for a stretch of the mix channel, one `write` call
      per item. `encode` is the COBS encoding of an item; an item whose
      encoding does not fit the buffer is dropped without notice.
      `taken[i]` is the count the write of item i returns; the source
      ignores it, so whatever the pipe did not take is lost. */
  function OutFrames<T>(encode: CmdOrAck<T> -> seq<byte>, items: seq<CmdOrAck<T>>, taken: seq<nat>)
    : (frames: seq<seq<byte>>)
    requires |taken| == |items|
    ensures |frames| <= |items|
    ensures forall f :: f in frames ==> |f| <= BUF_SIZE
  {
    if items == [] then []
    else
      var e := encode(items[0]);
      (if |e| <= BUF_SIZE then [Delivered(e, taken[0])] else []) + OutFrames(encode, items[1..], taken[1..])
  }

  /** Draining the channel in pieces writes the same frames as draining it
      at once, so frames leave in dequeue order. */
  lemma {:induction false} OutFramesAppend<T>(encode: CmdOrAck<T> -> seq<byte>, a: seq<CmdOrAck<T>>, b: seq<CmdOrAck<T>>,
                                               ta: seq<nat>, tb: seq<nat>)
    requires |ta| == |a| && |tb| == |b|
    ensures OutFrames(encode, a + b, ta + tb) == OutFrames(encode, a, ta) + OutFrames(encode, b, tb)
  {
    if a != [] {
      assert (a + b)[1..] == a[1..] + b;
      assert (ta + tb)[1..] == ta[1..] + tb;
      assert (a + b)[0] == a[0] && (ta + tb)[0] == ta[0];
      OutFramesAppend(encode, a[1..], b, ta[1..], tb);
    } else {
      assert a + b == b && ta + tb == tb;
    }
  }

  /** Items that fit are all written, each as the prefix of its encoding
      that its write took; in full exactly when the write took it all. */
  lemma {:induction false} OutFramesAllFit<T>(encode: CmdOrAck<T> -> seq<byte>, items: seq<CmdOrAck<T>>, taken: seq<nat>)
    requires |taken| == |items|
    requires forall i :: 0 <= i < |items| ==> |encode(items[i])| <= BUF_SIZE
    ensures |OutFrames(encode, items, taken)| == |items|
    ensures forall i :: 0 <= i < |items| ==> OutFrames(encode, items, taken)[i] == Delivered(encode(items[i]), taken[i])
    ensures forall i :: 0 <= i < |items| ==>
      (OutFrames(encode, items, taken)[i] == encode(items[i]) <==> taken[i] >= |encode(items[i])|)
  {
    if items != [] {
      OutFramesAllFit(encode, items[1..], taken[1..]);
    }
  }

  /** An item too large for the buffer leaves no trace on the wire. */
  lemma OversizedDropped<T>(encode: CmdOrAck<T> -> seq<byte>, items: seq<CmdOrAck<T>>, taken: seq<nat>, x: CmdOrAck<T>, t: nat)
    requires |taken| == |items|
    requires |encode(x)| > BUF_SIZE
    ensures OutFrames(encode, items + [x], taken + [t]) == OutFrames(encode, items, taken)
  {
    OutFramesAppend(encode, items, [x], taken, [t]);
  }

  /** The pipe takes at most its room per call, so a frame longer than 16
      bytes never goes out whole: its tail is lost. */
  lemma LongFrameTruncated<T>(encode: CmdOrAck<T> -> seq<byte>, x: CmdOrAck<T>, t: nat)
    requires PIPE_CAPACITY < |encode(x)| <= BUF_SIZE && t <= PIPE_CAPACITY
    ensures OutFrames(encode, [x], [t]) == [encode(x)[..t]]
    ensures OutFrames(encode, [x], [t]) != [encode(x)]
  {
    assert [x][1..] == [] && [t][1..] == [];
  }

  /** `write_all`, the evidently intended write: write again from where the
      last write stopped until the frame is through. The pipe's `write`
      takes a nonzero count each time (`counts[j]`). */
  function WriteAll(frame: seq<byte>, counts: seq<nat>): (sent: seq<byte>)
    requires forall j :: 0 <= j < |counts| ==> counts[j] >= 1
    ensures |sent| <= |frame| && sent == frame[..|sent|]
    decreases |counts|
  {
    if frame == [] || counts == [] then []
    else
      var k := Min(counts[0], |frame|);
      var rest := WriteAll(frame[k..], counts[1..]);
      assert frame[..k + |rest|] == frame[..k] + frame[k..][..|rest|];
      frame[..k] + rest
  }

  /** Given as many writes as the frame has bytes, `write_all` delivers the
      whole frame. */
  lemma {:induction false} WriteAllDelivers(frame: seq<byte>, counts: seq<nat>)
    requires forall j :: 0 <= j < |counts| ==> counts[j] >= 1
    requires |counts| >= |frame|
    ensures WriteAll(frame, counts) == frame
    decreases |counts|
  {
    if frame != [] {
      var k := Min(counts[0], |frame|);
      WriteAllDelivers(frame[k..], counts[1..]);
      assert frame[..k] + frame[k..] == frame;
    }
  }

  /** The transmit loop with `write_all`: `counts[i]` are the counts of
      item i's writes. */
  function OutFramesWriteAll<T>(encode: CmdOrAck<T> -> seq<byte>, items: seq<CmdOrAck<T>>, counts: seq<seq<nat>>)
    : (frames: seq<seq<byte>>)
    requires |counts| == |items|
    requires forall i, j :: 0 <= i < |counts| && 0 <= j < |counts[i]| ==> counts[i][j] >= 1
    ensures |frames| <= |items|
  {
    if items == [] then []
    else
      var e := encode(items[0]);
      (if |e| <= BUF_SIZE then [WriteAll(e, counts[0])] else []) + OutFramesWriteAll(encode, items[1..], counts[1..])
  }

  /** With `write_all`, every item that fits goes out whole and in order,
      however the pipe splits the writes. */
  lemma {:induction false} OutFramesWriteAllWhole<T>(encode: CmdOrAck<T> -> seq<byte>, items: seq<CmdOrAck<T>>, counts: seq<seq<nat>>)
    requires |counts| == |items|
    requires forall i, j :: 0 <= i < |counts| && 0 <= j < |counts[i]| ==> counts[i][j] >= 1
    requires forall i :: 0 <= i < |items| ==> |encode(items[i])| <= BUF_SIZE && |counts[i]| >= |encode(items[i])|
    ensures OutFramesWriteAll(encode, items, counts) == seq(|items|, i requires 0 <= i < |items| => encode(items[i]))
  {
    if items != [] {
      OutFramesWriteAllWhole(encode, items[1..], counts[1..]);
      WriteAllDelivers(encode(items[0]), counts[0]);
    }
  }

  // ---------------------------------------------------------------------
  // Both halves together.
  // ---------------------------------------------------------------------

  function Last<X>(s: seq<X>): X
    requires s != []
  {
    s[|s| - 1]
  }

  /** A reliable message whose frame and ack both arrive: the peer publishes
      the payload exactly once, and the sender's wait ends, whether or not
      the deadline has passed by the time the sender looks. */
  lemma ReliableRoundTrip<T>(hash: Hash64, feed: T -> seq<byte>, msg: T, timeout: nat, uuid: byte, nextUuid: byte)
    returns (a1: Node<T, T>, s1: Sender<T>, b1: Node<T, T>, a2: Node<T, T>)
    ensures Dispatch(hash, feed, Fresh(), Transmitted(msg, Some(timeout)), uuid) == Ok((a1, s1))
    ensures a1.mix != [] && b1 == Receive(hash, feed, Fresh(), Last(a1.mix))
    ensures b1.published == [msg]
    ensures b1.mix != [] && a2 == Receive(hash, feed, a1, Last(b1.mix))
    ensures Resume(hash, feed, a2, s1, false, nextUuid) == Ok((a2, Idle))
    ensures Resume(hash, feed, a2, s1, true, nextUuid) == Ok((a2, Idle))
  {
    var c := NewReliable(hash, feed, msg, uuid);
    a1, s1 := FirstAttempt(hash, feed, msg, timeout, uuid);
    b1 := PeerAcks(hash, feed, c);
    var ack := AckOf(hash, c).value;
    a2 := Receive(hash, feed, a1, AckMsg(ack));
    assert a2.signalled == {0};
  }

  /** The first attempt from a fresh node: one frame queued, one waiter. */
  lemma FirstAttempt<T>(hash: Hash64, feed: T -> seq<byte>, msg: T, timeout: nat, uuid: byte)
    returns (a1: Node<T, T>, s1: Sender<T>)
    ensures Dispatch(hash, feed, Fresh(), Transmitted(msg, Some(timeout)), uuid) == Ok((a1, s1))
    ensures a1 == Node([CmdMsg(NewReliable(hash, feed, msg, uuid))], [], map[uuid := 0], {}, 1)
    ensures s1 == Waiting(msg, timeout, uuid, 0)
  {
    var a0 := Fresh<T, T>();
    assert |a0.waiters| == 0;
    var r := Dispatch(hash, feed, a0, Transmitted(msg, Some(timeout)), uuid);
    a1, s1 := r.value.0, r.value.1;
    assert a1.mix == [] + [CmdMsg(NewReliable(hash, feed, msg, uuid))];
    assert a1.waiters == map[][uuid := 0];
  }

  /** A fresh peer receiving a valid reliable command acks and publishes it. */
  lemma PeerAcks<T>(hash: Hash64, feed: T -> seq<byte>, c: Command<T>) returns (b1: Node<T, T>)
    requires c.reliability.Reliable? && Validate(hash, feed, c)
    ensures b1 == Receive(hash, feed, Fresh(), CmdMsg(c))
    ensures b1 == Node([AckMsg(AckOf(hash, c).value)], [c.cmd], map[], {}, 0)
  {
    b1 := Receive(hash, feed, Fresh(), CmdMsg(c));
  }

  /** When the ack is lost, the timeout resends the same payload under the
      next uuid; the peer then publishes it a second time. */
  lemma LostAckDuplicates<T>(hash: Hash64, feed: T -> seq<byte>, msg: T, timeout: nat, uuid: byte, nextUuid: byte)
    returns (a1: Node<T, T>, s1: Sender<T>, a2: Node<T, T>, s2: Sender<T>)
    ensures Dispatch(hash, feed, Fresh(), Transmitted(msg, Some(timeout)), uuid) == Ok((a1, s1))
    ensures Resume(hash, feed, a1, s1, true, nextUuid) == Ok((a2, s2))
    ensures s2 == Waiting(msg, timeout, nextUuid, 1)
    ensures a1.mix != [] && a2.mix != []
    ensures ReceiveAll(hash, feed, Fresh<T, T>(), [Last(a1.mix), Last(a2.mix)]).published == [msg, msg]
  {
    a1, s1 := FirstAttempt(hash, feed, msg, timeout, uuid);
    a2, s2 := SecondAttempt(hash, feed, msg, timeout, uuid, nextUuid, a1, s1);
    PeerPublishesBoth(hash, feed, NewReliable(hash, feed, msg, uuid), NewReliable(hash, feed, msg, nextUuid));
  }

  /** The deadline passing retries: the payload is queued again under the
      next uuid, with the next handle. */
  lemma SecondAttempt<T>(hash: Hash64, feed: T -> seq<byte>, msg: T, timeout: nat, uuid: byte, nextUuid: byte,
                         a1: Node<T, T>, s1: Sender<T>)
    returns (a2: Node<T, T>, s2: Sender<T>)
    requires a1 == Node([CmdMsg(NewReliable(hash, feed, msg, uuid))], [], map[uuid := 0], {}, 1)
    requires s1 == Waiting(msg, timeout, uuid, 0)
    ensures Resume(hash, feed, a1, s1, true, nextUuid) == Ok((a2, s2))
    ensures s2 == Waiting(msg, timeout, nextUuid, 1)
    ensures a2.mix == a1.mix + [CmdMsg(NewReliable(hash, feed, msg, nextUuid))]
  {
    var n := DeregisterWaiter(a1, uuid);
    assert n.waiters == map[] && n.nextHandle == 1 && n.signalled == {};
    var r := Resume(hash, feed, a1, s1, true, nextUuid);
    assert r == BeginAttempt(hash, feed, n, msg, timeout, nextUuid);
    a2, s2 := r.value.0, r.value.1;
  }

  /** A fresh peer receiving two valid reliable commands publishes both
      payloads, in order. */
  lemma PeerPublishesBoth<T>(hash: Hash64, feed: T -> seq<byte>, c1: Command<T>, c2: Command<T>)
    requires c1.reliability.Reliable? && Validate(hash, feed, c1)
    requires c2.reliability.Reliable? && Validate(hash, feed, c2)
    ensures ReceiveAll(hash, feed, Fresh<T, T>(), [CmdMsg(c1), CmdMsg(c2)]).published == [c1.cmd, c2.cmd]
  {
    var frames := [CmdMsg(c1), CmdMsg(c2)];
    var b1 := PeerAcks(hash, feed, c1);
    var b2 := Receive(hash, feed, b1, frames[1]);
    assert frames[1..][1..] == [];
    assert ReceiveAll(hash, feed, Fresh<T, T>(), frames) == ReceiveAll(hash, feed, b1, frames[1..]) == b2;
  }
}
