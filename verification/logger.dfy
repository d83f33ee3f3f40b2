/** The log sink (firmware/src/logger.rs): each record is formatted into
    a 128-byte string, copied into a 256-byte circular byte queue, and the
    queue is drained to the host in messages of at most 32 bytes.

    The queue is the sequence of bytes committed and not yet released. Its
    circular layout shows only in how much the producer and consumer may
    grab at once; those amounts are parameters, as is the outcome of each
    non-blocking send. */
module Logger {

  import opened Util

  const FORMAT_CAPACITY: nat := 128
  const MAX_LOG_LEN: nat := 32

  const CRLF: seq<u8> := [0x0D, 0x0A]

  /** `write!` into a `heapless::String<128>`: the pieces are appended
      whole, and the first one that does not fit ends the formatting (its
      error is ignored), so nothing after it is kept. */
  function Fill(acc: seq<u8>, pieces: seq<seq<u8>>): (r: seq<u8>)
    requires |acc| <= FORMAT_CAPACITY
    ensures |r| <= FORMAT_CAPACITY
    ensures acc <= r && r <= acc + Concat(pieces)
    ensures |acc + Concat(pieces)| <= FORMAT_CAPACITY ==> r == acc + Concat(pieces)
    decreases |pieces|
  {
    if pieces == [] then acc
    else
      var next := acc + pieces[0];
      assert acc + Concat(pieces) == next + Concat(pieces[1..]);
      if |next| <= FORMAT_CAPACITY then Fill(next, pieces[1..]) else acc
  }

  /** A record's text (the pieces its arguments format to) followed by
      "\r\n". A record that fits keeps its line ending. */
  function Format(args: seq<seq<u8>>): (r: seq<u8>)
    ensures |r| <= FORMAT_CAPACITY
    ensures r <= Concat(args) + CRLF
    ensures |Concat(args)| + 2 <= FORMAT_CAPACITY ==> r == Concat(args) + CRLF
  {
    ConcatAppend(args, [CRLF]);
    assert Concat([CRLF]) == CRLF + Concat([CRLF][1..]);
    Fill([], args + [CRLF])
  }

  /** `log`'s copy into the queue. Each producer grant holds at most the
      bytes still to copy and at most the contiguous free space (`room1`,
      `room2`; `None` when the grant fails). Two grants cover the case of
      the free space wrapping round the end; what does not fit is dropped.
      Returns the new queue and how many bytes were kept. */
  function Log(queue: seq<u8>, src: seq<u8>, room1: Option<nat>, room2: Option<nat>): (r: (seq<u8>, nat))
    ensures r.1 <= |src|
    ensures r.0 == queue + src[..r.1]
    ensures room1.None? ==> r.1 == 0
    ensures room1.Some? && room2.None? ==> r.1 == Min(|src|, room1.value)
    ensures room1.Some? && room2.Some? ==> r.1 == Min(|src|, room1.value + room2.value)
  {
    if room1.None? then (queue, 0)
    else
      var first := Min(|src|, room1.value);
      if room2.None? then (queue + src[..first], first)
      else
        var second := Min(|src| - first, room2.value);
        assert src[..first + second] == src[..first] + src[first..][..second];
        (queue + src[..first + second], first + second)
  }

  /** One pass of `flush`'s inner loop over a read grant: the grant is
      cut into 32-byte chunks, each is sent while sends succeed, and the
      first refusal stops the pass. `accepted` is how many sends succeed
      before the first refusal. Returns the messages sent and the number of
      bytes to release. */
  function Drain(grant: seq<u8>, accepted: nat): (r: (seq<seq<u8>>, nat))
    ensures Messages(r.0)
    ensures r.1 <= |grant| && Concat(r.0) == grant[..r.1]
    ensures r.1 == Min(accepted * MAX_LOG_LEN, |grant|)
    ensures accepted == 0 ==> r == ([], 0)
  {
    var chunks := Chunks(grant, MAX_LOG_LEN);
    ChunksCount(grant, MAX_LOG_LEN);
    var k := Min(accepted, |chunks|);
    ChunksPrefix(grant, MAX_LOG_LEN, k);
    var emitted := Min(k * MAX_LOG_LEN, |grant|);
    SentCovers(|grant|, accepted, k);
    (chunks[..k], emitted)
  }

  lemma SentCovers(len: nat, accepted: nat, k: nat)
    requires k == Min(accepted, (len + MAX_LOG_LEN - 1) / MAX_LOG_LEN)
    ensures Min(k * MAX_LOG_LEN, len) == Min(accepted * MAX_LOG_LEN, len)
  {
    var c := (len + MAX_LOG_LEN - 1) / MAX_LOG_LEN;
    if k < accepted {
      assert k == c;
      assert c * MAX_LOG_LEN >= len;
      assert accepted * MAX_LOG_LEN >= c * MAX_LOG_LEN;
    }
  }

  /** One iteration of `flush`'s outer loop: the consumer may read
      `readable` bytes at once (the readable bytes up to the end of the
      circular buffer; at least one while the queue is not empty). */
  datatype Round = Round(readable: nat, accepted: nat)

  /** `flush`, for the rounds it is given: it stops when the queue is
      empty (the read fails); otherwise each round drains its grant and
      releases what was sent. Returns the messages and the queue left. */
  function Flush(queue: seq<u8>, rounds: seq<Round>): (r: (seq<seq<u8>>, seq<u8>))
    ensures |r.1| <= |queue|
    decreases |rounds|
  {
    if queue == [] || rounds == [] then ([], queue)
    else
      var len := if 0 < rounds[0].readable <= |queue| then rounds[0].readable else |queue|;
      var drained := Drain(queue[..len], rounds[0].accepted);
      var rest := Flush(queue[drained.1..], rounds[1..]);
      (drained.0 + rest.0, rest.1)
  }

  /** What `flush` sends, followed by what it leaves queued, is the queue
      itself: bytes go out in order, none lost or repeated, each message
      between 1 and 32 bytes. */
  lemma {:induction false} FlushPreservesOrder(queue: seq<u8>, rounds: seq<Round>)
    ensures Concat(Flush(queue, rounds).0) + Flush(queue, rounds).1 == queue
    ensures Messages(Flush(queue, rounds).0)
    decreases |rounds|
  {
    FlushOrder(queue, rounds);
    FlushMessages(queue, rounds);
  }

  lemma {:induction false} FlushOrder(queue: seq<u8>, rounds: seq<Round>)
    ensures Concat(Flush(queue, rounds).0) + Flush(queue, rounds).1 == queue
    decreases |rounds|
  {
    if queue != [] && rounds != [] {
      var len := if 0 < rounds[0].readable <= |queue| then rounds[0].readable else |queue|;
      var drained := Drain(queue[..len], rounds[0].accepted);
      var rest := Flush(queue[drained.1..], rounds[1..]);
      FlushOrder(queue[drained.1..], rounds[1..]);
      ConcatAppend(drained.0, rest.0);
      Rejoin(queue, len, drained.1, Concat(drained.0), Concat(rest.0), rest.1);
    }
  }

  /** A prefix of a grant, followed by the rest of the queue after it. */
  lemma Rejoin(q: seq<u8>, len: nat, k: nat, sent: seq<u8>, later: seq<u8>, left: seq<u8>)
    requires k <= len <= |q| && sent == q[..len][..k] && later + left == q[k..]
    ensures (sent + later) + left == q
  {
    assert sent == q[..k];
    assert q == q[..k] + q[k..];
  }

  lemma {:induction false} FlushMessages(queue: seq<u8>, rounds: seq<Round>)
    ensures Messages(Flush(queue, rounds).0)
    decreases |rounds|
  {
    if queue != [] && rounds != [] {
      var len := if 0 < rounds[0].readable <= |queue| then rounds[0].readable else |queue|;
      var drained := Drain(queue[..len], rounds[0].accepted);
      FlushMessages(queue[drained.1..], rounds[1..]);
      MessagesAppend(drained.0, Flush(queue[drained.1..], rounds[1..]).0);
    }
  }

  /** Every message holds between 1 and 32 bytes. */
  predicate Messages(ms: seq<seq<u8>>)
  {
    forall i :: 0 <= i < |ms| ==> 0 < |ms[i]| <= MAX_LOG_LEN
  }

  lemma MessagesAppend(a: seq<seq<u8>>, b: seq<seq<u8>>)
    requires Messages(a) && Messages(b)
    ensures Messages(a + b)
  {
    forall i | 0 <= i < |a + b|
      ensures 0 < |(a + b)[i]| <= MAX_LOG_LEN
    {
      if i >= |a| {
        assert (a + b)[i] == b[i - |a|];
      }
    }
  }

  /** A round whose first send is refused releases nothing: the next
      round reads the very same bytes. While the host channel keeps
      refusing, `flush` therefore loops without end; the rounds here only
      bound how long the model watches it. */
  lemma {:induction false} RefusedFlushMakesNoProgress(queue: seq<u8>, rounds: seq<Round>)
    requires forall i :: 0 <= i < |rounds| ==> rounds[i].accepted == 0
    ensures Flush(queue, rounds) == ([], queue)
    decreases |rounds|
  {
    if queue != [] && rounds != [] {
      var len := if 0 < rounds[0].readable <= |queue| then rounds[0].readable else |queue|;
      assert Drain(queue[..len], rounds[0].accepted) == ([], 0);
      assert queue[0..] == queue;
      RefusedFlushMakesNoProgress(queue, rounds[1..]);
      var rest := Flush(queue, rounds[1..]);
      assert Flush(queue, rounds) == ([] + rest.0, rest.1);
      assert rest.0 == [] && rest.1 == queue;
      assert [] + rest.0 == [];
    }
  }

  /** A pass allowed as many sends as the grant has bytes sends it all. */
  lemma DrainAll(grant: seq<u8>, accepted: nat)
    requires accepted >= |grant|
    ensures Drain(grant, accepted).1 == |grant|
  {
    assert accepted * MAX_LOG_LEN >= accepted;
  }

  /** With every send accepted, one round per grant empties the queue:
      two rounds suffice when the readable part wraps round once. */
  lemma AcceptedFlushEmpties(queue: seq<u8>, split: nat)
    requires 0 < split <= |queue|
    ensures Flush(queue, [Round(split, |queue|), Round(|queue| - split, |queue|)]).1 == []
  {
    var rounds := [Round(split, |queue|), Round(|queue| - split, |queue|)];
    DrainAll(queue[..split], |queue|);
    var first := Drain(queue[..split], |queue|);
    var rest := queue[split..];
    var tail := Flush(rest, rounds[1..]);
    assert Flush(queue, rounds) == (first.0 + tail.0, tail.1);
    if rest != [] {
      DrainAll(rest[..|rest|], |queue|);
      var second := Drain(rest[..|rest|], |queue|);
      var later := rounds[1..];
      assert later[0].readable == |rest| && later[0].accepted == |queue|;
      assert rest[|rest|..] == [];
      assert Flush(rest[|rest|..], later[1..]) == ([], []);
      assert tail == (second.0 + [], []);
    }
  }
}
