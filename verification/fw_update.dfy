/** The firmware-update task (firmware/src/fw_update/updater_task.rs) as a
    step function. Each loop iteration waits up to four seconds for a
    command (`None` is the timeout), acts on it and feeds the watchdog.
    The bootloader library's flash operations are effects in the returned
    trace; whether they succeed is a parameter, and a failure is the
    `unwrap` panic. */
module FwUpdate {

  import opened Util

  const BUFFER_LEN: nat := 32
  /** `FWCmd::WriteChunk` carries a `heapless::Vec<u8, 64>`. */
  const MAX_CHUNK_LEN: nat := 64

  datatype FwCmd = Prepare | Commit | WriteChunk(offset: u32, buf: seq<u8>)

  predicate CmdWf(c: FwCmd)
  {
    c.WriteChunk? ==> |c.buf| <= MAX_CHUNK_LEN
  }

  /** The state partition's flag as the bootloader library reads it. */
  datatype BootState = Boot | Swap

  datatype Effect =
    | MarkBooted
    | PrepareUpdate
    | WriteImage(offset: u32, bytes: seq<u8>)
    | MarkUpdated
    | Delay(millis: nat)
    | SystemReset
    | FeedWatchdog

  /** `aligned_buf` and `writer` (`Some` once an update was prepared). */
  datatype Updater = Updater(buffer: seq<u8>, prepared: bool)

  predicate UpdaterWf(u: Updater)
  {
    |u.buffer| == BUFFER_LEN
  }

  /** The updater's start: the buffer is zeroed, then reading the boot state
      uses its first byte as scratch (left holding `scratch`); a pending
      swap is marked booted. */
  function Startup(state: BootState, scratch: u8, flashOk: bool): (r: Result<(Updater, seq<Effect>)>)
    ensures r.Panic? <==> !flashOk
    ensures r.Ok? ==> UpdaterWf(r.value.0) && !r.value.0.prepared
    ensures r.Ok? ==> (r.value.1 == [MarkBooted] <==> state == Swap)
    ensures r.Ok? ==> (r.value.1 == [] <==> state == Boot)
    ensures r.Ok? ==> forall i :: 1 <= i < BUFFER_LEN ==> r.value.0.buffer[i] == 0
  {
    if !flashOk then Panic("called `Result::unwrap()` on an `Err` value")
    else
      var buffer := [scratch] + seq(BUFFER_LEN - 1, _ => 0);
      Ok((Updater(buffer, false), if state == Swap then [MarkBooted] else []))
  }

  /** The buffer after copying a chunk into its front: the chunk, then
      whatever the buffer held beyond it. */
  function Stage(buffer: seq<u8>, chunk: seq<u8>): (r: seq<u8>)
    requires |chunk| <= |buffer|
    ensures |r| == |buffer|
    ensures r[..|chunk|] == chunk && r[|chunk|..] == buffer[|chunk|..]
  {
    chunk + buffer[|chunk|..]
  }

  /** One loop iteration. `Commit` marks the update and resets the chip, so
      nothing follows it (the returned flag is false: the loop is over). */
  function Step(u: Updater, msg: Option<FwCmd>, flashOk: bool): (r: Result<(Updater, seq<Effect>, bool)>)
    requires UpdaterWf(u)
    requires msg.Some? ==> CmdWf(msg.value)
    ensures r.Ok? ==> UpdaterWf(r.value.0)
    ensures msg.None? ==> r == Ok((u, [FeedWatchdog], true))
    ensures msg == Some(Commit) ==>
      r == (if flashOk then Ok((u, [MarkUpdated, Delay(500), SystemReset], false))
            else Panic("called `Result::unwrap()` on an `Err` value"))
    ensures msg == Some(Prepare) ==>
      r == (if flashOk then Ok((u.(prepared := true), [PrepareUpdate, FeedWatchdog], true))
            else Panic("called `Result::unwrap()` on an `Err` value"))
    ensures msg.Some? && msg.value.WriteChunk? ==>
      var c := msg.value;
      if |c.buf| > BUFFER_LEN then r.Panic?
      else if !u.prepared then r == Ok((u.(buffer := Stage(u.buffer, c.buf)), [FeedWatchdog], true))
      else if !flashOk then r.Panic?
      else r == Ok((u.(buffer := Stage(u.buffer, c.buf)),
                    [WriteImage(c.offset, Stage(u.buffer, c.buf)), FeedWatchdog], true))
  {
    if msg.None? then Ok((u, [FeedWatchdog], true))
    else
      match msg.value
      case Commit =>
        if !flashOk then Panic("called `Result::unwrap()` on an `Err` value")
        else Ok((u, [MarkUpdated, Delay(500), SystemReset], false))
      case Prepare =>
        if !flashOk then Panic("called `Result::unwrap()` on an `Err` value")
        else Ok((u.(prepared := true), [PrepareUpdate, FeedWatchdog], true))
      case WriteChunk(offset, buf) =>
        if |buf| > BUFFER_LEN then Panic("range end index out of range")
        else
          var staged := Stage(u.buffer, buf);
          var u' := u.(buffer := staged);
          if !u.prepared then Ok((u', [FeedWatchdog], true))
          else if !flashOk then Panic("called `Result::unwrap()` on an `Err` value")
          else Ok((u', [WriteImage(offset, staged), FeedWatchdog], true))
  }

  predicate AllCmdWf(msgs: seq<Option<FwCmd>>)
  {
    forall i :: 0 <= i < |msgs| ==> (msgs[i].Some? ==> CmdWf(msgs[i].value))
  }

  /** The loop over successive wake-ups (each a command or a timeout),
      with the flash always succeeding; it stops at the reset or a panic. */
  function Run(u: Updater, msgs: seq<Option<FwCmd>>): (r: Result<(Updater, seq<Effect>)>)
    requires UpdaterWf(u)
    requires AllCmdWf(msgs)
    ensures r.Ok? ==> UpdaterWf(r.value.0)
    decreases |msgs|
  {
    if msgs == [] then Ok((u, []))
    else
      match Step(u, msgs[0], true)
      case Panic(reason) => Panic(reason)
      case Ok(step) =>
        if !step.2 then Ok((step.0, step.1))
        else
          match Run(step.0, msgs[1..])
          case Panic(reason) => Panic(reason)
          case Ok(rest) => Ok((rest.0, step.1 + rest.1))
  }

  predicate Writes(e: Effect) { e.WriteImage? }

  /** Until an update is prepared no chunk reaches the flash: a run without
      `Prepare` from an unprepared state writes nothing. */
  lemma {:induction false} NoWriteBeforePrepare(u: Updater, msgs: seq<Option<FwCmd>>)
    requires UpdaterWf(u) && !u.prepared && AllCmdWf(msgs)
    requires forall i :: 0 <= i < |msgs| ==> msgs[i] != Some(Prepare)
    ensures Run(u, msgs).Ok? ==>
      !Run(u, msgs).value.0.prepared
      && forall i :: 0 <= i < |Run(u, msgs).value.1| ==> !Writes(Run(u, msgs).value.1[i])
    decreases |msgs|
  {
    if msgs != [] {
      var st := Step(u, msgs[0], true);
      if st.Ok? && st.value.2 {
        assert forall i :: 1 <= i < |msgs| ==> msgs[i] == msgs[1..][i - 1];
        NoWriteBeforePrepare(st.value.0, msgs[1..]);
      }
    }
  }

  /** The watchdog is fed once per iteration that does not reset: a run
      that never commits (and does not panic) feeds it once per wake-up,
      whether a command came or not. */
  lemma {:induction false} FedEveryIteration(u: Updater, msgs: seq<Option<FwCmd>>)
    requires UpdaterWf(u) && AllCmdWf(msgs)
    requires forall i :: 0 <= i < |msgs| ==> msgs[i] != Some(Commit)
    ensures Run(u, msgs).Ok? ==> Count(Run(u, msgs).value.1, FeedWatchdog) == |msgs|
    decreases |msgs|
  {
    if msgs != [] {
      var st := Step(u, msgs[0], true);
      if st.Ok? {
        assert st.value.2;
        assert Count(st.value.1, FeedWatchdog) == 1;
        assert forall i :: 1 <= i < |msgs| ==> msgs[i] == msgs[1..][i - 1];
        FedEveryIteration(st.value.0, msgs[1..]);
        var rest := Run(st.value.0, msgs[1..]);
        if rest.Ok? {
          Util.CountAppend(st.value.1, rest.value.1, FeedWatchdog);
        }
      }
    }
  }

  /** The whole 32-byte buffer is written whatever the chunk's length: after
      a long chunk, a shorter one goes out followed by the long one's tail. */
  lemma ShortChunkCarriesLeftovers(u: Updater, o1: u32, b1: seq<u8>, o2: u32, b2: seq<u8>)
    requires UpdaterWf(u) && u.prepared
    requires |b2| < |b1| <= BUFFER_LEN
    ensures var first := Step(u, Some(WriteChunk(o1, b1)), true);
      first.Ok?
      && var second := Step(first.value.0, Some(WriteChunk(o2, b2)), true);
      second.Ok?
      && second.value.1[0] == WriteImage(o2, b2 + b1[|b2|..] + u.buffer[|b1|..])
  {
    var s1 := Stage(u.buffer, b1);
    assert s1[|b2|..] == b1[|b2|..] + u.buffer[|b1|..];
  }

  /** Commit ends the run: the trace closes with the mark and the reset,
      and later wake-ups are never processed. */
  lemma {:induction false} CommitEndsRun(u: Updater, before: seq<Option<FwCmd>>, after: seq<Option<FwCmd>>)
    requires UpdaterWf(u) && AllCmdWf(before + [Some(Commit)] + after) && AllCmdWf(before + [Some(Commit)])
    requires forall i :: 0 <= i < |before| ==> before[i] != Some(Commit)
    ensures Run(u, before + [Some(Commit)] + after).Ok? ==>
      var effects := Run(u, before + [Some(Commit)] + after).value.1;
      |effects| >= 3 && effects[|effects| - 3..] == [MarkUpdated, Delay(500), SystemReset]
      && Run(u, before + [Some(Commit)] + after) == Run(u, before + [Some(Commit)])
    decreases |before|
  {
    var msgs := before + [Some(Commit)] + after;
    var short := before + [Some(Commit)];
    if before == [] {
      assert msgs[0] == Some(Commit) && short[0] == Some(Commit);
    } else {
      assert msgs[0] == before[0] && short[0] == before[0];
      assert msgs[1..] == before[1..] + [Some(Commit)] + after;
      assert short[1..] == before[1..] + [Some(Commit)];
      var st := Step(u, before[0], true);
      if st.Ok? {
        assert st.value.2;
        AllCmdWfTail(msgs);
        AllCmdWfTail(short);
        CommitEndsRun(st.value.0, before[1..], after);
        var rest := Run(st.value.0, msgs[1..]);
        if rest.Ok? {
          LastThree(st.value.1, rest.value.1);
        }
      }
    }
  }

  lemma AllCmdWfTail(msgs: seq<Option<FwCmd>>)
    requires msgs != [] && AllCmdWf(msgs)
    ensures AllCmdWf(msgs[1..])
  {
    assert forall i :: 0 <= i < |msgs[1..]| ==> msgs[1..][i] == msgs[i + 1];
  }

  /** Effects in front leave the last three in place. */
  lemma LastThree(a: seq<Effect>, b: seq<Effect>)
    requires |b| >= 3
    ensures (a + b)[|a + b| - 3..] == b[|b| - 3..]
  {
  }
}
