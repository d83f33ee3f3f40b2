/** The trackpad's register access protocol over SPI
    (firmware/src/trackpad/driver.rs), as traces of bus operations. What
    the device clocks back is a parameter: each read is given the bytes
    the device answers with, and the trace records them. */
module TrackpadDriver {

  import opened Util
  import Regs

  const WRITE_MASK: u8 := 0x80
  const READ_MASK: u8 := 0xA0
  const FILLER_BYTE: u8 := 0xFC

  /** One bus operation. A transfer sends one byte and receives one; a
      transaction is the command byte and the data in one chip select. */
  datatype SpiOp =
    | SpiWrite(bytes: seq<u8>)
    | SpiTransfer(sent: u8, received: u8)
    | SpiTransaction(cmd: u8, data: seq<u8>)
    | Delay(micros: nat)

  function ReadCommand(address: u8): u8 { Regs.Or(address, READ_MASK) }

  function WriteCommand(address: u8): u8 { Regs.Or(address, WRITE_MASK) }

  /** For the 32 host registers the mask bits are clear in the address, so
      the command byte is the address plus the mask: reads land in
      0xA0..0xBF, writes in 0x80..0x9F, and both give the address back. */
  lemma CommandBytes(address: Regs.HostReg)
    ensures ReadCommand(address) == address + 0xA0
    ensures WriteCommand(address) == address + 0x80
  {
    var a := address as bv8;
    assert a < 32;
    assert a | 0xA0 == a + 0xA0;
    assert a | 0x80 == a + 0x80;
  }

  /** `rap_read`: the read command and two filler bytes, then one filler
      transfer per byte wanted; the buffer receives the device's answers. */
  function RapRead(address: u8, replies: seq<u8>): (r: (seq<SpiOp>, seq<u8>))
    ensures r.1 == replies
    ensures |r.0| == 1 + |replies|
    ensures r.0[0] == SpiWrite([ReadCommand(address), FILLER_BYTE, FILLER_BYTE])
    ensures forall i :: 0 <= i < |replies| ==> r.0[1 + i] == SpiTransfer(FILLER_BYTE, replies[i])
  {
    ([SpiWrite([ReadCommand(address), FILLER_BYTE, FILLER_BYTE])] + Transfers(replies), replies)
  }

  function Transfers(replies: seq<u8>): (ops: seq<SpiOp>)
    ensures |ops| == |replies|
    ensures forall i :: 0 <= i < |replies| ==> ops[i] == SpiTransfer(FILLER_BYTE, replies[i])
  {
    if replies == [] then [] else [SpiTransfer(FILLER_BYTE, replies[0])] + Transfers(replies[1..])
  }

  /** `rap_write`: one transaction, the write command then the data; a
      register write is one write and no read. */
  function RapWrite(address: u8, data: seq<u8>): (ops: seq<SpiOp>)
    ensures |ops| == 1
    ensures Writes(ops) == [(WriteCommand(address), data)]
    ensures Reads(ops) == []
  {
    var ops := [SpiTransaction(WriteCommand(address), data)];
    assert ops[1..] == [];
    ops
  }

  /** `rap_read_byte`. */
  function RapReadByte(address: u8, reply: u8): (r: (seq<SpiOp>, u8))
    ensures r.1 == reply
  {
    (RapRead(address, [reply]).0, reply)
  }

  // ---- what a trace writes and reads ----

  /** The (command, data) pairs of the write transactions, in order. */
  function Writes(ops: seq<SpiOp>): seq<(u8, seq<u8>)>
  {
    if ops == [] then []
    else (if ops[0].SpiTransaction? then [(ops[0].cmd, ops[0].data)] else []) + Writes(ops[1..])
  }

  /** The command bytes of the read commands, in order. */
  function Reads(ops: seq<SpiOp>): seq<u8>
  {
    if ops == [] then []
    else (if ops[0].SpiWrite? && |ops[0].bytes| > 0 then [ops[0].bytes[0]] else []) + Reads(ops[1..])
  }

  lemma WritesAppend(a: seq<SpiOp>, b: seq<SpiOp>)
    ensures Writes(a + b) == Writes(a) + Writes(b)
    ensures Reads(a + b) == Reads(a) + Reads(b)
  {
    WritesOfAppend(a, b);
    ReadsOfAppend(a, b);
  }

  lemma {:induction false} WritesOfAppend(a: seq<SpiOp>, b: seq<SpiOp>)
    ensures Writes(a + b) == Writes(a) + Writes(b)
  {
    if a == [] {
      assert a + b == b;
    } else {
      assert (a + b)[0] == a[0];
      assert (a + b)[1..] == a[1..] + b;
      WritesOfAppend(a[1..], b);
      var h := if a[0].SpiTransaction? then [(a[0].cmd, a[0].data)] else [];
      assert Writes(a + b) == h + (Writes(a[1..]) + Writes(b));
      assert h + (Writes(a[1..]) + Writes(b)) == (h + Writes(a[1..])) + Writes(b);
    }
  }

  lemma {:induction false} ReadsOfAppend(a: seq<SpiOp>, b: seq<SpiOp>)
    ensures Reads(a + b) == Reads(a) + Reads(b)
  {
    if a == [] {
      assert a + b == b;
    } else {
      assert (a + b)[0] == a[0];
      assert (a + b)[1..] == a[1..] + b;
      ReadsOfAppend(a[1..], b);
      var h := if a[0].SpiWrite? && |a[0].bytes| > 0 then [a[0].bytes[0]] else [];
      assert Reads(a + b) == h + (Reads(a[1..]) + Reads(b));
      assert h + (Reads(a[1..]) + Reads(b)) == (h + Reads(a[1..])) + Reads(b);
    }
  }

  lemma {:induction false} TransfersAreSilent(replies: seq<u8>)
    ensures Writes(Transfers(replies)) == [] && Reads(Transfers(replies)) == []
  {
    if replies != [] {
      TransfersAreSilent(replies[1..]);
      assert Transfers(replies)[1..] == Transfers(replies[1..]);
    }
  }

  /** A register read writes nothing and issues exactly its read command. */
  lemma RapReadEffect(address: u8, replies: seq<u8>)
    ensures Writes(RapRead(address, replies).0) == []
    ensures Reads(RapRead(address, replies).0) == [ReadCommand(address)]
  {
    var head := [SpiWrite([ReadCommand(address), FILLER_BYTE, FILLER_BYTE])];
    WritesAppend(head, Transfers(replies));
    TransfersAreSilent(replies);
  }

  // ---- utility operations ----

  /** `set_feed_enable`: read FeedConfig (the device answers `current`)
      and write it back with only the enable bit changed. */
  function SetFeedEnable(enabled: bool, current: u8): (ops: seq<SpiOp>)
    ensures |ops| == 3
    ensures Reads(ops) == [ReadCommand(Regs.FEEDCONFIG1)]
    ensures |Writes(ops)| == 1 && Writes(ops)[0].0 == WriteCommand(Regs.FEEDCONFIG1)
    ensures |Writes(ops)[0].1| == 1
    ensures Writes(ops)[0].1[0] % 2 == Regs.BitValue(enabled)
    ensures Writes(ops)[0].1[0] / 2 == current / 2
  {
    var read := RapRead(Regs.FEEDCONFIG1, [current]).0;
    var write := RapWrite(Regs.FEEDCONFIG1, [Regs.SetFeedEnable(current, enabled)]);
    RapReadEffect(Regs.FEEDCONFIG1, [current]);
    WritesAppend(read, write);
    read + write
  }

  /** The default Status with both flags cleared, as a byte. */
  function ClearedStatus(): (b: u8)
    ensures b == 0
  {
    Regs.ClearedStatusByte();
    Regs.StatusToByte(Regs.StatusDefault().(commandComplete := false, dataReady := false))
  }

  /** `clear_flags`: write the default Status with both flags cleared,
      then wait 50 microseconds. */
  function ClearFlags(): (ops: seq<SpiOp>)
    ensures Writes(ops) == [(WriteCommand(Regs.STATUS), [0])]
    ensures Reads(ops) == []
    ensures ops[|ops| - 1] == Delay(50)
  {
    var write := RapWrite(Regs.STATUS, [ClearedStatus()]);
    WritesAppend(write, [Delay(50)]);
    assert Writes([Delay(50)]) == [] && Reads([Delay(50)]) == [] by {
      assert [Delay(50)][1..] == [];
    }
    assert Writes(write) == [(WriteCommand(Regs.STATUS), [0])] && Reads(write) == [] by {
      assert write[1..] == [];
    }
    write + [Delay(50)]
  }

  // ---- extended register access ----

  /** The busy-wait of `era_read`: the control register is read until it
      answers 0. The device's successive answers within the 20 ms timeout
      are the parameter; if none is 0 the wait times out after them. The
      timeout is taken to fall between two reads: a read it cancels
      half-way is not modelled. */
  function Poll(answers: seq<u8>): (ops: seq<SpiOp>)
    ensures |ops| == PolledCount(answers) + PolledCount(answers)
    ensures forall i :: 0 <= i < |ops| ==> !ops[i].SpiTransaction? && !ops[i].Delay?
    decreases |answers|
  {
    if answers == [] then []
    else RapReadByte(Regs.EXT_REG_AXS_CTRL, answers[0]).0
         + (if answers[0] == 0 then [] else Poll(answers[1..]))
  }

  /** Polling writes nothing, and reads the control register once per
      answer up to and including the first 0. */
  lemma {:induction false} PollEffect(answers: seq<u8>)
    ensures Writes(Poll(answers)) == []
    ensures forall i :: 0 <= i < |Reads(Poll(answers))| ==> Reads(Poll(answers))[i] == ReadCommand(Regs.EXT_REG_AXS_CTRL)
    ensures |Reads(Poll(answers))| == PolledCount(answers)
  {
    if answers != [] {
      var head := RapReadByte(Regs.EXT_REG_AXS_CTRL, answers[0]).0;
      var tail := if answers[0] == 0 then [] else Poll(answers[1..]);
      RapReadEffect(Regs.EXT_REG_AXS_CTRL, [answers[0]]);
      WritesAppend(head, tail);
      if answers[0] != 0 {
        PollEffect(answers[1..]);
      }
    }
  }

  /** How many answers the wait consumes: up to and including the first
      0, or all of them. */
  function PolledCount(answers: seq<u8>): (n: nat)
    ensures n <= |answers|
    ensures forall i :: 0 <= i < n - 1 ==> answers[i] != 0
    ensures 0 < n < |answers| ==> answers[n - 1] == 0
  {
    if answers == [] then 0
    else if answers[0] == 0 then 1
    else 1 + PolledCount(answers[1..])
  }

  /** The per-byte loop of `era_read`: request an auto-incrementing read,
      wait, then read the value register into the byte. */
  function EraBytes(waits: seq<seq<u8>>, values: seq<u8>): (ops: seq<SpiOp>)
    requires |waits| == |values|
  {
    if values == [] then []
    else EraStep(waits[0], values[0]) + EraBytes(waits[1..], values[1..])
  }

  /** `INC_ADDR_READ | READ`. */
  function EraReadControl(): (c: u8)
    ensures c == 0x05
  {
    assert (0x04 as bv8 | 0x01 as bv8) == 0x05;
    Regs.Or(Regs.EREG_AXS_INC_ADDR_READ, Regs.EREG_AXS_READ)
  }

  /** The writes of the byte loop: one read request per byte, nothing else. */
  lemma {:induction false} EraBytesWrites(waits: seq<seq<u8>>, values: seq<u8>)
    requires |waits| == |values|
    ensures Writes(EraBytes(waits, values))
      == seq(|values|, _ => (WriteCommand(Regs.EXT_REG_AXS_CTRL), [0x05 as u8]))
  {
    if values != [] {
      var step := EraStep(waits[0], values[0]);
      var rest := EraBytes(waits[1..], values[1..]);
      var one := (WriteCommand(Regs.EXT_REG_AXS_CTRL), [0x05 as u8]);
      assert EraBytes(waits, values) == step + rest;
      WritesAppend(step, rest);
      EraStepWrites(waits[0], values[0]);
      EraBytesWrites(waits[1..], values[1..]);
      assert seq(|values|, _ => one) == [one] + seq(|values| - 1, _ => one);
    }
  }

  /** One byte of the loop. */
  function EraStep(wait: seq<u8>, value: u8): seq<SpiOp>
  {
    RapWrite(Regs.EXT_REG_AXS_CTRL, [EraReadControl()])
    + Poll(wait)
    + RapReadByte(Regs.EXT_REG_AXS_VALUE, value).0
  }

  lemma EraStepWrites(wait: seq<u8>, value: u8)
    ensures Writes(EraStep(wait, value)) == [(WriteCommand(Regs.EXT_REG_AXS_CTRL), [0x05 as u8])]
  {
    var req := RapWrite(Regs.EXT_REG_AXS_CTRL, [EraReadControl()]);
    var poll := Poll(wait);
    var read := RapReadByte(Regs.EXT_REG_AXS_VALUE, value).0;
    WritesAppend(req + poll, read);
    WritesAppend(req, poll);
    PollEffect(wait);
    RapReadEffect(Regs.EXT_REG_AXS_VALUE, [value]);
  }

  /** `era_read`: disable the feed, send the 16-bit address high byte
      first, then read the bytes one by one. The buffer holds what the value
      register answered. */
  function EraRead(address: u16, feed: u8, waits: seq<seq<u8>>, values: seq<u8>): (r: (seq<SpiOp>, seq<u8>))
    requires |waits| == |values|
    ensures r.1 == values
    ensures |r.0| >= 5 && r.0[..3] == SetFeedEnable(false, feed)
  {
    var disable := SetFeedEnable(false, feed);
    var high := RapWrite(Regs.EXT_REG_AXS_ADDR_HIGH, [address / 256]);
    var low := RapWrite(Regs.EXT_REG_AXS_ADDR_LOW, [address % 256]);
    var ops := disable + high + low + EraBytes(waits, values);
    FirstThree(disable, high, low, EraBytes(waits, values));
    (ops, values)
  }

  lemma FirstThree<T>(a: seq<T>, b: seq<T>, c: seq<T>, d: seq<T>)
    requires |a| == 3
    ensures |a + b + c + d| == 3 + |b| + |c| + |d|
    ensures (a + b + c + d)[..3] == a
  {
    assert (a + b + c + d) == a + (b + c + d);
  }

  /** Everything `era_read` writes, in order: the feed disabled (only bit
      0 of the answered FeedConfig cleared), the address high byte then the
      low byte, and one auto-incrementing read request per byte. */
  lemma EraReadWrites(address: u16, feed: u8, waits: seq<seq<u8>>, values: seq<u8>)
    requires |waits| == |values|
    ensures Writes(EraRead(address, feed, waits, values).0) ==
      [(WriteCommand(Regs.FEEDCONFIG1), [Regs.SetFeedEnable(feed, false)]),
       (WriteCommand(Regs.EXT_REG_AXS_ADDR_HIGH), [address / 256]),
       (WriteCommand(Regs.EXT_REG_AXS_ADDR_LOW), [address % 256])]
      + seq(|values|, _ => (WriteCommand(Regs.EXT_REG_AXS_CTRL), [0x05 as u8]))
  {
    var disable := SetFeedEnable(false, feed);
    var high := RapWrite(Regs.EXT_REG_AXS_ADDR_HIGH, [address / 256]);
    var low := RapWrite(Regs.EXT_REG_AXS_ADDR_LOW, [address % 256]);
    var bytes := EraBytes(waits, values);
    WritesAppend(disable + high + low, bytes);
    WritesAppend(disable + high, low);
    WritesAppend(disable, high);
    FeedDisableWrites(feed);
    EraBytesWrites(waits, values);
    var ops := EraRead(address, feed, waits, values).0;
    assert ops == disable + high + low + bytes;
    var setup := [(WriteCommand(Regs.FEEDCONFIG1), [Regs.SetFeedEnable(feed, false)]),
                  (WriteCommand(Regs.EXT_REG_AXS_ADDR_HIGH), [address / 256]),
                  (WriteCommand(Regs.EXT_REG_AXS_ADDR_LOW), [address % 256])];
    assert Writes(disable) + Writes(high) + Writes(low) == setup;
    assert Writes(ops) == setup + Writes(bytes);
  }

  lemma FeedDisableWrites(feed: u8)
    ensures Writes(SetFeedEnable(false, feed))
      == [(WriteCommand(Regs.FEEDCONFIG1), [Regs.SetFeedEnable(feed, false)])]
  {
    var read := RapRead(Regs.FEEDCONFIG1, [feed]).0;
    var write := RapWrite(Regs.FEEDCONFIG1, [Regs.SetFeedEnable(feed, false)]);
    RapReadEffect(Regs.FEEDCONFIG1, [feed]);
    WritesAppend(read, write);
    assert write[1..] == [];
  }
}
