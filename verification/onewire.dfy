/** The half-duplex single-wire link between the two halves
    (firmware/src/interboard/onewire.rs): the PIO clock divisor, the
    line-turnaround guard, and the order of operations of the link task.

    The PIO programs and pin electrical settings are hardware; the link task is
    modelled as the trace of link operations it performs for each event it
    selects (a burst of bytes to send, or one word received). */
module Onewire {

  import opened Util

  const CLOCK_FREQ: nat := 125_000_000
  const USART_SPEED: nat := 19200

  /** The common part of both `pio_divisor` versions, a `const fn`
      evaluated at compile time: an overflow of `rem * 256` in `u32`, or a
      zero divisor, stops compilation. Otherwise the integer part (with
      65536 written as 0, which the PIO reads as 65536) and the fraction. */
  function DivisorParts(freq: u32, div: u32): (r: Result<(nat, nat)>)
    ensures r.Panic? <==> div == 0 || (freq % div) * 256 >= U32_LIMIT
    ensures r.Ok? ==> r.value.1 == ((freq % div) * 256) / div && r.value.1 < 256
    ensures r.Ok? ==> r.value.0 == (if freq / div == 0x1_0000 then 0 else freq / div)
  {
    if div == 0 then Panic("division by zero in constant evaluation")
    else
      var whole: nat := freq / div;
      var rem := Remainder(freq, div);
      if rem * 256 >= U32_LIMIT then Panic("overflow in constant evaluation")
      else
        var frac := Fraction(rem, div);
        var whole' := if whole == 0x1_0000 then 0 else whole;
        Ok((whole', frac))
  }

  /** `pio_divisor` returning the pair: the integer part is cast to
      `u16`, the fraction always fits a `u8`. */
  function PioDivisor(freq: u32, div: u32): (r: Result<(u16, u8)>)
    ensures r.Panic? <==> div == 0 || (freq % div) * 256 >= U32_LIMIT
    ensures r.Ok? ==> r.value.1 == ((freq % div) * 256) / div
    ensures r.Ok? ==> r.value.0 == (if freq / div == 0x1_0000 then 0 else WrapU16(freq / div))
  {
    match DivisorParts(freq, div)
    case Panic(why) => Panic(why)
    case Ok((whole, frac)) => Ok((WrapU16(whole), frac))
  }

  /** `(rem * 256) / div`: below 256 because the remainder is below the
      divisor. */
  function Fraction(rem: nat, div: nat): (f: nat)
    requires rem < div
    ensures f == (rem * 256) / div && f < 256
  {
    (rem * 256) / div
  }

  /** The divisor as an 8.8 fixed-point number: integer part times 256
      plus the fraction is the floor of 256 * freq / div. */
  lemma {:induction false} DivisorIsFixedPointQuotient(freq: u32, div: u32)
    requires div > 0 && (freq % div) * 256 < U32_LIMIT && freq / div < 0x1_0000
    ensures PioDivisor(freq, div).Ok?
    ensures var (i, f) := PioDivisor(freq, div).value; i * 256 + f == (freq * 256) / div
  {
    var q, m := freq / div, freq % div;
    assert freq == q * div + m;
    assert freq * 256 == (q * 256) * div + m * 256;
    DivAddMultiple(m * 256, q * 256, div);
  }

  /** The divisor the link uses: (813, 205), 813 + 205/256 = 813.80. */
  const PIO_FREQ: (u16, u8) := (813, 205)

  lemma PioFreqValue()
    ensures PioDivisor(CLOCK_FREQ, 8 * USART_SPEED) == Ok(PIO_FREQ)
  {
    assert 125_000_000 / 153_600 == 813;
    assert 125_000_000 % 153_600 == 123_200;
    assert (123_200 * 256) / 153_600 == 205;
  }

  /** Eleven bit-times at the line speed, in whole microseconds. */
  function GuardMicros(speed: nat): (us: nat)
    requires speed > 0
    ensures us * speed <= 1_000_000 * 11 < (us + 1) * speed
  {
    1_000_000 * 11 / speed
  }

  const GUARD_MICROS: nat := 572

  lemma GuardValue()
    ensures GuardMicros(USART_SPEED) == GUARD_MICROS
  {
  }

  /** One operation of the link task. */
  datatype LinkOp =
    | EnableTx              // `enter_tx`: RX state machine off, TX on
    | Push(word: u32)       // one byte handed to the TX FIFO
    | AwaitTxEmpty          // spin until the TX FIFO has drained
    | Delay(micros: nat)
    | EnableRx              // TX state machine off, pin released, RX on
    | Deliver(b: u8)        // a byte written to the receive pipe

  /** What the link task selects: bytes read from the transmit pipe, or a word
      pulled from the RX state machine. */
  datatype LinkEvent = SendBurst(bytes: seq<u8>) | RxWord(word: u32)

  /** `enter_rx`: wait for the FIFO, then the guard, then turn around. */
  function EnterRx(): seq<LinkOp>
  {
    [AwaitTxEmpty, Delay(GuardMicros(USART_SPEED)), EnableRx]
  }

  function Pushes(bytes: seq<u8>): (ops: seq<LinkOp>)
    ensures |ops| == |bytes|
    ensures forall i :: 0 <= i < |bytes| ==> ops[i] == Push(bytes[i])
  {
    if bytes == [] then [] else [Push(bytes[0])] + Pushes(bytes[1..])
  }

  /** The received byte is the top byte of the word (the RX program shifts
      right into a 32-bit register, so the 8 sampled bits end up in bits
      31..24), and it is delivered inverted. */
  function RxByte(word: u32): (b: u8)
    ensures b == 255 - word / 0x100_0000
  {
    255 - word / 0x100_0000
  }

  function Handle(e: LinkEvent): seq<LinkOp>
  {
    match e
    case SendBurst(bytes) => [EnableTx] + Pushes(bytes) + EnterRx()
    case RxWord(x) => [Deliver(RxByte(x))]
  }

  /** The whole task: an initial turnaround into RX, then each event. */
  function Run(events: seq<LinkEvent>): seq<LinkOp>
  {
    EnterRx() + HandleAll(events)
  }

  function HandleAll(events: seq<LinkEvent>): seq<LinkOp>
  {
    if events == [] then [] else Handle(events[0]) + HandleAll(events[1..])
  }

  /** The bytes pushed to the TX FIFO in a trace. */
  function Pushed(ops: seq<LinkOp>): seq<nat>
  {
    if ops == [] then []
    else (if ops[0].Push? then [ops[0].word] else []) + Pushed(ops[1..])
  }

  function CountOp(ops: seq<LinkOp>, op: LinkOp): nat
  {
    if ops == [] then 0 else (if ops[0] == op then 1 else 0) + CountOp(ops[1..], op)
  }

  lemma {:induction false} PushedAppend(a: seq<LinkOp>, b: seq<LinkOp>)
    ensures Pushed(a + b) == Pushed(a) + Pushed(b)
  {
    if a == [] {
      assert a + b == b;
    } else {
      assert (a + b)[1..] == a[1..] + b;
      PushedAppend(a[1..], b);
    }
  }

  lemma {:induction false} CountAppend(a: seq<LinkOp>, b: seq<LinkOp>, op: LinkOp)
    ensures CountOp(a + b, op) == CountOp(a, op) + CountOp(b, op)
  {
    if a == [] {
      assert a + b == b;
    } else {
      assert (a + b)[1..] == a[1..] + b;
      CountAppend(a[1..], b, op);
    }
  }

  lemma {:induction false} PushesOnlyPush(bytes: seq<u8>, op: LinkOp)
    requires !op.Push?
    ensures Pushed(Pushes(bytes)) == bytes
    ensures CountOp(Pushes(bytes), op) == 0
  {
    if bytes != [] {
      PushesOnlyPush(bytes[1..], op);
      assert Pushes(bytes)[1..] == Pushes(bytes[1..]);
    }
  }

  /** A burst is pushed byte for byte, in order, between exactly one
      switch to TX and exactly one return to RX, the latter after the FIFO
      drained and the guard elapsed. */
  lemma BurstFraming(bytes: seq<u8>)
    ensures var ops := Handle(SendBurst(bytes));
      ops[0] == EnableTx
      && ops[|ops| - 3..] == [AwaitTxEmpty, Delay(GUARD_MICROS), EnableRx]
      && Pushed(ops) == bytes
      && CountOp(ops, EnableTx) == 1 && CountOp(ops, EnableRx) == 1
  {
    var p, rx := Pushes(bytes), EnterRx();
    assert Handle(SendBurst(bytes)) == [EnableTx] + (p + rx);
    BurstShape(p, rx);
    GuardValue();
    BurstCounts(bytes);
  }

  lemma BurstShape(p: seq<LinkOp>, rx: seq<LinkOp>)
    requires |rx| == 3
    ensures var ops := [EnableTx] + (p + rx);
      ops[0] == EnableTx && ops[|ops| - 3..] == rx
  {
    var ops := [EnableTx] + (p + rx);
    assert ops[|ops| - 3..] == rx by {
      forall i | 0 <= i < 3
        ensures ops[|ops| - 3..][i] == rx[i]
      {
        assert ops[|ops| - 3 + i] == (p + rx)[|p| + i];
      }
    }
  }

  lemma BurstCounts(bytes: seq<u8>)
    ensures var ops := [EnableTx] + (Pushes(bytes) + EnterRx());
      Pushed(ops) == bytes && CountOp(ops, EnableTx) == 1 && CountOp(ops, EnableRx) == 1
  {
    var p, rx := Pushes(bytes), EnterRx();
    PushesOnlyPush(bytes, EnableTx);
    PushesOnlyPush(bytes, EnableRx);
    PushedAppend([EnableTx], p + rx);
    PushedAppend(p, rx);
    CountAppend([EnableTx], p + rx, EnableTx);
    CountAppend(p, rx, EnableTx);
    CountAppend([EnableTx], p + rx, EnableRx);
    CountAppend(p, rx, EnableRx);
    EnterRxPushesNothing();
    assert Pushed([EnableTx]) == [] && CountOp([EnableTx], EnableTx) == 1 && CountOp([EnableTx], EnableRx) == 0 by {
      assert [EnableTx][1..] == [];
    }
  }

  /** Returning to RX pushes nothing and enables RX once. */
  lemma EnterRxPushesNothing()
    ensures Pushed(EnterRx()) == [] && CountOp(EnterRx(), EnableTx) == 0 && CountOp(EnterRx(), EnableRx) == 1
  {
    var rx := EnterRx();
    assert rx[1..][1..][1..] == [];
  }

  /** The line model: the TX program drives the line low for a 1 bit, so
      the RX program samples the complement, and the sampled byte sits in
      the top byte of the pushed word. */
  function LineWord(sent: u8): u32
  {
    (255 - sent) * 0x100_0000
  }

  /** With that line model, a byte sent by one half is delivered unchanged
      by the other: the inversion in the receive path undoes the line's. */
  lemma SentByteDelivered(sent: u8)
    ensures Handle(RxWord(LineWord(sent))) == [Deliver(sent)]
  {
  }
}
