/** The earlier single-wire link of firmware/src/onewire.rs. It differs
    from the interboard version in three places: the divisor is packed into
    one `u32`, the TX state machine is entered by `leave_rx`, and received
    words are forwarded as their low byte, without inversion. The trace
    vocabulary is shared with `Onewire`. */
module OnewireLegacy {

  import opened Util
  import Onewire

  /** `pio_divisor` packing `(int << 8) | frac`. The shift is on `u32`, so
      bits of the integer part above bit 23 are lost; the low byte is the
      fraction. */
  function PioDivisor(freq: u32, div: u32): (r: Result<u32>)
    ensures r.Panic? <==> div == 0 || (freq % div) * 256 >= U32_LIMIT
    ensures r.Ok? ==> r.value % 256 == ((freq % div) * 256) / div
    ensures r.Ok? ==> r.value / 256 == (if freq / div == 0x1_0000 then 0 else freq / div) % 0x100_0000
  {
    match Onewire.DivisorParts(freq, div)
    case Panic(why) => Panic(why)
    case Ok((whole, frac)) => Ok(Pack(whole, frac))
  }

  /** `(int << 8) | frac` on `u32`, for a fraction below 256. */
  function Pack(whole: nat, frac: nat): (p: u32)
    requires frac < 256
    ensures p == WrapU32(whole * 256) + frac
    ensures p % 256 == frac && p / 256 == whole % 0x100_0000
    ensures whole < 0x100_0000 ==> p == whole * 256 + frac
  {
    ShiftWraps(whole);
    var p := (whole % 0x100_0000) * 256 + frac;
    DivUnique(p, 256, whole % 0x100_0000, frac);
    p
  }

  /** Shifting left by 8 in 32 bits keeps the low 24 bits of the value. */
  lemma ShiftWraps(x: nat)
    ensures WrapU32(x * 256) == (x % 0x100_0000) * 256
  {
    var q, m := x / 0x100_0000, x % 0x100_0000;
    assert x * 256 == q * U32_LIMIT + m * 256;
    DivUnique(x * 256, U32_LIMIT, q, m * 256);
  }

  /** For integer parts that fit 16 bits the packed value is the 8.8 pair
      of the interboard version, integer part in the upper byte. */
  lemma PackedAgreesWithPair(freq: u32, div: u32)
    requires div > 0 && (freq % div) * 256 < U32_LIMIT && freq / div < 0x1_0000
    ensures PioDivisor(freq, div).Ok? && Onewire.PioDivisor(freq, div).Ok?
    ensures var (i, f) := Onewire.PioDivisor(freq, div).value;
      PioDivisor(freq, div).value == i * 256 + f
  {
    var (whole, frac) := Onewire.DivisorParts(freq, div).value;
    assert PioDivisor(freq, div).value == Pack(whole, frac);
  }

  /** `PIO_FREQ` = 208333 = 813 * 256 + 205. */
  const PIO_FREQ: u32 := 208333

  lemma PioFreqValue()
    ensures PioDivisor(Onewire.CLOCK_FREQ, 8 * Onewire.USART_SPEED) == Ok(PIO_FREQ)
    ensures PIO_FREQ == Onewire.PIO_FREQ.0 * 256 + Onewire.PIO_FREQ.1
  {
    Onewire.PioFreqValue();
    PackedAgreesWithPair(Onewire.CLOCK_FREQ, 8 * Onewire.USART_SPEED);
  }

  /** The received word's low byte, as is. */
  function RxByte(word: u32): (b: u8)
    ensures b == word % 256
  {
    word % 256
  }

  function Handle(e: Onewire.LinkEvent): seq<Onewire.LinkOp>
  {
    match e
    // `leave_rx` plays the part of `enter_tx`; `enter_rx` is unchanged
    case SendBurst(bytes) => [Onewire.EnableTx] + Onewire.Pushes(bytes) + Onewire.EnterRx()
    case RxWord(x) => [Onewire.Deliver(RxByte(x))]
  }

  /** Sending is framed exactly as in the interboard version, guard
      included. */
  lemma SendMatchesInterboard(bytes: seq<u8>)
    ensures Handle(Onewire.SendBurst(bytes)) == Onewire.Handle(Onewire.SendBurst(bytes))
    ensures Onewire.EnterRx()[1] == Onewire.Delay(Onewire.GUARD_MICROS)
  {
    Onewire.GuardValue();
  }

  /** Receiving differs: this version forwards the low byte uninverted,
      the interboard one the inverted top byte; they agree only on words
      whose top byte is the complement of the low byte. */
  lemma ReceiveDiffersFromInterboard(word: u32)
    ensures Handle(Onewire.RxWord(word)) == Onewire.Handle(Onewire.RxWord(word))
        <==> word % 256 == 255 - word / 0x100_0000
  {
  }
}
