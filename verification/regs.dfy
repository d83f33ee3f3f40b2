/** The Pinnacle trackpad's host registers (firmware/src/trackpad/regs.rs):
    register addresses, the default constants, and the typed registers of
    the `register!` macro. A plain register wraps its byte; a bit-field
    register views the byte as eight named bits, least significant first. */
module Regs {

  import opened Util

  /** `HostReg__N` is address N, for the 32 host registers. */
  type HostReg = x: int | 0 <= x < 32

  const STATUS: HostReg := 0x02
  const SYSCONFIG1: HostReg := 0x03
  const FEEDCONFIG1: HostReg := 0x04
  const CALCONFIG1: HostReg := 0x07
  const PORTB_GPIO_CTRL_DATA: HostReg := 0x1A
  const EXT_REG_AXS_VALUE: HostReg := 0x1B
  const EXT_REG_AXS_ADDR_HIGH: HostReg := 0x1C
  const EXT_REG_AXS_ADDR_LOW: HostReg := 0x1D
  const EXT_REG_AXS_CTRL: HostReg := 0x1E

  const EREG_AXS_READ: u8 := 0x01
  const EREG_AXS_INC_ADDR_READ: u8 := 0x04

  /** Bits of `CALCONFIG1`. */
  const CALCONFIG1_BACKGROUND_COMP_ENABLE: u8 := 0x02
  const CALCONFIG1_NERD_COMP_ENABLE: u8 := 0x04
  const CALCONFIG1_TRACK_ERROR_COMP_ENABLE: u8 := 0x08
  const CALCONFIG1_TAP_COMP_ENABLE: u8 := 0x10
  const CALCONFIG1_PALM_ERROR_COMP_ENABLE: u8 := 0x20

  /** Bits of `PORTB_GPIO_CTRL_DATA`. */
  const PORTB_GPIO_CTRL_PB0: u8 := 0x08
  const PORTB_GPIO_CTRL_PB1: u8 := 0x10
  const PORTB_GPIO_CTRL_PB2: u8 := 0x20

  /** Bitwise or of two bytes. */
  function Or(a: u8, b: u8): u8
  {
    ((a as bv8) | (b as bv8)) as int
  }

  const CALCONFIG1_DEFVAL: u8 :=
    Or(Or(Or(Or(CALCONFIG1_BACKGROUND_COMP_ENABLE, CALCONFIG1_NERD_COMP_ENABLE),
             CALCONFIG1_TRACK_ERROR_COMP_ENABLE), CALCONFIG1_TAP_COMP_ENABLE),
       CALCONFIG1_PALM_ERROR_COMP_ENABLE)

  const PORTB_GPIO_CTRL_DATA_DEFVAL: u8 :=
    Or(Or(PORTB_GPIO_CTRL_PB0, PORTB_GPIO_CTRL_PB1), PORTB_GPIO_CTRL_PB2)

  /** The two composed defaults: the five compensation bits, and the three
      port B direction bits. */
  lemma DefaultValues()
    ensures CALCONFIG1_DEFVAL == 0x3E
    ensures PORTB_GPIO_CTRL_DATA_DEFVAL == 0x38
  {
    CalConfigDefault();
    PortBDefault();
  }

  lemma CalConfigDefault()
    ensures CALCONFIG1_DEFVAL == 0x3E
  {
    assert Or(0x02, 0x04) == 0x06 by { assert (0x02 as bv8 | 0x04 as bv8) == 0x06; }
    assert Or(0x06, 0x08) == 0x0E by { assert (0x06 as bv8 | 0x08 as bv8) == 0x0E; }
    assert Or(0x0E, 0x10) == 0x1E by { assert (0x0E as bv8 | 0x10 as bv8) == 0x1E; }
    assert Or(0x1E, 0x20) == 0x3E by { assert (0x1E as bv8 | 0x20 as bv8) == 0x3E; }
  }

  lemma PortBDefault()
    ensures PORTB_GPIO_CTRL_DATA_DEFVAL == 0x38
  {
    assert Or(0x08, 0x10) == 0x18 by { assert (0x08 as bv8 | 0x10 as bv8) == 0x18; }
    assert Or(0x18, 0x20) == 0x38 by { assert (0x18 as bv8 | 0x20 as bv8) == 0x38; }
  }

  // ---- bits of a byte, least significant first ----

  function BitValue(b: bool): nat { if b then 1 else 0 }

  /** The low `n` bits of `v`. */
  function Bits(v: nat, n: nat): (s: seq<bool>)
    ensures |s| == n
  {
    if n == 0 then [] else [v % 2 == 1] + Bits(v / 2, n - 1)
  }

  /** The number whose bits, least significant first, are `s`. */
  function FromBits(s: seq<bool>): (v: nat)
    ensures v < Pow2(|s|)
  {
    if s == [] then 0 else BitValue(s[0]) + 2 * FromBits(s[1..])
  }

  /** Reading the low `n` bits back gives the number, when it fits. */
  lemma {:induction false} FromBitsOfBits(v: nat, n: nat)
    requires v < Pow2(n)
    ensures FromBits(Bits(v, n)) == v
  {
    if n > 0 {
      FromBitsOfBits(v / 2, n - 1);
      assert Bits(v, n)[1..] == Bits(v / 2, n - 1);
    }
  }

  /** Taking the bits of a number built from bits gives the bits back. */
  lemma {:induction false} BitsOfFromBits(s: seq<bool>)
    ensures Bits(FromBits(s), |s|) == s
  {
    if s != [] {
      var v := FromBits(s);
      assert v % 2 == BitValue(s[0]) && v / 2 == FromBits(s[1..]);
      BitsOfFromBits(s[1..]);
    }
  }

  /** Bit i of `Bits(v, n)` is the i-th binary digit of `v`. */
  lemma {:induction false} BitAt(v: nat, n: nat, i: nat)
    requires i < n
    ensures Bits(v, n)[i] <==> (v / Pow2(i)) % 2 == 1
  {
    if i > 0 {
      BitAt(v / 2, n - 1, i - 1);
      DivDiv(v, Pow2(i - 1));
    }
  }

  lemma DivDiv(v: nat, m: nat)
    requires m >= 1
    ensures (v / 2) / m == v / (2 * m)
  {
    var q, r := (v / 2) / m, (v / 2) % m;
    assert v == 2 * (q * m + r) + v % 2;
    assert v == q * (2 * m) + (2 * r + v % 2);
    DivUnique(v, 2 * m, q, 2 * r + v % 2);
  }

  // ---- typed registers ----

  /** A plain register (`ChipId`, `Version`): the byte itself. */
  datatype Plain = Plain(value: u8)

  function PlainFromByte(b: u8): (r: Plain)
    ensures r.value == b
  {
    Plain(b)
  }

  function PlainToByte(r: Plain): (b: u8)
    ensures PlainFromByte(b) == r
  {
    r.value
  }

  /** `Status`: two padding bits, `data_ready` at bit 2,
      `command_complete` at bit 3, four padding bits. Padding is kept, so
      no byte is lost. */
  datatype Status = Status(pad0: nat, dataReady: bool, commandComplete: bool, pad1: nat)

  predicate StatusWf(s: Status) { s.pad0 < 4 && s.pad1 < 16 }

  function StatusBits(s: Status): (bits: seq<bool>)
    requires StatusWf(s)
    ensures |bits| == 8
  {
    Bits(s.pad0, 2) + [s.dataReady, s.commandComplete] + Bits(s.pad1, 4)
  }

  function StatusFromByte(b: u8): (s: Status)
    ensures StatusWf(s)
    ensures s.dataReady <==> (b / 4) % 2 == 1
    ensures s.commandComplete <==> (b / 8) % 2 == 1
  {
    var bits := Bits(b, 8);
    BitAt(b, 8, 2);
    BitAt(b, 8, 3);
    Status(FromBits(bits[..2]), bits[2], bits[3], FromBits(bits[4..]))
  }

  function StatusToByte(s: Status): (b: u8)
    requires StatusWf(s)
  {
    FromBits(StatusBits(s))
  }

  /** `Status::def()`: the declared default byte 0. */
  function StatusDefault(): (s: Status)
    ensures StatusWf(s) && !s.dataReady && !s.commandComplete
  {
    StatusFromByte(0)
  }

  lemma {:induction false} StatusByteRoundTrip(b: u8)
    ensures StatusToByte(StatusFromByte(b)) == b
  {
    var bits := Bits(b, 8);
    var s := StatusFromByte(b);
    BitsOfFromBits(bits[..2]);
    BitsOfFromBits(bits[4..]);
    assert StatusBits(s) == bits;
    FromBitsOfBits(b, 8);
  }

  lemma {:induction false} StatusFieldRoundTrip(s: Status)
    requires StatusWf(s)
    ensures StatusFromByte(StatusToByte(s)) == s
  {
    var bits := StatusBits(s);
    BitsOfFromBits(bits);
    assert bits[..2] == Bits(s.pad0, 2);
    assert bits[4..] == Bits(s.pad1, 4);
    FromBitsOfBits(s.pad0, 2);
    FromBitsOfBits(s.pad1, 4);
  }

  /** Clearing both flags of the default status gives the byte 0. */
  lemma ClearedStatusByte()
    ensures StatusToByte(StatusDefault().(commandComplete := false, dataReady := false)) == 0
  {
    StatusByteRoundTrip(0);
  }

  /** `FeedConfig`: eight flags, `feed_enable` at bit 0 through
      `y_data_invert` at bit 7. */
  datatype FeedConfig = FeedConfig(
    feedEnable: bool, dataTypeAbs: bool, filterDisable: bool, xAxisDisable: bool,
    yAxisDisable: bool, axisForZX: bool, xDataInvert: bool, yDataInvert: bool)

  function FeedConfigBits(f: FeedConfig): (bits: seq<bool>)
    ensures |bits| == 8
  {
    [f.feedEnable, f.dataTypeAbs, f.filterDisable, f.xAxisDisable,
     f.yAxisDisable, f.axisForZX, f.xDataInvert, f.yDataInvert]
  }

  function FeedConfigFromByte(b: u8): (f: FeedConfig)
    ensures f.feedEnable <==> b % 2 == 1
    ensures f.yDataInvert <==> b / 128 == 1
  {
    var s := Bits(b, 8);
    BitAt(b, 8, 0);
    BitAt(b, 8, 7);
    FeedConfig(s[0], s[1], s[2], s[3], s[4], s[5], s[6], s[7])
  }

  function FeedConfigToByte(f: FeedConfig): (b: u8)
  {
    FromBits(FeedConfigBits(f))
  }

  lemma FeedConfigByteRoundTrip(b: u8)
    ensures FeedConfigToByte(FeedConfigFromByte(b)) == b
  {
    assert FeedConfigBits(FeedConfigFromByte(b)) == Bits(b, 8);
    FromBitsOfBits(b, 8);
  }

  lemma FeedConfigFieldRoundTrip(f: FeedConfig)
    ensures FeedConfigFromByte(FeedConfigToByte(f)) == f
  {
    BitsOfFromBits(FeedConfigBits(f));
  }

  /** `set_feed_enable` on the register image: only bit 0 changes. */
  function SetFeedEnable(b: u8, enabled: bool): (b': u8)
    ensures b' % 2 == BitValue(enabled)
    ensures b' / 2 == b / 2
  {
    SetFeedEnableBits(b, enabled);
    FeedConfigToByte(FeedConfigFromByte(b).(feedEnable := enabled))
  }

  lemma {:induction false} SetFeedEnableBits(b: u8, enabled: bool)
    ensures var b' := FeedConfigToByte(FeedConfigFromByte(b).(feedEnable := enabled));
      b' % 2 == BitValue(enabled) && b' / 2 == b / 2
  {
    var bits := Bits(b, 8);
    var bits' := bits[0 := enabled];
    FeedBitsOfSeq(bits');
    assert FeedConfigFromByte(b).(feedEnable := enabled) ==
      FeedConfig(bits'[0], bits'[1], bits'[2], bits'[3], bits'[4], bits'[5], bits'[6], bits'[7]);
    FromBitsOfBits(b, 8);
    SetLowBit(bits, enabled);
  }

  lemma FeedBitsOfSeq(s: seq<bool>)
    requires |s| == 8
    ensures FeedConfigBits(FeedConfig(s[0], s[1], s[2], s[3], s[4], s[5], s[6], s[7])) == s
  {
  }

  /** Setting the first bit sets the number's lowest bit and keeps the rest. */
  lemma SetLowBit(s: seq<bool>, x: bool)
    requires |s| > 0
    ensures FromBits(s[0 := x]) % 2 == BitValue(x) && FromBits(s[0 := x]) / 2 == FromBits(s) / 2
  {
    LowBit(s);
    LowBit(s[0 := x]);
    assert s[0 := x][1..] == s[1..];
  }

  /** The lowest bit of a number built from bits is the first bit, and
      the rest is the number halved. */
  lemma LowBit(s: seq<bool>)
    requires |s| > 0
    ensures FromBits(s) % 2 == BitValue(s[0]) && FromBits(s) / 2 == FromBits(s[1..])
  {
  }
}
