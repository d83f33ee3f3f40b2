/** Typing text through hex-code escapes (firmware/src/keys/unicode.rs):
    each character becomes the HID keys of its hex digits, wrapped in the
    host's unicode-input chord. Keys are HID usage IDs of the keyboard
    page (section 10 of the HID Usage Tables); a report is the list of keys
    held in it. */
module Unicode {

  import opened Util

  const KEY_A: nat := 0x04
  const KEY_U: nat := 0x18
  const KEY_1: nat := 0x1E
  const KEY_0: nat := 0x27
  const LEFT_CONTROL: nat := 0xE0
  const LEFT_SHIFT: nat := 0xE1
  const LEFT_ALT: nat := 0xE2
  const RIGHT_ALT: nat := 0xE6

  /** `HEX_KEYS[n]`: the digit keys 0-9, then the letter keys A-F. */
  function HexKey(n: nat): (k: nat)
    requires n < 16
    ensures n == 0 ==> k == KEY_0
    ensures 1 <= n <= 9 ==> k == KEY_1 + (n - 1)
    ensures 10 <= n ==> k == KEY_A + (n - 10)
  {
    if n == 0 then KEY_0 else if n <= 9 then KEY_1 + (n - 1) else KEY_A + (n - 10)
  }

  /** The digit a hex key stands for. */
  function HexValue(k: nat): (r: Option<nat>)
    ensures r.Some? ==> r.value < 16 && HexKey(r.value) == k
  {
    if k == KEY_0 then Some(0)
    else if KEY_1 <= k < KEY_1 + 9 then Some(k - KEY_1 + 1)
    else if KEY_A <= k < KEY_A + 6 then Some(k - KEY_A + 10)
    else None
  }

  /** The sixteen keys are distinct and each reads back as its digit. */
  lemma HexKeysDistinct(n: nat)
    requires n < 16
    ensures HexValue(HexKey(n)) == Some(n)
  {
  }

  function Pow16(k: nat): (p: nat)
    ensures p >= 1
  {
    if k == 0 then 1 else 16 * Pow16(k - 1)
  }

  /** `(c >> 4k) & 15`. */
  function Nibble(c: nat, k: nat): (n: nat)
    ensures n < 16
  {
    (c / Pow16(k)) % 16
  }

  /** The closure `f` applied at nibbles k-1 down to 0: a nibble is
      emitted once a non-zero nibble has been seen. */
  function Digits(c: nat, k: nat, seen: bool): (keys: seq<nat>)
    ensures |keys| <= k
    ensures !seen && keys != [] ==> keys[0] != KEY_0
    decreases k
  {
    if k == 0 then []
    else
      var n := Nibble(c, k - 1);
      if seen || n != 0 then [HexKey(n)] + Digits(c, k - 1, true)
      else Digits(c, k - 1, false)
  }

  /** The number a key sequence spells, most significant digit first. */
  function Read(keys: seq<nat>): Option<nat>
  {
    if keys == [] then Some(0)
    else match (HexValue(keys[0]), Read(keys[1..]))
      case (Some(d), Some(rest)) => Some(d * Pow16(|keys| - 1) + rest)
      case _ => None
  }

  /** The top nibble and the rest of the low k digits. */
  lemma SplitTopNibble(c: nat, k: nat)
    requires k > 0
    ensures c % Pow16(k) == Nibble(c, k - 1) * Pow16(k - 1) + c % Pow16(k - 1)
  {
    var p := Pow16(k - 1);
    var q, r := c / p, c % p;
    var a, b := q / 16, q % 16;
    assert c == q * p + r;
    assert q == 16 * a + b;
    Regroup(a, b, p);
    assert c == a * (16 * p) + (b * p + r);
    BelowTimes(b, p);
    DivUnique(c, 16 * p, a, b * p + r);
  }

  lemma Regroup(a: nat, b: nat, p: nat)
    ensures (16 * a + b) * p == a * (16 * p) + b * p
  {
  }

  lemma BelowTimes(b: nat, p: nat)
    requires b < 16
    ensures b * p <= 15 * p
  {
  }

  /** The emitted digits spell the low k nibbles of c, leading zeros
      dropped unless one was already seen. */
  lemma {:induction false} DigitsSpell(c: nat, k: nat, seen: bool)
    ensures Read(Digits(c, k, seen)) == Some(c % Pow16(k))
    ensures seen ==> |Digits(c, k, seen)| == k
    ensures !seen && Digits(c, k, seen) == [] ==> c % Pow16(k) == 0
    decreases k
  {
    if k > 0 {
      var n := Nibble(c, k - 1);
      SplitTopNibble(c, k);
      DigitsSpell(c, k - 1, true);
      DigitsSpell(c, k - 1, false);
      var keys := Digits(c, k, seen);
      if seen || n != 0 {
        assert keys[1..] == Digits(c, k - 1, true);
        HexKeysDistinct(n);
      }
    }
  }

  /** `to_escape`: the hex digits of a code point, at most six (a code
      point is below 16^6), without leading zeros; so the `unwrap` on the
      push never fails. */
  function ToEscape(c: nat): (keys: seq<nat>)
    requires c < 0x11_0000
    ensures |keys| <= 6
    ensures c == 0 <==> keys == []
    ensures keys != [] ==> keys[0] != KEY_0
    ensures Read(keys) == Some(c)
  {
    assert Pow16(6) == 0x100_0000;
    EscapeDigits(c, 6);
    Digits(c, 6, false)
  }

  /** `to_escape_surrogate`: the same for a UTF-16 unit, at most four. */
  function ToEscapeSurrogate(u: u16): (keys: seq<nat>)
    ensures |keys| <= 4
    ensures u == 0 <==> keys == []
    ensures keys != [] ==> keys[0] != KEY_0
    ensures Read(keys) == Some(u)
  {
    assert Pow16(4) == 0x1_0000;
    EscapeDigits(u, 4);
    Digits(u, 4, false)
  }

  /** The digits of a number below 16^k spell it, without leading zeros. */
  lemma EscapeDigits(c: nat, k: nat)
    requires c < Pow16(k)
    ensures var keys := Digits(c, k, false);
      (c == 0 <==> keys == []) && Read(keys) == Some(c)
  {
    DigitsSpell(c, k, false);
    NoDigitsOfZero(k);
    DivUnique(c, Pow16(k), 0, c);
  }

  /** Zero has no digits once leading zeros are dropped. */
  lemma {:induction false} NoDigitsOfZero(k: nat)
    ensures Digits(0, k, false) == []
  {
    if k > 0 {
      assert Nibble(0, k - 1) == 0;
      NoDigitsOfZero(k - 1);
    }
  }

  datatype HidOp = Report(keys: seq<nat>) | DelayMs(ms: nat)

  function Held(prefix: seq<nat>, keys: seq<nat>): (ops: seq<HidOp>)
    ensures |ops| == |keys|
    ensures forall i :: 0 <= i < |keys| ==> ops[i] == Report(prefix + [keys[i]])
  {
    seq(|keys|, i requires 0 <= i < |keys| => Report(prefix + [keys[i]]))
  }

  const LINUX_CHORD: seq<nat> := [LEFT_CONTROL, LEFT_SHIFT, KEY_U]

  /** One character on Linux: Ctrl+Shift+U, each digit with those three
      held, then an empty report. */
  function LinuxChar(c: nat): (ops: seq<HidOp>)
    requires c < 0x11_0000
    ensures |ops| == |ToEscape(c)| + 2
    ensures ops[0] == Report(LINUX_CHORD) && ops[|ops| - 1] == Report([])
    ensures forall i :: 0 <= i < |ToEscape(c)| ==> ops[i + 1] == Report(LINUX_CHORD + [ToEscape(c)[i]])
  {
    var mid := Held(LINUX_CHORD, ToEscape(c));
    var ops := [Report(LINUX_CHORD)] + mid + [Report([])];
    assert forall i :: 0 <= i < |mid| ==> ops[i + 1] == mid[i];
    ops
  }

  function CodePoints(s: string): (cs: seq<nat>)
    ensures |cs| == |s|
    ensures forall i :: 0 <= i < |s| ==> cs[i] == s[i] as int && cs[i] < 0x11_0000
  {
    seq(|s|, i requires 0 <= i < |s| => s[i] as int)
  }

  /** A report that holds Ctrl+Shift+U or nothing. */
  predicate LinuxReport(op: HidOp)
  {
    op.Report? && (op.keys == [] || (|op.keys| >= 3 && op.keys[..3] == LINUX_CHORD))
  }

  lemma LinuxCharReports(c: nat)
    requires c < 0x11_0000
    ensures forall i :: 0 <= i < |LinuxChar(c)| ==> LinuxReport(LinuxChar(c)[i])
  {
    var ops := LinuxChar(c);
    forall i | 0 <= i < |ops|
      ensures LinuxReport(ops[i])
    {
      if 0 < i < |ops| - 1 {
        assert (LINUX_CHORD + [ToEscape(c)[i - 1]])[..3] == LINUX_CHORD;
      }
    }
  }

  /** `emit_linux`: the characters one after the other. */
  function EmitLinux(cs: seq<nat>): (ops: seq<HidOp>)
    requires forall i :: 0 <= i < |cs| ==> cs[i] < 0x11_0000
    ensures forall i :: 0 <= i < |ops| ==> LinuxReport(ops[i])
    ensures |ops| >= 2 * |cs|
    decreases |cs|
  {
    if cs == [] then []
    else
      var head, rest := LinuxChar(cs[0]), EmitLinux(cs[1..]);
      LinuxCharReports(cs[0]);
      LinuxReportsAppend(head, rest);
      head + rest
  }

  lemma LinuxReportsAppend(a: seq<HidOp>, b: seq<HidOp>)
    requires forall i :: 0 <= i < |a| ==> LinuxReport(a[i])
    requires forall i :: 0 <= i < |b| ==> LinuxReport(b[i])
    ensures forall i :: 0 <= i < |a + b| ==> LinuxReport((a + b)[i])
  {
    forall i | 0 <= i < |a + b|
      ensures LinuxReport((a + b)[i])
    {
      if i >= |a| {
        assert (a + b)[i] == b[i - |a|];
      }
    }
  }

  /** UTF-16: a code point beyond the basic plane becomes a surrogate
      pair. */
  function Utf16Units(c: nat): (us: seq<u16>)
    requires c < 0x11_0000 && !(0xD800 <= c < 0xE000)
    ensures c < 0x1_0000 ==> us == [c]
    ensures c >= 0x1_0000 ==> |us| == 2 && 0xD800 <= us[0] < 0xDC00 && 0xDC00 <= us[1] < 0xE000
  {
    if c < 0x1_0000 then [c]
    else
      var v := c - 0x1_0000;
      [0xD800 + v / 0x400, 0xDC00 + v % 0x400]
  }

  /** A surrogate pair decodes to the code point it came from. */
  lemma SurrogatePairDecodes(c: nat)
    requires 0x1_0000 <= c < 0x11_0000
    ensures var us := Utf16Units(c); 0x1_0000 + (us[0] as int - 0xD800) * 0x400 + (us[1] as int - 0xDC00) == c
  {
  }

  function Utf16(cs: seq<nat>): (us: seq<u16>)
    requires forall i :: 0 <= i < |cs| ==> cs[i] < 0x11_0000 && !(0xD800 <= cs[i] < 0xE000)
    decreases |cs|
  {
    if cs == [] then [] else Utf16Units(cs[0]) + Utf16(cs[1..])
  }

  const MAC_CHORD: seq<nat> := [RIGHT_ALT, LEFT_ALT]

  /** One UTF-16 unit on macOS: both Alts, then each digit pressed and
      lifted with the Alts held. */
  function MacUnit(u: u16): (ops: seq<HidOp>)
    ensures |ops| == 1 + 2 * |ToEscapeSurrogate(u)|
    ensures ops[0] == Report(MAC_CHORD)
    ensures forall i :: 0 <= i < |ops| ==> MacReport(ops[i])
    ensures forall i :: 0 <= i < |ToEscapeSurrogate(u)| ==>
      ops[1 + 2 * i] == Report(MAC_CHORD + [ToEscapeSurrogate(u)[i]]) && ops[2 + 2 * i] == Report(MAC_CHORD)
  {
    var keys := ToEscapeSurrogate(u);
    ChordThenTaps(keys);
    [Report(MAC_CHORD)] + Taps(keys)
  }

  /** A report that holds both Alts. */
  predicate MacReport(op: HidOp)
  {
    op.Report? && |op.keys| >= 2 && op.keys[..2] == MAC_CHORD
  }

  lemma ChordThenTaps(keys: seq<nat>)
    ensures var ops := [Report(MAC_CHORD)] + Taps(keys);
      && (forall i :: 0 <= i < |ops| ==> MacReport(ops[i]))
      && (forall i :: 0 <= i < |keys| ==>
            ops[1 + 2 * i] == Report(MAC_CHORD + [keys[i]]) && ops[2 + 2 * i] == Report(MAC_CHORD))
  {
    var taps := Taps(keys);
    var ops := [Report(MAC_CHORD)] + taps;
    assert forall i :: 1 <= i < |ops| ==> ops[i] == taps[i - 1];
    forall i | 0 <= i < |keys|
      ensures ops[1 + 2 * i] == Report(MAC_CHORD + [keys[i]]) && ops[2 + 2 * i] == Report(MAC_CHORD)
    {
      TapsAt(keys, i);
    }
  }

  function Taps(keys: seq<nat>): (ops: seq<HidOp>)
    ensures |ops| == 2 * |keys|
    ensures forall i :: 0 <= i < |ops| ==> MacReport(ops[i])
    decreases |keys|
  {
    if keys == [] then []
    else
      var rest := Taps(keys[1..]);
      assert (MAC_CHORD + [keys[0]])[..2] == MAC_CHORD;
      [Report(MAC_CHORD + [keys[0]]), Report(MAC_CHORD)] + rest
  }

  /** Digit i is pressed at report 2i and lifted at 2i + 1. */
  lemma {:induction false} TapsAt(keys: seq<nat>, i: nat)
    requires i < |keys|
    ensures Taps(keys)[2 * i] == Report(MAC_CHORD + [keys[i]])
    ensures Taps(keys)[2 * i + 1] == Report(MAC_CHORD)
    decreases i
  {
    if i > 0 {
      TapsAt(keys[1..], i - 1);
      assert Taps(keys)[2 * i] == Taps(keys[1..])[2 * (i - 1)];
      assert Taps(keys)[2 * i + 1] == Taps(keys[1..])[2 * (i - 1) + 1];
    }
  }

  /** Every report of the unit sequence holds both Alts. */
  function MacUnits(us: seq<u16>): (ops: seq<HidOp>)
    ensures forall i :: 0 <= i < |ops| ==> MacReport(ops[i])
    ensures |ops| >= |us|
    decreases |us|
  {
    if us == [] then [] else MacUnit(us[0]) + MacUnits(us[1..])
  }

  /** `emit_mac`: Right Alt alone, a 50 ms pause, every UTF-16 unit, and a
      final empty report. */
  function EmitMac(cs: seq<nat>): (ops: seq<HidOp>)
    requires forall i :: 0 <= i < |cs| ==> cs[i] < 0x11_0000 && !(0xD800 <= cs[i] < 0xE000)
    ensures |ops| >= 3 && ops[..2] == [Report([RIGHT_ALT]), DelayMs(50)]
    ensures ops[|ops| - 1] == Report([])
    ensures ops[2..|ops| - 1] == MacUnits(Utf16(cs))
  {
    [Report([RIGHT_ALT]), DelayMs(50)] + MacUnits(Utf16(cs)) + [Report([])]
  }

  datatype Os = LinuxOs | Windows | MacOs | Ios | Other

  /** `unicode_task`: Linux escapes when the host was guessed to be Linux,
      macOS escapes otherwise (including when no guess was made). */
  function Emit(guess: Option<Os>, s: string): (ops: seq<HidOp>)
    ensures guess == Some(LinuxOs) ==> ops == EmitLinux(CodePoints(s))
    ensures guess != Some(LinuxOs) ==> ops == EmitMac(CodePoints(s))
  {
    var cs := CodePoints(s);
    assert forall i :: 0 <= i < |cs| ==> !(0xD800 <= cs[i] < 0xE000) by {
      forall i | 0 <= i < |cs| ensures !(0xD800 <= cs[i] < 0xE000) {
        assert cs[i] == s[i] as int;
      }
    }
    if guess == Some(LinuxOs) then EmitLinux(cs) else EmitMac(cs)
  }
}
