/** The inter-board envelope of shared/src/cmd.rs: a command is either
    reliable, carrying a uuid and an 8-bit checksum, or unreliable; an
    acknowledgement carries the uuid it answers and its own checksum.

    The checksum is a 64-bit hash of a byte stream folded to one byte by
    XOR. The hash itself (FNV in the source) is a parameter `hash`: only the
    bytes it is fed and the fold after it are modelled. How a payload type
    feeds the hasher (its `Hash` implementation) is the parameter `feed`. */
module Cmd {

  import opened Util

  type byte = u8

  /** Bitwise exclusive or of two bytes. */
  function Xor(a: byte, b: byte): byte
  {
    XorLow(a, b, 8)
  }

  /** The exclusive or of the low `n` bits of `a` and `b`, bit by bit from
      the least significant. */
  function XorLow(a: nat, b: nat, n: nat): (r: nat)
    ensures r < Pow2(n)
  {
    if n == 0 then 0 else (a % 2 + b % 2) % 2 + 2 * XorLow(a / 2, b / 2, n - 1)
  }

  /** 0 is the identity of XOR. */
  lemma XorZero(b: byte)
    ensures Xor(0, b) == b
  {
    assert Pow2(8) == 256;
    XorLowZero(b, 8);
  }

  /** XOR does not depend on the order of its operands. */
  lemma {:induction false} XorLowSymmetric(a: nat, b: nat, n: nat)
    ensures XorLow(a, b, n) == XorLow(b, a, n)
  {
    if n > 0 {
      XorLowSymmetric(a / 2, b / 2, n - 1);
    }
  }

  /** XOR with the same value twice gives the value back. */
  lemma {:induction false} XorLowCancel(a: nat, b: nat, n: nat)
    requires a < Pow2(n)
    ensures XorLow(XorLow(a, b, n), b, n) == a
  {
    if n > 0 {
      var t := (a % 2 + b % 2) % 2;
      var rest := XorLow(a / 2, b / 2, n - 1);
      var r := XorLow(a, b, n);
      assert r == t + 2 * rest;
      DivUnique(r, 2, rest, t);
      assert (t + b % 2) % 2 == a % 2;
      assert a / 2 < Pow2(n - 1);
      XorLowCancel(a / 2, b / 2, n - 1);
      assert XorLow(r, b, n) == a % 2 + 2 * (a / 2);
    }
  }

  /** 0 is also a right identity, and XOR with a byte undoes itself. */
  lemma XorFacts(a: byte, b: byte)
    ensures Xor(a, 0) == a
    ensures Xor(Xor(a, b), b) == a
  {
    XorZero(a);
    XorLowSymmetric(a, 0, 8);
    assert Pow2(8) == 256;
    XorLowCancel(a, b, 8);
  }

  lemma {:induction false} XorLowZero(b: nat, n: nat)
    requires b < Pow2(n)
    ensures XorLow(0, b, n) == b
  {
    if n > 0 {
      XorLowZero(b / 2, n - 1);
    }
  }

  /** A 64-bit hash over the stream of bytes written into the hasher. */
  type Hash64 = seq<byte> -> bv64

  datatype Reliability = Reliable(uuid: byte, csum: byte) | Unreliable

  datatype Command<T> = Command(reliability: Reliability, cmd: T)

  datatype Ack = Ack(uuid: byte, csum: byte)

  datatype CmdOrAck<T> = CmdMsg(command: Command<T>) | AckMsg(ack: Ack)

  // ---------------------------------------------------------------------
  // The stable hasher: how integers are written into the byte stream.
  // ---------------------------------------------------------------------

  /** `n` little-endian bytes of `v` (`to_le_bytes`). */
  function LeBytes(v: nat, n: nat): (bs: seq<byte>)
    ensures |bs| == n
  {
    if n == 0 then [] else [v % 256] + LeBytes(v / 256, n - 1)
  }

  /** The bytes of `lo + 256^n hi` are the `n` bytes of `lo` followed by
      those of `hi`. */
  lemma {:induction false} LeBytesSplit(lo: nat, hi: nat, n: nat, m: nat)
    requires lo < Pow256(n)
    ensures LeBytes(lo + Pow256(n) * hi, n + m) == LeBytes(lo, n) + LeBytes(hi, m)
  {
    if n > 0 {
      var p := Pow256(n - 1);
      var v := lo + Pow256(n) * hi;
      var q := lo / 256 + p * hi;
      assert Pow256(n) * hi == 256 * (p * hi);
      DivUnique(v, 256, q, lo % 256);
      assert lo / 256 < p;
      LeBytesSplit(lo / 256, hi, n - 1, m);
      assert n + m - 1 == (n - 1) + m;
    }
  }

  /** Reads little-endian bytes back as a number. */
  function FromLe(bs: seq<byte>): nat
  {
    if bs == [] then 0 else bs[0] + 256 * FromLe(bs[1..])
  }

  function Pow256(n: nat): (r: nat)
    ensures r >= 1
  {
    if n == 0 then 1 else 256 * Pow256(n - 1)
  }

  /** The little-endian encoding loses nothing for values that fit. */
  lemma {:induction false} LeBytesRoundTrip(v: nat, n: nat)
    requires v < Pow256(n)
    ensures FromLe(LeBytes(v, n)) == v
  {
    if n > 0 {
      LeBytesRoundTrip(v / 256, n - 1);
      assert LeBytes(v, n)[1..] == LeBytes(v / 256, n - 1);
    }
  }

  /** XOR of all bytes, folded from 0 (`iter().fold(0, BitXor::bitxor)`). */
  function XorFold(bs: seq<byte>): byte
  {
    XorUpTo(bs, |bs|)
  }

  /** The fold over the first `k` bytes. */
  function XorUpTo(bs: seq<byte>, k: nat): byte
    requires k <= |bs|
  {
    if k == 0 then 0 else Xor(XorUpTo(bs, k - 1), bs[k - 1])
  }

  /** The fold over the first `k` bytes sees only those bytes. */
  lemma {:induction false} XorUpToAgree(a: seq<byte>, b: seq<byte>, k: nat)
    requires k <= |a| && k <= |b| && a[..k] == b[..k]
    ensures XorUpTo(a, k) == XorUpTo(b, k)
  {
    if k > 0 {
      assert a[k - 1] == a[..k][k - 1] == b[..k][k - 1] == b[k - 1];
      assert a[..k - 1] == a[..k][..k - 1] == b[..k][..k - 1] == b[..k - 1];
      XorUpToAgree(a, b, k - 1);
    }
  }

  /** Two's-complement reinterpretation of a signed value as unsigned
      (`i as uN`). */
  function AsUnsigned(i: int, bytes: nat): (u: nat)
    ensures u < Pow256(bytes)
  {
    i % Pow256(bytes)
  }

  function WriteU8(i: nat): (bs: seq<byte>)
    requires i < 256
    ensures |bs| == 1 && bs[0] == i
  {
    [i]
  }

  function WriteU16(i: nat): (bs: seq<byte>)
    requires i < Pow256(2)
    ensures |bs| == 2 && FromLe(bs) == i
  {
    LeBytesRoundTrip(i, 2);
    LeBytes(i, 2)
  }

  function WriteU32(i: nat): (bs: seq<byte>)
    requires i < Pow256(4)
    ensures |bs| == 4 && FromLe(bs) == i
  {
    LeBytesRoundTrip(i, 4);
    LeBytes(i, 4)
  }

  function WriteU64(i: nat): (bs: seq<byte>)
    requires i < Pow256(8)
    ensures |bs| == 8 && FromLe(bs) == i
  {
    LeBytesRoundTrip(i, 8);
    LeBytes(i, 8)
  }

  function WriteU128(i: nat): (bs: seq<byte>)
    requires i < Pow256(16)
    ensures |bs| == 16 && FromLe(bs) == i
  {
    LeBytesRoundTrip(i, 16);
    LeBytes(i, 16)
  }

  /** `usize` is 4 bytes on the 32-bit target; it is written as the single
      XOR-fold of its little-endian bytes, so the stream does not depend on
      the pointer width (`UsizeWidthFree`, `IsizeWidthFree`). */
  const USIZE_BYTES: nat := 4

  /** The checksum byte of a `usize` does not depend on the pointer
      width: the four high bytes of the 64-bit form are zero. */
  function WriteUsize(i: nat): (bs: seq<byte>)
    requires i < Pow256(USIZE_BYTES)
    ensures |bs| == 1 && bs[0] == XorFold(LeBytes(i, 8))
  {
    UsizeWidthFree(i);
    [XorFold(LeBytes(i, USIZE_BYTES))]
  }

  /** Folding four more bytes onto a sequence. */
  lemma XorFoldFour(a: seq<byte>, s: seq<byte>)
    requires |s| == 4
    ensures XorFold(a + s) == Xor(Xor(Xor(Xor(XorFold(a), s[0]), s[1]), s[2]), s[3])
  {
    var c := a + s;
    var k := |a|;
    assert c[..k] == a[..k];
    XorUpToAgree(c, a, k);
    assert c[k] == s[0] && c[k + 1] == s[1] && c[k + 2] == s[2] && c[k + 3] == s[3];
    assert XorUpTo(c, k + 4) == Xor(XorUpTo(c, k + 3), s[3]);
    assert XorUpTo(c, k + 3) == Xor(XorUpTo(c, k + 2), s[2]);
    assert XorUpTo(c, k + 2) == Xor(XorUpTo(c, k + 1), s[1]);
  }

  lemma Pow256Values()
    ensures Pow256(4) == 0x1_0000_0000
    ensures Pow256(8) == 0x1_0000_0000_0000_0000
  {
    assert Pow256(2) == 0x1_0000;
    assert Pow256(4) == 0x1_0000_0000;
    assert Pow256(6) == 0x1_0000_0000_0000;
  }

  lemma LeBytesFour(v: nat)
    requires v < 256
    ensures LeBytes(v * 0x0101_0101, 4) == [v, v, v, v]
  {
    var w := v * 0x0101_0101;
    DivUnique(w, 256, v * 0x01_0101, v);
    DivUnique(v * 0x01_0101, 256, v * 0x0101, v);
    DivUnique(v * 0x0101, 256, v, v);
    DivUnique(v, 256, 0, v);
    assert LeBytes(v, 1) == [v];
    assert LeBytes(v * 0x0101, 2) == [v] + LeBytes(v, 1);
    assert LeBytes(v * 0x01_0101, 3) == [v] + LeBytes(v * 0x0101, 2);
    assert LeBytes(w, 4) == [v] + LeBytes(v * 0x01_0101, 3);
  }

  /** A value below 2^32 has the same XOR of bytes in four bytes as in
      eight. */
  lemma UsizeWidthFree(i: nat)
    requires i < Pow256(4)
    ensures XorFold(LeBytes(i, 4)) == XorFold(LeBytes(i, 8))
  {
    var a := LeBytes(i, 4);
    var x := XorFold(a);
    LeBytesSplit(i, 0, 4, 4);
    LeBytesFour(0);
    assert LeBytes(i, 8) == a + [0, 0, 0, 0];
    XorFoldFour(a, [0, 0, 0, 0]);
    XorFacts(x, 0);
  }

  /** A 32-bit signed value has the same XOR of bytes in its 4-byte and
      8-byte two's-complement forms: the four sign bytes are all 0 or all
      0xFF, and pairs of equal bytes cancel. */
  lemma IsizeWidthFree(i: int)
    requires -0x8000_0000 <= i < 0x8000_0000
    ensures XorFold(LeBytes(AsUnsigned(i, 4), 4)) == XorFold(LeBytes(AsUnsigned(i, 8), 8))
  {
    Pow256Values();
    var lo := AsUnsigned(i, 4);
    var x := XorFold(LeBytes(lo, 4));
    if i >= 0 {
      DivUnique(i, Pow256(4), 0, i);
      DivUnique(i, Pow256(8), 0, i);
      UsizeWidthFree(i);
    } else {
      DivUnique(i, Pow256(4), -1, i + 0x1_0000_0000);
      DivUnique(i, Pow256(8), -1, i + 0x1_0000_0000_0000_0000);
      assert AsUnsigned(i, 8) == lo + Pow256(4) * (255 * 0x0101_0101);
      LeBytesSplit(lo, 255 * 0x0101_0101, 4, 4);
      LeBytesFour(255);
      XorFoldFour(LeBytes(lo, 4), [255, 255, 255, 255]);
      XorFacts(x, 255);
      XorFacts(Xor(Xor(x, 255), 255), 255);
    }
  }

  /** The two's-complement reading of `bytes` bytes holding `u`: values
      from half the range up are negative. */
  function Signed(u: nat, bytes: nat): int
  {
    if u < Pow256(bytes) / 2 then u else u - Pow256(bytes)
  }

  /** A signed value that fits `bytes` bytes, written through its unsigned
      cast, reads back in two's complement as itself: the bytes fed for -1
      and for the all-ones unsigned value are the same, and the sign is
      still recovered. */
  lemma SignedWriteRecoverable(i: int, bytes: nat)
    requires bytes > 0
    requires -(Pow256(bytes) as int) / 2 <= i < Pow256(bytes) / 2
    ensures Signed(AsUnsigned(i, bytes), bytes) == i
  {
    var p := Pow256(bytes);
    var h := Pow256(bytes - 1);
    assert p == 256 * h;
    assert p / 2 == 128 * h;
    if i >= 0 {
      DivUnique(i, p, 0, i);
    } else {
      DivUnique(i, p, -1, i + p);
    }
  }

  function WriteI8(i: int): (bs: seq<byte>)
    requires -0x80 <= i < 0x80
    ensures bs == WriteU8(AsUnsigned(i, 1))
    ensures |bs| == 1 && Signed(FromLe(bs), 1) == i
  {
    SignedWriteRecoverable(i, 1);
    var bs := WriteU8(AsUnsigned(i, 1));
    assert FromLe(bs) == bs[0] + 256 * FromLe(bs[1..]);
    bs
  }

  function WriteI16(i: int): (bs: seq<byte>)
    requires -0x8000 <= i < 0x8000
    ensures bs == WriteU16(AsUnsigned(i, 2))
    ensures |bs| == 2 && Signed(FromLe(bs), 2) == i
  {
    SignedWriteRecoverable(i, 2);
    WriteU16(AsUnsigned(i, 2))
  }

  function WriteI32(i: int): (bs: seq<byte>)
    requires -0x8000_0000 <= i < 0x8000_0000
    ensures bs == WriteU32(AsUnsigned(i, 4))
    ensures |bs| == 4 && Signed(FromLe(bs), 4) == i
  {
    SignedWriteRecoverable(i, 4);
    WriteU32(AsUnsigned(i, 4))
  }

  function WriteI64(i: int): (bs: seq<byte>)
    requires -0x8000_0000_0000_0000 <= i < 0x8000_0000_0000_0000
    ensures bs == WriteU64(AsUnsigned(i, 8))
    ensures |bs| == 8 && Signed(FromLe(bs), 8) == i
  {
    SignedWriteRecoverable(i, 8);
    WriteU64(AsUnsigned(i, 8))
  }

  function WriteI128(i: int): (bs: seq<byte>)
    requires -(Pow256(16) as int) / 2 <= i < Pow256(16) / 2
    ensures bs == WriteU128(AsUnsigned(i, 16))
    ensures |bs| == 16 && Signed(FromLe(bs), 16) == i
  {
    SignedWriteRecoverable(i, 16);
    WriteU128(AsUnsigned(i, 16))
  }

  /** Like `WriteUsize`, the checksum byte of an `isize` is the same
      whatever the pointer width. */
  function WriteIsize(i: int): (bs: seq<byte>)
    requires -0x8000_0000 <= i < 0x8000_0000
    ensures |bs| == 1 && bs[0] == XorFold(LeBytes(AsUnsigned(i, 8), 8))
  {
    IsizeWidthFree(i);
    UsizeWidthFree(AsUnsigned(i, USIZE_BYTES));
    WriteUsize(AsUnsigned(i, USIZE_BYTES))
  }

  // ---------------------------------------------------------------------
  // Checksums.
  // ---------------------------------------------------------------------

  /** The eight little-endian bytes of a 64-bit hash. */
  function HashBytes(x: bv64): (bs: seq<byte>)
    ensures |bs| == 8
  {
    [ (x & 0xFF) as int, ((x >> 8) & 0xFF) as int,
      ((x >> 16) & 0xFF) as int, ((x >> 24) & 0xFF) as int,
      ((x >> 32) & 0xFF) as int, ((x >> 40) & 0xFF) as int,
      ((x >> 48) & 0xFF) as int, ((x >> 56) & 0xFF) as int ]
  }

  /** `calc_csum`: hash the stream, then XOR-fold the 8 hash bytes; the
      checksum is the XOR of the eight little-endian bytes of the hash. */
  function CalcCsum(hash: Hash64, stream: seq<byte>): (csum: byte)
    ensures var bs := HashBytes(hash(stream));
      csum == Xor(Xor(Xor(Xor(Xor(Xor(Xor(bs[0], bs[1]), bs[2]), bs[3]), bs[4]), bs[5]), bs[6]), bs[7])
  {
    XorFoldEight(HashBytes(hash(stream)));
    XorFold(HashBytes(hash(stream)))
  }

  lemma XorFoldEight(bs: seq<byte>)
    requires |bs| == 8
    ensures XorFold(bs)
        == Xor(Xor(Xor(Xor(Xor(Xor(Xor(bs[0], bs[1]), bs[2]), bs[3]), bs[4]), bs[5]), bs[6]), bs[7])
  {
    assert XorUpTo(bs, 1) == bs[0] by {
      XorZero(bs[0]);
    }
    assert XorUpTo(bs, 2) == Xor(XorUpTo(bs, 1), bs[1]);
    assert XorUpTo(bs, 3) == Xor(XorUpTo(bs, 2), bs[2]);
    assert XorUpTo(bs, 4) == Xor(XorUpTo(bs, 3), bs[3]);
    assert XorUpTo(bs, 5) == Xor(XorUpTo(bs, 4), bs[4]);
    assert XorUpTo(bs, 6) == Xor(XorUpTo(bs, 5), bs[5]);
    assert XorUpTo(bs, 7) == Xor(XorUpTo(bs, 6), bs[6]);
    assert XorUpTo(bs, 8) == Xor(XorUpTo(bs, 7), bs[7]);
  }

  /** Extending a prefix by one byte XORs that byte into the fold. */
  lemma XorFoldPrefix(bs: seq<byte>, k: nat)
    requires k < |bs|
    ensures XorFold(bs[..k + 1]) == Xor(XorFold(bs[..k]), bs[k])
  {
    assert bs[..k + 1][..k] == bs[..k];
    XorUpToAgree(bs[..k + 1], bs[..k], k);
  }

  /** The stream hashed for a reliable command: the payload, then the uuid
      (the tuple `(&cmd, uuid)` hashes its fields in order). */
  function CmdStream<T>(feed: T -> seq<byte>, cmd: T, uuid: byte): seq<byte>
  {
    feed(cmd) + WriteU8(uuid)
  }

  /** The stream hashed for an acknowledgement: the uuid alone. */
  function AckStream(uuid: byte): seq<byte>
  {
    WriteU8(uuid)
  }

  // ---------------------------------------------------------------------
  // Command and Ack operations.
  // ---------------------------------------------------------------------

  function NewReliable<T>(hash: Hash64, feed: T -> seq<byte>, cmd: T, uuid: byte): (c: Command<T>)
    ensures c.cmd == cmd
    ensures c.reliability.Reliable? && c.reliability.uuid == uuid
    ensures Validate(hash, feed, c)
  {
    Command(Reliable(uuid, CalcCsum(hash, CmdStream(feed, cmd, uuid))), cmd)
  }

  function NewUnreliable<T>(cmd: T): (c: Command<T>)
    ensures c.cmd == cmd && c.reliability.Unreliable?
  {
    Command(Unreliable, cmd)
  }

  /** `validate`: a reliable command's checksum must match the one
      recomputed from its payload and uuid; unreliable commands carry no
      checksum and always pass. */
  predicate Validate<T>(hash: Hash64, feed: T -> seq<byte>, c: Command<T>)
    ensures c.reliability.Unreliable? ==> Validate(hash, feed, c)
    ensures c.reliability.Reliable? ==>
      var uuid := c.reliability.uuid;
      (Validate(hash, feed, c) <==> c == Command(Reliable(uuid, CalcCsum(hash, CmdStream(feed, c.cmd, uuid))), c.cmd))
  {
    match c.reliability
    case Reliable(uuid, csum) => csum == CalcCsum(hash, CmdStream(feed, c.cmd, uuid))
    case Unreliable => true
  }

  /** The acknowledgement a command asks for. */
  function AckOf<T>(hash: Hash64, c: Command<T>): (r: Option<Ack>)
    ensures r.Some? <==> c.reliability.Reliable?
    ensures r.Some? ==> r.value.uuid == c.reliability.uuid
    ensures r.Some? ==> AckValidate(hash, r.value) == Some(r.value)
  {
    match c.reliability
    case Reliable(uuid, _) => Some(Ack(uuid, CalcCsum(hash, AckStream(uuid))))
    case Unreliable => None
  }

  /** `Ack::validate`: returns the ack unchanged when its checksum matches
      the one recomputed from its uuid, and nothing otherwise. */
  function AckValidate(hash: Hash64, a: Ack): (r: Option<Ack>)
    ensures r.Some? ==> r.value == a
    ensures r.None? <==> a.csum != CalcCsum(hash, AckStream(a.uuid))
  {
    if CalcCsum(hash, AckStream(a.uuid)) == a.csum then Some(a) else None
  }

  // ---------------------------------------------------------------------
  // Properties relating the operations.
  // ---------------------------------------------------------------------

  /** A reliable command is valid exactly when it is what `new_reliable`
      builds from its own payload and uuid. */
  lemma ValidIffRebuilt<T>(hash: Hash64, feed: T -> seq<byte>, c: Command<T>)
    requires c.reliability.Reliable?
    ensures Validate(hash, feed, c)
        <==> c == NewReliable(hash, feed, c.cmd, c.reliability.uuid)
  {
  }

  /** Corrupting only the checksum byte of a valid reliable command makes
      it fail validation. */
  lemma CorruptedCsumRejected<T>(hash: Hash64, feed: T -> seq<byte>, c: Command<T>, csum': byte)
    requires c.reliability.Reliable? && Validate(hash, feed, c)
    requires csum' != c.reliability.csum
    ensures !Validate(hash, feed, c.(reliability := c.reliability.(csum := csum')))
  {
  }

  /** An ack validates exactly when it is the ack a reliable command with
      the same uuid would produce. */
  lemma AckValidIffProduced<T>(hash: Hash64, feed: T -> seq<byte>, a: Ack, payload: T)
    ensures AckValidate(hash, a).Some?
        <==> AckOf(hash, NewReliable(hash, feed, payload, a.uuid)) == Some(a)
  {
  }
}
