/** The display's SPI interface (firmware/src/display/display_interface.rs):
    `send_u8` turns each `DataFormat` into SPI writes, buffering iterator
    input in fixed-size arrays, and `send_commands` / `send_data` set the
    data/command pin first. The bus is a trace of writes; which write (if
    any) the bus rejects is a parameter, `fail`, counting writes from 0.
    The target is little-endian, so a `u16` buffer viewed as bytes gives
    each value's low byte first, and `to_be` swaps the two bytes. */
module DisplayInterface {

  import opened Util

  /** Iterators are modelled by the finite sequences they yield. */
  datatype DataFormat =
    | U8(bytes: seq<u8>)
    | U16(words: seq<u16>)
    | U16LE(words: seq<u16>)
    | U16BE(words: seq<u16>)
    | U8Iter(bytes: seq<u8>)
    | U16LEIter(words: seq<u16>)
    | U16BEIter(words: seq<u16>)
    | Other

  datatype DisplayError = BusWriteError | DCError

  /** The 32-element buffer of `U8Iter` (bytes) and `U16LEIter` (`u16`s). */
  const SMALL_BUFFER: nat := 32
  /** The 64-element buffer of `U16BEIter`. */
  const LARGE_BUFFER: nat := 64

  // ---- byte order ----

  function WordBytes(w: u16, bigEndian: bool): (b: seq<u8>)
    ensures |b| == 2
    ensures bigEndian ==> (b[0] as int) * 256 + b[1] == w
    ensures !bigEndian ==> (b[1] as int) * 256 + b[0] == w
  {
    if bigEndian then [w / 256, w % 256] else [w % 256, w / 256]
  }

  /** The bytes of a `u16` buffer after converting each value. */
  function WordsBytes(ws: seq<u16>, bigEndian: bool): (b: seq<u8>)
    ensures |b| == 2 * |ws|
    decreases |ws|
  {
    if ws == [] then [] else WordBytes(ws[0], bigEndian) + WordsBytes(ws[1..], bigEndian)
  }

  /** Reading bytes back as values in the given byte order. */
  function BytesWords(b: seq<u8>, bigEndian: bool): (ws: seq<u16>)
    requires |b| % 2 == 0
    decreases |b|
  {
    if b == [] then []
    else
      var w := if bigEndian then (b[0] as int) * 256 + b[1] else (b[1] as int) * 256 + b[0];
      [w] + BytesWords(b[2..], bigEndian)
  }

  /** The byte conversion loses nothing: reading the bytes back in the
      same order gives the values. */
  lemma {:induction false} WordsRoundTrip(ws: seq<u16>, bigEndian: bool)
    ensures BytesWords(WordsBytes(ws, bigEndian), bigEndian) == ws
    decreases |ws|
  {
    if ws != [] {
      var b := WordsBytes(ws, bigEndian);
      assert b[2..] == WordsBytes(ws[1..], bigEndian);
      WordsRoundTrip(ws[1..], bigEndian);
    }
  }

  lemma {:induction false} WordsBytesAppend(a: seq<u16>, c: seq<u16>, bigEndian: bool)
    ensures WordsBytes(a + c, bigEndian) == WordsBytes(a, bigEndian) + WordsBytes(c, bigEndian)
    decreases |a|
  {
    if a == [] {
      assert a + c == c;
    } else {
      assert (a + c)[1..] == a[1..] + c;
      WordsBytesAppend(a[1..], c, bigEndian);
      Assoc(WordBytes(a[0], bigEndian), WordsBytes(a[1..], bigEndian), WordsBytes(c, bigEndian));
    }
  }

  // ---- buffered iterator writes ----

  /** The iterator arms' loop: each element goes into the buffer, a full
      buffer is written, then a non-empty remainder is. A failed write ends
      the loop. Returns the buffers written (the failing one included) and
      whether every write succeeded. */
  method Buffered<T>(items: seq<T>, cap: nat, fail: Option<nat>) returns (issued: seq<seq<T>>, ok: bool)
    requires cap > 0
    ensures ok <==> fail.None? || fail.value >= |Chunks(items, cap)|
    ensures ok ==> issued == Chunks(items, cap)
    ensures !ok ==> issued == Chunks(items, cap)[..fail.value + 1]
  {
    issued := [];
    var buf: seq<T> := [];
    var n := 0;
    while n < |items|
      invariant 0 <= n <= |items|
      invariant |buf| < cap
      invariant Full(issued, cap)
      invariant Concat(issued) + buf == items[..n]
      invariant fail.None? || fail.value >= |issued|
    {
      BufferStep(issued, buf, items, n);
      buf := buf + [items[n]];
      n := n + 1;
      if |buf| == cap {
        FlushStep(issued, buf, cap);
        issued := issued + [buf];
        buf := [];
        if fail == Some(|issued| - 1) {
          ok := false;
          FullPrefix(issued, items, n, cap);
          return;
        }
      }
    }
    assert items[..n] == items;
    LastChunk(issued, buf, items, cap);
    if |buf| > 0 {
      issued := issued + [buf];
      if fail == Some(|issued| - 1) {
        ok := false;
        return;
      }
    } else {
      assert issued + [] == issued;
    }
    ok := true;
  }

  /** Buffering the next element keeps the written buffers and the
      buffer, back to back, equal to the input read so far. */
  lemma BufferStep<T>(issued: seq<seq<T>>, buf: seq<T>, items: seq<T>, n: nat)
    requires n < |items| && Concat(issued) + buf == items[..n]
    ensures Concat(issued) + (buf + [items[n]]) == items[..n + 1]
  {
    Assoc(Concat(issued), buf, [items[n]]);
    assert items[..n + 1] == items[..n] + [items[n]];
  }

  /** Writing a full buffer appends it to the written ones. */
  lemma FlushStep<T>(issued: seq<seq<T>>, buf: seq<T>, cap: nat)
    requires Full(issued, cap) && |buf| == cap
    ensures Full(issued + [buf], cap)
    ensures Concat(issued + [buf]) == Concat(issued) + buf
  {
    ConcatAppend(issued, [buf]);
    assert Concat([buf]) == buf + Concat([buf][1..]);
  }

  /** Once the input is used up, the chunks are the full buffers written
      and a non-empty remainder. */
  lemma LastChunk<T>(issued: seq<seq<T>>, buf: seq<T>, items: seq<T>, cap: nat)
    requires cap > 0 && Full(issued, cap) && |buf| < cap
    requires Concat(issued) + buf == items
    ensures Chunks(items, cap) == issued + (if buf == [] then [] else [buf])
  {
    ChunksAfterFull(issued, buf, cap);
    ChunksOfShort(buf, cap);
  }

  /** Buffers written so far are the input's first chunks. */
  lemma FullPrefix<T>(issued: seq<seq<T>>, items: seq<T>, n: nat, cap: nat)
    requires cap > 0 && Full(issued, cap) && n <= |items|
    requires Concat(issued) == items[..n]
    ensures |issued| <= |Chunks(items, cap)|
    ensures Chunks(items, cap)[..|issued|] == issued
  {
    assert items == Concat(issued) + items[n..];
    ChunksAfterFull(issued, items[n..], cap);
  }

  /** Each buffer of values goes out as its converted bytes. */
  function WordWrites(chunks: seq<seq<u16>>, bigEndian: bool): (w: seq<seq<u8>>)
    ensures |w| == |chunks|
    ensures forall j :: 0 <= j < |w| ==> w[j] == WordsBytes(chunks[j], bigEndian)
    decreases |chunks|
  {
    if chunks == [] then [] else [WordsBytes(chunks[0], bigEndian)] + WordWrites(chunks[1..], bigEndian)
  }

  /** The converted buffers, back to back, are the converted values. */
  lemma {:induction false} WordWritesConcat(chunks: seq<seq<u16>>, bigEndian: bool)
    ensures Concat(WordWrites(chunks, bigEndian)) == WordsBytes(Concat(chunks), bigEndian)
    decreases |chunks|
  {
    if chunks != [] {
      WordWritesConcat(chunks[1..], bigEndian);
      WordsBytesAppend(chunks[0], Concat(chunks[1..]), bigEndian);
    }
  }

  /** A slice goes out in one write; it fails when write 0 is rejected. */
  function Single(bytes: seq<u8>, fail: Option<nat>): (r: (seq<seq<u8>>, Option<DisplayError>))
  {
    ([bytes], if fail == Some(0) then Some(BusWriteError) else None)
  }

  /** The writes of a list of buffers when write `fail` is rejected: up to
      and including the rejected one, then `BusWriteError`. */
  function Attempted<T>(cs: seq<seq<T>>, fail: Option<nat>): (r: (seq<seq<T>>, Option<DisplayError>))
  {
    if fail.Some? && fail.value < |cs| then (cs[..fail.value + 1], Some(BusWriteError)) else (cs, None)
  }

  /** What `send_u8` does to a format, stated without its buffering loop:
      the bytes of a slice in one write, an iterator's bytes in the chunks
      of its buffer, and the error of the first rejected write. */
  function Outcome(words: DataFormat, fail: Option<nat>): (r: (seq<seq<u8>>, Option<DisplayError>))
    requires !words.Other?
  {
    match words
    case U8(bytes) => Single(bytes, fail)
    case U16(ws) => Single(WordsBytes(ws, false), fail)
    case U16LE(ws) => Single(WordsBytes(ws, false), fail)
    case U16BE(ws) => Single(WordsBytes(ws, true), fail)
    case U8Iter(bytes) => Attempted(Chunks(bytes, SMALL_BUFFER), fail)
    case U16LEIter(ws) =>
      var (cs, e) := Attempted(Chunks(ws, SMALL_BUFFER), fail);
      (WordWrites(cs, false), e)
    case U16BEIter(ws) =>
      var (cs, e) := Attempted(Chunks(ws, LARGE_BUFFER), fail);
      (WordWrites(cs, true), e)
  }

  /** `u16::to_be` on this little-endian target: the two bytes swapped. */
  function SwapBytes(w: u16): (v: u16)
    ensures WordBytes(v, false) == WordBytes(w, true)
  {
    (w % 256) * 256 + w / 256
  }

  /** The values converted in place by `*v = v.to_be()`. */
  function ToBe(ws: seq<u16>): (vs: seq<u16>)
    ensures |vs| == |ws|
    ensures forall i :: 0 <= i < |ws| ==> vs[i] == SwapBytes(ws[i])
    decreases |ws|
  {
    if ws == [] then [] else [SwapBytes(ws[0])] + ToBe(ws[1..])
  }

  /** Viewing the swapped values as bytes, low byte first, gives the
      big-endian bytes of the original values: that is why `U16BE` can be
      written through `as_byte_slice`. */
  lemma {:induction false} ToBeBytes(ws: seq<u16>)
    ensures WordsBytes(ToBe(ws), false) == WordsBytes(ws, true)
    decreases |ws|
  {
    if ws != [] {
      ToBeBytes(ws[1..]);
      assert ToBe(ws)[1..] == ToBe(ws[1..]);
    }
  }

  /** `send_u8`: the writes issued and the error returned, if any, and the
      caller's data after the call. `U16LE` and `U16BE` convert the
      caller's slice in place before viewing it as bytes; `to_le` changes
      nothing on this target, `to_be` swaps each value's bytes, and the
      slice stays swapped afterwards. Formats the function does not handle
      reach `unimplemented!`. */
  method SendU8(words: DataFormat, fail: Option<nat>)
    returns (r: Result<(seq<seq<u8>>, Option<DisplayError>)>, after: DataFormat)
    ensures r.Panic? <==> words.Other?
    ensures !words.Other? ==> r == Ok(Outcome(words, fail))
    ensures (words.U8? || words.U16? || words.U16LE? || words.U16BE?) ==>
      r.Ok? && |r.value.0| == 1 && (r.value.1 == Some(BusWriteError) <==> fail == Some(0))
    ensures words.U8? ==> r.Ok? && r.value.0 == [words.bytes]
    ensures (words.U16? || words.U16LE?) ==> r.Ok? && r.value.0 == [WordsBytes(words.words, false)]
    ensures words.U16BE? ==> r.Ok? && r.value.0 == [WordsBytes(words.words, true)]
    ensures words.U16BE? ==> after == U16BE(ToBe(words.words))
    ensures !words.U16BE? ==> after == words
    ensures words.U8Iter? ==>
      r.Ok? && (var cs := Chunks(words.bytes, SMALL_BUFFER);
      if fail.Some? && fail.value < |cs| then r.value == (cs[..fail.value + 1], Some(BusWriteError))
      else r.value == (cs, None))
    ensures (words.U16LEIter? || words.U16BEIter?) ==>
      r.Ok? && (var cap := if words.U16LEIter? then SMALL_BUFFER else LARGE_BUFFER;
      var cs := Chunks(words.words, cap);
      var be := words.U16BEIter?;
      if fail.Some? && fail.value < |cs| then r.value == (WordWrites(cs[..fail.value + 1], be), Some(BusWriteError))
      else r.value == (WordWrites(cs, be), None))
  {
    after := words;
    match words {
      case U8(bytes) => r := Ok(Single(bytes, fail));
      case U16(ws) => r := Ok(Single(WordsBytes(ws, false), fail));
      case U16LE(ws) => r := Ok(Single(WordsBytes(ws, false), fail));
      case U16BE(ws) =>
        var swapped := ToBe(ws);
        after := U16BE(swapped);
        ToBeBytes(ws);
        r := Ok(Single(WordsBytes(swapped, false), fail));
      case U8Iter(bytes) =>
        var issued, ok := Buffered(bytes, SMALL_BUFFER, fail);
        r := Ok((issued, if ok then None else Some(BusWriteError)));
      case U16LEIter(ws) =>
        var issued, ok := Buffered(ws, SMALL_BUFFER, fail);
        r := Ok((WordWrites(issued, false), if ok then None else Some(BusWriteError)));
      case U16BEIter(ws) =>
        var issued, ok := Buffered(ws, LARGE_BUFFER, fail);
        r := Ok((WordWrites(issued, true), if ok then None else Some(BusWriteError)));
      case Other => r := Panic("not implemented");
    }
  }

  /** With no bus failure the writes of an iterator format, back to back,
      are exactly its bytes: nothing lost, repeated or reordered. */
  lemma IterWritesCoverInput(words: DataFormat)
    requires words.U8Iter? || words.U16LEIter? || words.U16BEIter?
    ensures words.U8Iter? ==> Concat(Chunks(words.bytes, SMALL_BUFFER)) == words.bytes
    ensures words.U16LEIter? ==>
      Concat(WordWrites(Chunks(words.words, SMALL_BUFFER), false)) == WordsBytes(words.words, false)
    ensures words.U16BEIter? ==>
      Concat(WordWrites(Chunks(words.words, LARGE_BUFFER), true)) == WordsBytes(words.words, true)
  {
    if words.U16LEIter? {
      WordWritesConcat(Chunks(words.words, SMALL_BUFFER), false);
    } else if words.U16BEIter? {
      WordWritesConcat(Chunks(words.words, LARGE_BUFFER), true);
    }
  }

  /** Empty iterator input issues no write at all. */
  lemma EmptyIterWritesNothing()
    ensures Chunks<u8>([], SMALL_BUFFER) == [] && Chunks<u16>([], LARGE_BUFFER) == []
  {
  }

  datatype BusOp = SetDc(high: bool) | SpiWrite(bytes: seq<u8>)

  function Writes(ws: seq<seq<u8>>): (ops: seq<BusOp>)
    ensures |ops| == |ws|
    ensures forall i :: 0 <= i < |ops| ==> ops[i] == SpiWrite(ws[i])
    decreases |ws|
  {
    if ws == [] then [] else [SpiWrite(ws[0])] + Writes(ws[1..])
  }

  /** `send_commands` (DC low) and `send_data` (DC high): when setting the
      pin fails the call returns `DCError`, writes nothing and leaves the
      data alone; otherwise the pin is set, then come exactly `send_u8`'s
      writes, and `send_u8`'s error is what the call returns. */
  method Send(data: bool, words: DataFormat, dcOk: bool, fail: Option<nat>)
    returns (r: Result<(seq<BusOp>, Option<DisplayError>)>, after: DataFormat)
    ensures !dcOk ==> r == Ok(([], Some(DCError))) && after == words
    ensures dcOk ==> (r.Panic? <==> words.Other?)
    ensures dcOk && !words.Other? ==>
      var (ws, e) := Outcome(words, fail);
      r == Ok(([SetDc(data)] + Writes(ws), e))
    ensures dcOk && !words.Other? ==>
      r.Ok? && |r.value.0| >= 1 && r.value.0[0] == SetDc(data)
      && forall i :: 1 <= i < |r.value.0| ==> r.value.0[i].SpiWrite?
    ensures dcOk && words.U16BE? ==> after == U16BE(ToBe(words.words))
    ensures !words.U16BE? ==> after == words
  {
    if !dcOk {
      return Ok(([], Some(DCError))), words;
    }
    var sent;
    sent, after := SendU8(words, fail);
    if sent.Panic? {
      return Panic(sent.reason), after;
    }
    r := Ok(([SetDc(data)] + Writes(sent.value.0), sent.value.1));
  }
}
