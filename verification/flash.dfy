/** The key-value database's flash backend (firmware/src/flash/mod.rs):
    `DbFlash` turns the database's (page, offset) addressing into absolute
    flash addresses, and `init` mounts the database or formats it.

    The NOR flash itself is a map from address to byte; an address never
    written, or erased, reads 0xFF. Whether the device reports an error is a
    parameter of each operation. Page size and page count come from the
    database's build configuration, which is not part of this model, so they
    are fields of `DbFlash`. Addresses are computed in `usize` (32 bits on
    this target) and cast to `u32`, so they wrap round. */
module Flash {

  import opened Util

  datatype DbFlash = DbFlash(start: nat, pageSize: nat, maxPageCount: nat)

  /** The region fits the 32-bit address space, so no address wraps. */
  predicate Fits(f: DbFlash)
  {
    f.start + f.maxPageCount * f.pageSize < U32_LIMIT
  }

  type Memory = map<nat, u8>

  const ERASED: u8 := 0xFF

  function Cell(m: Memory, a: nat): u8
  {
    if a in m then m[a] else ERASED
  }

  /** A device-level outcome: the operation's value, or the device's error. */
  datatype Io<T> = Done(value: T) | DeviceError

  /** `page_count`: always the configured maximum, whatever the device. */
  function PageCount(f: DbFlash): (n: nat)
    ensures n == f.maxPageCount
  {
    f.maxPageCount
  }

  /** The absolute address of `offset` within page `page`. */
  function Address(f: DbFlash, page: nat, offset: nat): (a: u32)
    ensures f.start + page * f.pageSize + offset < U32_LIMIT ==> a == f.start + page * f.pageSize + offset
  {
    WrapU32(f.start + page * f.pageSize + offset)
  }

  /** The half-open address range `erase` passes to the device. */
  function EraseRange(f: DbFlash, page: nat): (r: (u32, u32))
    ensures f.start + page * f.pageSize + f.pageSize < U32_LIMIT ==>
      r.0 == f.start + page * f.pageSize && r.1 == r.0 + f.pageSize
  {
    (WrapU32(f.start + page * f.pageSize), WrapU32(f.start + page * f.pageSize + f.pageSize))
  }

  function NorErase(m: Memory, from: nat, to: nat): (m': Memory)
    ensures forall a: nat :: from <= a < to ==> Cell(m', a) == ERASED
    ensures forall a: nat :: !(from <= a < to) ==> Cell(m', a) == Cell(m, a)
  {
    map a | a in m && !(from <= a < to) :: m[a]
  }

  function NorRead(m: Memory, addr: nat, len: nat): (data: seq<u8>)
    ensures |data| == len
    ensures forall i :: 0 <= i < len ==> data[i] == Cell(m, addr + i)
  {
    seq<u8>(len, i requires 0 <= i < len => Cell(m, addr + i))
  }

  /** A write as the driver sees it: the cells take the bytes written.
      Real NOR programming can only clear bits, so a write ANDs the data
      into the old contents and needs an erase first to set bits again;
      this model overwrites, which is why reading back after a write gives
      the data without an erase in between. */
  function NorWrite(m: Memory, addr: nat, data: seq<u8>): (m': Memory)
    ensures forall i :: 0 <= i < |data| ==> Cell(m', addr + i) == data[i]
    ensures forall a: nat :: !(addr <= a < addr + |data|) ==> Cell(m', a) == Cell(m, a)
    decreases |data|
  {
    if data == [] then m
    else
      var rest := NorWrite(m[addr := data[0]], addr + 1, data[1..]);
      assert forall i :: 1 <= i < |data| ==> data[i] == data[1..][i - 1];
      rest
  }

  /** `erase(page)`: the device erases the page's address range. */
  function Erase(f: DbFlash, m: Memory, page: nat, deviceOk: bool): (r: Io<Memory>)
    ensures !deviceOk <==> r.DeviceError?
    ensures r.Done? && f.start + page * f.pageSize + f.pageSize < U32_LIMIT ==>
      var base := f.start + page * f.pageSize;
      (forall a: nat :: base <= a < base + f.pageSize ==> Cell(r.value, a) == ERASED)
      && (forall a: nat :: !(base <= a < base + f.pageSize) ==> Cell(r.value, a) == Cell(m, a))
  {
    if !deviceOk then DeviceError
    else
      var range := EraseRange(f, page);
      Done(NorErase(m, range.0, range.1))
  }

  /** `read(page, offset, data)`: a page-sized staging buffer is sliced to
      the length asked for, which panics when it exceeds the page size;
      otherwise the device fills the bytes at the page's address. */
  function Read(f: DbFlash, m: Memory, page: nat, offset: nat, len: nat, deviceOk: bool): (r: Result<Io<seq<u8>>>)
    ensures r.Panic? <==> len > f.pageSize
    ensures r.Ok? ==> (r.value.DeviceError? <==> !deviceOk)
    ensures r.Ok? && r.value.Done? ==>
      |r.value.value| == len
      && forall i :: 0 <= i < len ==> r.value.value[i] == Cell(m, Address(f, page, offset) + i)
  {
    if len > f.pageSize then Panic("slice end index out of range")
    else if !deviceOk then Ok(DeviceError)
    else Ok(Done(NorRead(m, Address(f, page, offset), len)))
  }

  /** `write(page, offset, data)`: the data is staged in a page-sized
      buffer (panicking when it is longer than a page) and that many bytes
      are programmed at the page's address. */
  function Write(f: DbFlash, m: Memory, page: nat, offset: nat, data: seq<u8>, deviceOk: bool): (r: Result<Io<Memory>>)
    ensures r.Panic? <==> |data| > f.pageSize
    ensures r.Ok? ==> (r.value.DeviceError? <==> !deviceOk)
    ensures r.Ok? && r.value.Done? ==>
      var a := Address(f, page, offset);
      (forall i :: 0 <= i < |data| ==> Cell(r.value.value, a + i) == data[i])
      && (forall b: nat :: !(a <= b < a + |data|) ==> Cell(r.value.value, b) == Cell(m, b))
  {
    if |data| > f.pageSize then Panic("range end index out of range")
    else if !deviceOk then Ok(DeviceError)
    else Ok(Done(NorWrite(m, Address(f, page, offset), data)))
  }

  /** Reading back what was just written returns it. */
  lemma ReadAfterWrite(f: DbFlash, m: Memory, page: nat, offset: nat, data: seq<u8>)
    requires |data| <= f.pageSize
    ensures Write(f, m, page, offset, data, true).Ok?
    ensures Read(f, Write(f, m, page, offset, data, true).value.value, page, offset, |data|, true)
            == Ok(Done(data))
  {
    var m' := Write(f, m, page, offset, data, true).value.value;
    var back := Read(f, m', page, offset, |data|, true).value.value;
    assert back == data;
  }

  /** The pages tile the region: every address of the region lies in the
      erase range of exactly one page below the page count. */
  lemma PagesTileRegion(f: DbFlash, a: nat)
    requires Fits(f) && f.pageSize > 0
    requires f.start <= a < f.start + PageCount(f) * f.pageSize
    ensures var p := (a - f.start) / f.pageSize;
      p < PageCount(f)
      && EraseRange(f, p).0 <= a < EraseRange(f, p).1
      && forall q :: 0 <= q < PageCount(f) && EraseRange(f, q).0 <= a < EraseRange(f, q).1 ==> q == p
  {
    var ps := f.pageSize;
    var d := a - f.start;
    PageOfOffset(d, ps, f.maxPageCount);
    var p := d / ps;
    PageEndFits(f, p);
    forall q | 0 <= q < PageCount(f) && EraseRange(f, q).0 <= a < EraseRange(f, q).1
      ensures q == p
    {
      PageEndFits(f, q);
    }
  }

  /** A page below the count ends inside the 32-bit address space. */
  lemma PageEndFits(f: DbFlash, p: nat)
    requires Fits(f) && p < f.maxPageCount
    ensures f.start + p * f.pageSize + f.pageSize < U32_LIMIT
  {
    MulLeq(p + 1, f.maxPageCount, f.pageSize);
  }

  /** Offset `d` of a region of `n` pages of `ps` bytes lies in page
      `d / ps`, and in no other. */
  lemma PageOfOffset(d: nat, ps: nat, n: nat)
    requires ps > 0 && d < n * ps
    ensures d / ps < n
    ensures (d / ps) * ps <= d < (d / ps) * ps + ps
    ensures forall q: nat :: q * ps <= d < q * ps + ps ==> q == d / ps
  {
    var p := d / ps;
    if p >= n {
      MulLeq(n, p, ps);
    }
    forall q: nat | q * ps <= d < q * ps + ps
      ensures q == p
    {
      DivUnique(d, ps, q, d - q * ps);
    }
  }

  /** Distinct pages of the region have disjoint erase ranges. */
  lemma ErasePagesDisjoint(f: DbFlash, p: nat, q: nat)
    requires Fits(f)
    requires p < f.maxPageCount && q < f.maxPageCount && p != q
    ensures EraseRange(f, p).1 <= EraseRange(f, q).0 || EraseRange(f, q).1 <= EraseRange(f, p).0
  {
    PageEndFits(f, p);
    PageEndFits(f, q);
    if p < q {
      MulLeq(p + 1, q, f.pageSize);
      MulSucc(p, f.pageSize);
    } else {
      MulLeq(q + 1, p, f.pageSize);
      MulSucc(q, f.pageSize);
    }
  }


  /** Erasing a page and reading it back gives erased bytes. */
  lemma EraseThenRead(f: DbFlash, m: Memory, page: nat, offset: nat, len: nat)
    requires offset + len <= f.pageSize
    requires f.start + page * f.pageSize + f.pageSize < U32_LIMIT
    ensures Erase(f, m, page, true).Done?
    ensures var r := Read(f, Erase(f, m, page, true).value, page, offset, len, true);
      r.Ok? && r.value.Done? && forall i :: 0 <= i < len ==> r.value.value[i] == ERASED
  {
    assert Address(f, page, offset) == f.start + page * f.pageSize + offset;
  }

  /** What `init` does to the database cell `DB`. */
  datatype InitStep = Mount | Format

  /** `init`: mount; only when mounting fails, format; when formatting fails
      too, return with `DB` unset. Setting an already set `DB` panics (the
      `unwrap`). Returns the steps taken and whether `DB` is now set. */
  function Init(alreadySet: bool, mountOk: bool, formatOk: bool): (r: Result<(seq<InitStep>, bool)>)
    ensures r.Ok? ==> r.value.0 == (if mountOk then [Mount] else [Mount, Format])
    ensures r.Ok? ==> (r.value.1 <==> mountOk || formatOk)
    ensures r.Panic? <==> alreadySet && (mountOk || formatOk)
  {
    var steps := if mountOk then [Mount] else [Mount, Format];
    if !mountOk && !formatOk then Ok((steps, false))
    else if alreadySet then Panic("called `Option::unwrap()` on a `None` value")
    else Ok((steps, true))
  }
}
