/** Shared vocabulary for the firmware model: optional and fallible results,
    fixed-width integer behaviour (wrap-around, truncation, saturation) and
    the integer square root several components rely on. */
module Util {

  datatype Option<+T> = None | Some(value: T)

  /** The source's panics (an `unwrap` on `Err`, an out-of-bounds slice, a
      full container whose overflow is not tolerated) become `Panic`. */
  datatype Result<+T> = Ok(value: T) | Panic(reason: string)

  const U8_LIMIT: int := 0x100
  const U16_LIMIT: int := 0x1_0000
  const U32_LIMIT: int := 0x1_0000_0000

  type u8 = x: int | 0 <= x < U8_LIMIT
  type u16 = x: int | 0 <= x < U16_LIMIT
  type u32 = x: int | 0 <= x < U32_LIMIT

  const I8_MIN: int := -0x80
  const I8_MAX: int := 0x7F
  type i8 = x: int | I8_MIN <= x <= I8_MAX

  const I16_MIN: int := -0x8000
  const I16_MAX: int := 0x7FFF
  type i16 = x: int | I16_MIN <= x <= I16_MAX

  const I32_MIN: int := -0x8000_0000
  const I32_MAX: int := 0x7FFF_FFFF

  /** Unsigned wrap-around (Rust `wrapping_*` arithmetic, or `as uN`). */
  function WrapU8(x: int): (r: u8)
    ensures 0 <= x < U8_LIMIT ==> r == x
  {
    x % U8_LIMIT
  }

  function WrapU16(x: int): (r: u16)
    ensures 0 <= x < U16_LIMIT ==> r == x
  {
    x % U16_LIMIT
  }

  function WrapU32(x: int): (r: u32)
    ensures 0 <= x < U32_LIMIT ==> r == x
  {
    x % U32_LIMIT
  }

  /** Two's-complement wrap-around of a 32-bit signed value. */
  function WrapI32(x: int): (r: int)
    ensures I32_MIN <= r <= I32_MAX
    ensures I32_MIN <= x <= I32_MAX ==> r == x
  {
    var u := x % U32_LIMIT;
    if u <= I32_MAX then u else u - U32_LIMIT
  }

  function Abs(x: int): (r: nat)
    ensures r == x || r == -x
  {
    if x < 0 then -x else x
  }

  /** Rust's `/` on signed integers: the quotient is truncated toward zero
      (Dafny's own `/` is Euclidean). */
  function TDiv(a: int, b: int): (q: int)
    requires b != 0
    ensures a >= 0 && b > 0 ==> q == a / b
    ensures a < 0 && b > 0 ==> q == -((-a) / b)
  {
    if (a >= 0) == (b > 0) then Abs(a) / Abs(b) else -(Abs(a) / Abs(b))
  }

  function Min(a: int, b: int): (r: int)
    ensures r <= a && r <= b && (r == a || r == b)
  {
    if a <= b then a else b
  }

  function Clamp(v: int, lo: int, hi: int): (r: int)
    requires lo <= hi
    ensures lo <= r <= hi
    ensures lo <= v <= hi ==> r == v
    ensures v < lo ==> r == lo
    ensures v > hi ==> r == hi
  {
    if v < lo then lo else if v > hi then hi else v
  }

  /** Floor square root, the `Roots::sqrt` of the `num` crate. */
  function FloorSqrt(n: nat): (r: nat)
    ensures r * r <= n < (r + 1) * (r + 1)
    decreases n
  {
    if n < 2 then n
    else
      var h := FloorSqrt(n / 4);
      SqrtStep(n, h);
      if (2 * h + 1) * (2 * h + 1) <= n then 2 * h + 1 else 2 * h
  }

  /** The digit-by-digit step: if h is the floor root of n / 4 then the
      floor root of n is 2h or 2h + 1. */
  lemma SqrtStep(n: nat, h: nat)
    requires h * h <= n / 4 < (h + 1) * (h + 1)
    ensures (2 * h) * (2 * h) <= n < (2 * h + 2) * (2 * h + 2)
  {
    var q := n / 4;
    assert n == 4 * q + n % 4;
    assert (2 * h) * (2 * h) == 4 * (h * h);
    assert (2 * h + 2) * (2 * h + 2) == 4 * ((h + 1) * (h + 1));
    assert q + 1 <= (h + 1) * (h + 1);
  }

  lemma FloorSqrtUnique(n: nat, r: nat)
    requires r * r <= n < (r + 1) * (r + 1)
    ensures r == FloorSqrt(n)
  {
    var s := FloorSqrt(n);
    if r < s {
      MulMono(r + 1, s);
      assert false;
    } else if s < r {
      MulMono(s + 1, r);
      assert false;
    }
  }

  lemma MulMono(a: nat, b: nat)
    requires a <= b
    ensures a * a <= b * b
  {
    assert a * a <= a * b <= b * b;
  }

  lemma MulLeq(a: nat, b: nat, c: nat)
    requires a <= b
    ensures a * c <= b * c
  {
  }

  lemma MulAtLeast(a: int, d: int)
    requires a >= 1 && d > 0
    ensures a * d >= d
  {
  }

  /** Quotient and remainder are determined by any decomposition
      x = q * d + m with 0 <= m < d. */
  lemma DivUnique(x: int, d: int, q: int, m: int)
    requires d > 0 && 0 <= m < d && x == q * d + m
    ensures x / d == q && x % d == m
  {
    var q0, m0 := x / d, x % d;
    assert x == q0 * d + m0;
    if q0 < q {
      MulAtLeast(q - q0, d);
      assert false;
    } else if q < q0 {
      MulAtLeast(q0 - q, d);
      assert false;
    }
  }

  /** Division by a positive divisor is monotone. */
  lemma DivMono(a: int, b: int, d: int)
    requires a <= b && d > 0
    ensures a / d <= b / d
  {
    var qa, qb := a / d, b / d;
    assert a == qa * d + a % d && b == qb * d + b % d;
    if qb < qa {
      MulAtLeast(qa - qb, d);
      assert false;
    }
  }

  /** `a - (a / d) * d`, the source's way of writing the remainder. */
  function Remainder(a: nat, d: nat): (r: nat)
    requires d > 0
    ensures r == a % d && r < d
  {
    a - (a / d) * d
  }

  lemma DivAddMultiple(a: nat, k: nat, d: nat)
    requires d > 0
    ensures (k * d + a) / d == k + a / d
  {
    var q, m := a / d, a % d;
    assert a == q * d + m;
    assert k * d + a == (k + q) * d + m;
    DivUnique(k * d + a, d, k + q, m);
  }

  /** Keeps the elements satisfying `p`, in order. */
  function Filter<T>(s: seq<T>, p: T -> bool): (r: seq<T>)
    ensures |r| <= |s|
    ensures forall x :: x in r ==> x in s && p(x)
    ensures forall x :: x in s && p(x) ==> x in r
  {
    if s == [] then []
    else if p(s[0]) then [s[0]] + Filter(s[1..], p)
    else Filter(s[1..], p)
  }

  /** `n` copies of `x`. */
  function Repeat<T>(x: T, n: nat): (r: seq<T>)
    ensures |r| == n && forall i :: 0 <= i < n ==> r[i] == x
  {
    seq(n, _ => x)
  }

  function Count<T(==)>(s: seq<T>, x: T): (n: nat)
    ensures n <= |s|
  {
    if s == [] then 0 else (if s[0] == x then 1 else 0) + Count(s[1..], x)
  }

  lemma {:induction false} CountAppend<T>(a: seq<T>, b: seq<T>, x: T)
    ensures Count(a + b, x) == Count(a, x) + Count(b, x)
    decreases |a|
  {
    if a == [] {
      assert a + b == b;
    } else {
      assert (a + b)[1..] == a[1..] + b;
      CountAppend(a[1..], b, x);
    }
  }

  /** 2^n. */
  function Pow2(n: nat): (p: nat)
    ensures p >= 1
  {
    if n == 0 then 1 else 2 * Pow2(n - 1)
  }

  function Concat<T>(ss: seq<seq<T>>): (s: seq<T>)
    decreases |ss|
  {
    if ss == [] then [] else ss[0] + Concat(ss[1..])
  }

  lemma {:induction false} ConcatAppend<T>(a: seq<seq<T>>, b: seq<seq<T>>)
    ensures Concat(a + b) == Concat(a) + Concat(b)
    decreases |a|
  {
    if a == [] {
      assert a + b == b;
    } else {
      assert (a + b)[1..] == a[1..] + b;
      ConcatAppend(a[1..], b);
    }
  }

  /** `slice.chunks(n)`: consecutive pieces of length `n`, the last one
      possibly shorter, none empty. */
  function Chunks<T>(s: seq<T>, n: nat): (cs: seq<seq<T>>)
    requires n > 0
    ensures Concat(cs) == s
    ensures forall i :: 0 <= i < |cs| ==> 0 < |cs[i]| <= n
    ensures forall i :: 0 <= i < |cs| - 1 ==> |cs[i]| == n
    decreases |s|
  {
    if s == [] then []
    else if |s| <= n then
      assert Concat([s]) == s + Concat([s][1..]);
      [s]
    else
      var rest := Chunks(s[n..], n);
      var cs := [s[..n]] + rest;
      assert s == s[..n] + s[n..];
      assert cs[1..] == rest;
      assert Concat(cs) == s[..n] + Concat(rest);
      cs
  }

  /** There are |s| / n chunks, rounded up. */
  lemma {:induction false} ChunksCount<T>(s: seq<T>, n: nat)
    requires n > 0
    ensures |Chunks(s, n)| == (|s| + n - 1) / n
    decreases |s|
  {
    if s == [] {
    } else if |s| <= n {
      DivUnique(|s| + n - 1, n, 1, |s| - 1);
    } else {
      ChunksCount(s[n..], n);
      assert |Chunks(s, n)| == 1 + |Chunks(s[n..], n)|;
      assert |s[n..]| + n - 1 == |s| - 1;
      DivAddMultiple(|s| - 1, 1, n);
    }
  }

  /** The first k chunks are the first k * n elements. */
  lemma {:induction false} ChunksPrefix<T>(s: seq<T>, n: nat, k: nat)
    requires n > 0 && k <= |Chunks(s, n)|
    ensures Concat(Chunks(s, n)[..k]) == s[..Min(k * n, |s|)]
    decreases |s|
  {
    var cs := Chunks(s, n);
    if k == 0 {
      assert cs[..0] == [];
    } else if |s| <= n {
      assert cs[..k] == cs;
      MulAtLeast(k, n);
    } else {
      assert |cs| == 1 + |Chunks(s[n..], n)|;
      ChunksPrefix(s[n..], n, k - 1);
      MulLeq(0, k - 1, n);
      ChunksUnfold(s, n);
      PrefixCons(s[..n], Chunks(s[n..], n), s[n..], k - 1, (k - 1) * n);
      assert s[..n] + s[n..] == s;
      MulSucc(k - 1, n);
    }
  }

  /** The recursive step of `ChunksPrefix`: a piece in front of pieces
      whose first j cover m elements of t. */
  lemma PrefixCons<T>(h: seq<T>, rest: seq<seq<T>>, t: seq<T>, j: nat, m: nat)
    requires j <= |rest| && Concat(rest[..j]) == t[..Min(m, |t|)]
    ensures Concat(([h] + rest)[..j + 1]) == (h + t)[..Min(|h| + m, |h| + |t|)]
  {
    calc {
      Concat(([h] + rest)[..j + 1]);
    == { assert ([h] + rest)[..j + 1] == [h] + rest[..j]; }
      Concat([h] + rest[..j]);
    == { ConcatCons(h, rest[..j]); }
      h + t[..Min(m, |t|)];
    == { assert (h + t)[..|h|] == h; }
      (h + t)[..Min(|h| + m, |h| + |t|)];
    }
  }

  /** A sequence longer than a chunk starts with a full one. */
  lemma ChunksUnfold<T>(s: seq<T>, n: nat)
    requires 0 < n < |s|
    ensures Chunks(s, n) == [s[..n]] + Chunks(s[n..], n)
  {
  }

  lemma MulSucc(a: nat, b: nat)
    ensures (a + 1) * b == a * b + b
  {
  }

  lemma ConcatCons<T>(head: seq<T>, tail: seq<seq<T>>)
    ensures Concat([head] + tail) == head + Concat(tail)
  {
    assert ([head] + tail)[1..] == tail;
  }

  /** Every piece holds exactly `n` elements. */
  predicate Full<T>(cs: seq<seq<T>>, n: nat)
  {
    forall i :: 0 <= i < |cs| ==> |cs[i]| == n
  }

  /** Full pieces in front of a sequence are its first chunks. */
  lemma {:induction false} ChunksAfterFull<T>(cs: seq<seq<T>>, t: seq<T>, n: nat)
    requires n > 0 && Full(cs, n)
    ensures Chunks(Concat(cs) + t, n) == cs + Chunks(t, n)
    decreases |cs|
  {
    if cs == [] {
      assert Concat(cs) + t == t;
    } else {
      var head, tail := cs[0], cs[1..];
      assert Full(tail, n) by {
        forall i | 0 <= i < |tail| ensures |tail[i]| == n {
          assert tail[i] == cs[i + 1];
        }
      }
      ChunksAfterFull(tail, t, n);
      var x := Concat(tail) + t;
      assert Concat(cs) == head + Concat(tail);
      Assoc(head, Concat(tail), t);
      ChunksCons(head, x, n);
      assert cs == [head] + tail;
      Assoc([head], tail, Chunks(t, n));
    }
  }

  lemma Assoc<T>(a: seq<T>, b: seq<T>, c: seq<T>)
    ensures (a + b) + c == a + (b + c)
  {
  }

  /** A full chunk in front of a sequence is its first chunk. */
  lemma ChunksCons<T>(head: seq<T>, x: seq<T>, n: nat)
    requires n > 0 && |head| == n
    ensures Chunks(head + x, n) == [head] + Chunks(x, n)
  {
    var s := head + x;
    if x == [] {
      assert s == head;
    } else {
      assert s[..n] == head && s[n..] == x;
    }
  }

  /** A piece of at most `n` elements is a single chunk, none if empty. */
  lemma ChunksOfShort<T>(b: seq<T>, n: nat)
    requires 0 < n && |b| <= n
    ensures Chunks(b, n) == (if b == [] then [] else [b])
  {
  }
}
