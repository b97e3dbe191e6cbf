/** Machine integers, status codes and byte-order accessors (src/uefi_min.c, include/uefi_min.h).
    C unsigned integers are subset types: storing a value in one is a proof that it did not
    wrap, and every place where the C code does wrap carries an explicit `Wrap32` or `Wrap64`. */
module Bytes {
  const TWO_16: nat := 0x1_0000
  const TWO_32: nat := 0x1_0000_0000
  const TWO_64: nat := 0x1_0000_0000_0000_0000
  /** Largest modelled file or header buffer: cursor arithmetic over anything shorter stays below 2^64. */
  const MAX_FILE: nat := 0x4000_0000_0000_0000

  type byte = x: nat | x < 0x100
  type u16 = x: nat | x < 0x1_0000
  type u32 = x: nat | x < 0x1_0000_0000
  type u64 = x: nat | x < 0x1_0000_0000_0000_0000
  type Contents = s: seq<byte> | |s| < 0x4000_0000_0000_0000

  // EFI_STATUS values
  const SUCCESS: u64 := 0
  const ERROR_BIT: u64 := 0x8000_0000_0000_0000
  const INVALID_PARAMETER: u64 := 0x8000_0000_0000_0002
  const UNSUPPORTED: u64 := 0x8000_0000_0000_0003
  const BAD_BUFFER_SIZE: u64 := 0x8000_0000_0000_0004
  const DEVICE_ERROR: u64 := 0x8000_0000_0000_0007
  const WRITE_PROTECTED: u64 := 0x8000_0000_0000_0008
  const VOLUME_CORRUPTED: u64 := 0x8000_0000_0000_000A
  const NO_MEDIA: u64 := 0x8000_0000_0000_000C
  const END_OF_FILE: u64 := 0x8000_0000_0000_001F

  // Largest data part of one secure-flash packet (include/ufp_proto.h)
  const MAX_HEADER_DATA: nat := 0x1F_FBDC
  const MAX_PAYLOAD_DATA: nat := 0x1F_FC18

  predicate IsError(st: u64) {
    st >= ERROR_BIT
  }

  datatype Option<+T> = None | Some(value: T)

  datatype Result<+T> = Ok(value: T) | Err(status: u64) {
    predicate IsFailure() {
      Err?
    }

    function PropagateFailure<U>(): Result<U>
      requires Err?
    {
      Err(status)
    }

    function Extract(): T
      requires Ok?
    {
      value
    }
  }

  /** The value a C unsigned type keeps. */
  function Wrap32(x: int): u32 {
    x % 0x1_0000_0000
  }

  function Wrap64(x: int): u64 {
    x % 0x1_0000_0000_0000_0000
  }

  lemma WrapAdd(x: int, y: int)
    ensures Wrap64(Wrap64(x) as int + y) == Wrap64(x + y)
    ensures Wrap64(x + Wrap64(y) as int) == Wrap64(x + y)
  {
  }

  function Min(a: nat, b: nat): nat {
    if a < b then a else b
  }

  function RdLe16(d: seq<byte>, o: nat): u16
    requires o + 2 <= |d|
  {
    (d[o] as int) + 0x100 * (d[o + 1] as int)
  }

  function RdLe32(d: seq<byte>, o: nat): u32
    requires o + 4 <= |d|
  {
    (d[o] as int) + 0x100 * (d[o + 1] as int) + 0x1_0000 * (d[o + 2] as int) + 0x100_0000 * (d[o + 3] as int)
  }

  function RdLe64(d: seq<byte>, o: nat): u64
    requires o + 8 <= |d|
  {
    (RdLe32(d, o) as int) + 0x1_0000_0000 * (RdLe32(d, o + 4) as int)
  }

  function RdBe16(d: seq<byte>, o: nat): u16
    requires o + 2 <= |d|
  {
    0x100 * (d[o] as int) + (d[o + 1] as int)
  }

  function RdBe32(d: seq<byte>, o: nat): u32
    requires o + 4 <= |d|
  {
    0x100_0000 * (d[o] as int) + 0x1_0000 * (d[o + 1] as int) + 0x100 * (d[o + 2] as int) + (d[o + 3] as int)
  }

  /** The two byte orders are each other's mirror image. */
  lemma ByteOrders(d: seq<byte>, o: nat)
    ensures o + 2 <= |d| ==> RdLe16(d, o) == RdBe16([d[o + 1], d[o]], 0)
    ensures o + 4 <= |d| ==> RdLe32(d, o) == RdBe32([d[o + 3], d[o + 2], d[o + 1], d[o]], 0)
    ensures o + 8 <= |d| ==> RdLe64(d, o) == RdLe32(d, o) + 0x1_0000_0000 * (RdLe32(d, o + 4) as int)
  {
  }

  function Be16(v: u16): (r: seq<byte>)
    ensures |r| == 2 && RdBe16(r, 0) == v && r[0] == v / 0x100
  {
    [v / 0x100, v % 0x100]
  }

  function Be32(v: u32): (r: seq<byte>)
    ensures |r| == 4 && RdBe32(r, 0) == v && r[0] == v / 0x100_0000
  {
    var v1 := v / 0x100;
    var v2 := v1 / 0x100;
    [v2 / 0x100, v2 % 0x100, v1 % 0x100, v % 0x100]
  }

  predicate Multiple(x: int, m: nat) {
    m > 0 && x % m == 0
  }

  lemma MultipleAdd(x: int, y: int, m: nat)
    requires Multiple(x, m) && Multiple(y, m)
    ensures Multiple(x + y, m)
  {
    AddMultiple(x, y / m, m);
  }

  lemma MultipleOf(k: int, m: nat)
    requires m > 0
    ensures Multiple(m * k, m)
  {
    AddMultiple(0, k, m);
  }

  lemma RoundUp(v: nat, m: nat)
    requires m > 0
    ensures Multiple(v + m - v % m, m)
  {
    var q := v / m;
    assert v == q * m + v % m;
    assert v + m - v % m == (q + 1) * m + 0;
    DivModUnique(v + m - v % m, m, q + 1, 0);
  }

  /** align_up_u64, including its wrap-around when the rounded value does not fit. */
  function AlignUp(value: u64, alignment: u64): (r: u64)
    ensures alignment > 0 && value + alignment <= TWO_64 ==>
              value <= r < value + alignment && Multiple(r, alignment)
  {
    if alignment == 0 then value
    else
      var rem := value % alignment;
      if rem != 0 then
        RoundUp(value, alignment);
        Wrap64(value + alignment - rem)
      else value
  }

  /** Quotient and remainder are determined by the division equation. */
  lemma DivModUnique(x: int, m: int, q: int, r: int)
    requires m > 0 && x == q * m + r && 0 <= r < m
    ensures x / m == q && x % m == r
  {
    var q', r' := x / m, x % m;
    assert (q - q') * m == r' - r;
    MulNear(q - q', m, r' - r);
  }

  lemma AddMultiple(x: int, k: int, m: nat)
    requires m > 0
    ensures (x + m * k) % m == x % m
  {
    DivModUnique(x + m * k, m, x / m + k, x % m);
  }

  lemma MulNear(k: int, m: int, d: int)
    requires k * m == d && -m < d < m
    ensures k == 0
  {
  }

  /** The rounded value is the least multiple at or above v. */
  lemma AlignUpLeast(v: u64, m: u64, t: nat)
    requires v + m <= TWO_64 && v <= t && Multiple(t, m)
    ensures AlignUp(v, m) <= t
  {
    var a := AlignUp(v, m);
    if t < a {
      MulNear(a / m - t / m, m, a - t);
    }
  }

  /** Freshly allocated or cleared memory. */
  function Zeros(n: nat): (r: seq<byte>)
    ensures |r| == n && forall i :: 0 <= i < n ==> r[i] == 0
  {
    seq(n, i => 0)
  }

  function Concat(chunks: seq<seq<byte>>): seq<byte> {
    if chunks == [] then [] else chunks[0] + Concat(chunks[1..])
  }

  lemma {:induction false} ConcatSnoc(chunks: seq<seq<byte>>, c: seq<byte>)
    ensures Concat(chunks + [c]) == Concat(chunks) + c
  {
    if chunks == [] {
      assert chunks + [c] == [c];
      assert Concat([c]) == c + Concat([]);
    } else {
      assert (chunks + [c])[1..] == chunks[1..] + [c];
      ConcatSnoc(chunks[1..], c);
    }
  }
}
