/**
 * Shared typedefs of the storage engine (rbf/types.h, rbf/rbfm.h): bytes,
 * the fixed-width integers the C++ code computes in, little-endian int
 * layout, attributes, record ids and comparison operators.
 */
module Types {

  /** An unsigned char. */
  type byte = x: int | 0 <= x < 256

  /** PAGE_SIZE of rbf/types.h. */
  const PAGE_SIZE: int := 4096

  const TWO_16: int := 0x1_0000
  const TWO_31: int := 0x8000_0000
  const TWO_32: int := 0x1_0000_0000
  const TWO_64: int := 0x1_0000_0000_0000_0000

  /** `unsigned short`, `unsigned`, `size_t` and `int` values. */
  type u16 = x: int | 0 <= x < TWO_16
  type u32 = x: int | 0 <= x < TWO_32
  type u64 = x: int | 0 <= x < TWO_64
  type i32 = x: int | -TWO_31 <= x < TWO_31

  /** Conversion of an integer to an unsigned type (arithmetic modulo 2^n). */
  function Wrap16(x: int): u16 { x % TWO_16 }
  function Wrap32(x: int): u32 { x % TWO_32 }
  function Wrap64(x: int): u64 { x % TWO_64 }

  /** Conversion of an `unsigned` to `int` (two's complement). */
  function ToI32(x: u32): i32 { if x < TWO_31 then x else x - TWO_32 }

  /** The four bytes of an `unsigned` as an x86 machine stores them (little-endian). */
  function U32Bytes(x: u32): (r: seq<byte>)
    ensures |r| == 4
  {
    var q1 := x / 256;
    var q2 := q1 / 256;
    [x % 256, q1 % 256, q2 % 256, q2 / 256]
  }

  /** The `unsigned` stored little-endian in the first four bytes of `b`. */
  function BytesU32(b: seq<byte>): u32
    requires |b| >= 4
  {
    (b[0] as int) + 256 * ((b[1] as int) + 256 * ((b[2] as int) + 256 * (b[3] as int)))
  }

  /** The four bytes of an `int` (two's complement, little-endian). */
  function I32Bytes(x: i32): (r: seq<byte>)
    ensures |r| == 4
  {
    U32Bytes(Wrap32(x))
  }

  /** `*(const int *) b`: the `int` stored in the first four bytes of `b`. */
  function BytesI32(b: seq<byte>): i32
    requires |b| >= 4
  {
    ToI32(BytesU32(b))
  }

  lemma U32RoundTrip(x: u32, rest: seq<byte>)
    ensures BytesU32(U32Bytes(x) + rest) == x
  {
    var q1 := x / 256;
    var q2 := q1 / 256;
    assert x == x % 256 + 256 * q1;
    assert q1 == q1 % 256 + 256 * q2;
    assert q2 == q2 % 256 + 256 * (q2 / 256);
  }

  lemma I32RoundTrip(x: i32, rest: seq<byte>)
    ensures BytesI32(I32Bytes(x) + rest) == x
  {
    U32RoundTrip(Wrap32(x), rest);
  }

  /** `memcpy(dst + off, src, |src|)`: copies `src` into `dst` from index `off` on. */
  method CopyBytes(dst: array<byte>, off: nat, src: seq<byte>)
    requires off + |src| <= dst.Length
    modifies dst
    ensures dst[..] == old(dst[..off]) + src + old(dst[off + |src|..])
  {
    ghost var d0 := dst[..];
    var i := 0;
    while i < |src|
      invariant 0 <= i <= |src|
      invariant forall k | 0 <= k < dst.Length :: dst[k] == if off <= k < off + i then src[k - off] else d0[k]
    {
      dst[off + i] := src[i];
      i := i + 1;
    }
    assert dst[..] == d0[..off] + src + d0[off + |src|..];
  }

  /** AttrType of rbf/types.h. */
  datatype AttrType = TypeInt | TypeReal | TypeVarChar

  /** Attribute of rbf/types.h: name, type and declared length. */
  datatype Attribute = Attribute(name: string, attrType: AttrType, length: u32)

  /** RID of rbf/types.h: an `unsigned` page number and an `unsigned short` slot. */
  datatype RID = RID(pageNum: u32, slotNum: u16)

  /** CompOp of rbf/types.h. */
  datatype CompOp = EQ_OP | LT_OP | LE_OP | GT_OP | GE_OP | NE_OP | NO_OP
}
