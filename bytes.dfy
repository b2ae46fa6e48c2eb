/** Fixed-width unsigned integers and the big-endian reads the decoder does
    with `struct.unpack('!H', ...)` and `struct.unpack('!I', ...)`. The
    encoders U16Bytes and U32Bytes are their inverses. */
module Bytes {

  type byte = x: int | 0 <= x < 0x100
  type uint16 = x: int | 0 <= x < 0x1_0000
  type uint32 = x: int | 0 <= x < 0x1_0000_0000

  /** `struct.unpack('!H', b)`: two bytes, most significant first. */
  function BE16(b: seq<byte>): (v: uint16)
    requires |b| == 2
  {
    b[0] as int * 0x100 + b[1] as int
  }

  /** `struct.unpack('!I', b)`: four bytes, most significant first, read as
      the high and the low big-endian half. */
  function BE32(b: seq<byte>): (v: uint32)
    requires |b| == 4
    ensures v == b[0] as int * 0x100_0000 + b[1] as int * 0x1_0000 + b[2] as int * 0x100 + b[3] as int
  {
    BE16(b[..2]) as int * 0x1_0000 + BE16(b[2..]) as int
  }

  /** The two big-endian bytes of a 16-bit value. */
  function U16Bytes(x: uint16): (b: seq<byte>)
    ensures |b| == 2
  {
    [x / 0x100, x % 0x100]
  }

  /** The four big-endian bytes of a 32-bit value. */
  function U32Bytes(x: uint32): (b: seq<byte>)
    ensures |b| == 4
  {
    U16Bytes(x / 0x1_0000) + U16Bytes(x % 0x1_0000)
  }

  /** Quotient and remainder are determined by any exact decomposition. */
  lemma DivModOf(v: int, q: int, r: int, d: int)
    requires 0 < d && 0 <= r < d && v == q * d + r
    ensures v / d == q && v % d == r
  {
    var q', r' := v / d, v % d;
    if q' > q {
      MulGrows(q' - q, d);
    } else if q' < q {
      MulGrows(q - q', d);
    }
  }

  lemma MulGrows(k: int, d: int)
    requires 1 <= k && 0 < d
    ensures k * d >= d
  {
    assert k * d == (k - 1) * d + d;
  }

  /** Reading back the encoding of a 16-bit value gives the value. */
  lemma BE16OfU16Bytes(x: uint16)
    ensures BE16(U16Bytes(x)) == x
  {
  }

  /** Every two-byte string is the encoding of the value it reads as. */
  lemma U16BytesOfBE16(b: seq<byte>)
    requires |b| == 2
    ensures U16Bytes(BE16(b)) == b
  {
    DivModOf(BE16(b), b[0], b[1], 0x100);
  }

  /** Reading back the encoding of a 32-bit value gives the value. */
  lemma BE32OfU32Bytes(x: uint32)
    ensures BE32(U32Bytes(x)) == x
  {
    var b := U32Bytes(x);
    assert b[..2] == U16Bytes(x / 0x1_0000) && b[2..] == U16Bytes(x % 0x1_0000);
    BE16OfU16Bytes(x / 0x1_0000);
    BE16OfU16Bytes(x % 0x1_0000);
  }

  /** Every four-byte string is the encoding of the value it reads as. */
  lemma U32BytesOfBE32(b: seq<byte>)
    requires |b| == 4
    ensures U32Bytes(BE32(b)) == b
  {
    var hi, lo := BE16(b[..2]), BE16(b[2..]);
    DivModOf(BE32(b), hi, lo, 0x1_0000);
    U16BytesOfBE16(b[..2]);
    U16BytesOfBE16(b[2..]);
    assert b == b[..2] + b[2..];
  }
}
