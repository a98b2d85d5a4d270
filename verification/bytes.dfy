/**
 * Fixed-width unsigned integers and their little-endian byte encoding, as
 * used by the fields of an ACPI table (every multi-byte field of the
 * VFCT table is little-endian).
 */
module Bytes {

  /** A byte of the table file (`UCHAR`). */
  type u8 = x: int | 0 <= x < 0x100
  /** `USHORT`. */
  type u16 = x: int | 0 <= x < 0x1_0000
  /** `ULONG`, a `uint32_t`. */
  type u32 = x: int | 0 <= x < 0x1_0000_0000

  const U32Modulus: int := 0x1_0000_0000

  function Min(a: nat, b: nat): nat {
    if a <= b then a else b
  }

  /** Concatenation regrouped, for byte strings whose own definitions are best left folded. */
  lemma {:induction false} Concat3<T>(a: seq<T>, b: seq<T>, c: seq<T>)
    ensures a + b + c == a + (b + c)
  {
  }

  /** Unsigned 32-bit addition as C performs it on a `uint32_t`. */
  function Wrap32(x: nat): (r: u32)
    ensures x < U32Modulus ==> r == x
  {
    x % U32Modulus
  }

  /** Value of two bytes read little-endian. */
  function LE16(b: seq<u8>): u16
    requires |b| == 2
  {
    b[0] as int + 0x100 * b[1] as int
  }

  /** Value of four bytes read little-endian. */
  function LE32(b: seq<u8>): u32
    requires |b| == 4
  {
    LE16(b[..2]) + 0x1_0000 * LE16(b[2..])
  }

  /** The two bytes of `x`, low byte first. */
  function EncodeU16(x: u16): (b: seq<u8>)
    ensures |b| == 2
  {
    [x % 0x100, x / 0x100]
  }

  /** The four bytes of `x`, low byte first. */
  function EncodeU32(x: u32): (b: seq<u8>)
    ensures |b| == 4
  {
    EncodeU16(x % 0x1_0000) + EncodeU16(x / 0x1_0000)
  }

  lemma {:induction false} LE16RoundTrip(x: u16)
    ensures LE16(EncodeU16(x)) == x
  {
  }

  lemma {:induction false} LE32RoundTrip(x: u32)
    ensures LE32(EncodeU32(x)) == x
  {
    var b := EncodeU32(x);
    assert b[..2] == EncodeU16(x % 0x1_0000);
    assert b[2..] == EncodeU16(x / 0x1_0000);
  }

  /** Two bytes are determined by their little-endian value. */
  lemma {:induction false} EncodeLE16RoundTrip(b: seq<u8>)
    requires |b| == 2
    ensures EncodeU16(LE16(b)) == b
  {
  }

  /** Four bytes are determined by their little-endian value. */
  lemma {:induction false} EncodeLE32RoundTrip(b: seq<u8>)
    requires |b| == 4
    ensures EncodeU32(LE32(b)) == b
  {
    var lo, hi := LE16(b[..2]), LE16(b[2..]);
    assert LE32(b) % 0x1_0000 == lo && LE32(b) / 0x1_0000 == hi;
    EncodeLE16RoundTrip(b[..2]);
    EncodeLE16RoundTrip(b[2..]);
    assert b == b[..2] + b[2..];
  }
}
