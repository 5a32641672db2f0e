/** Fixed-width machine words used by the n-gram distance engine: bytes,
  * the UInt16 counters of the n-gram table (read back as Int16), the
  * little-endian packing of bytes into wider words, and the two byte-level
  * case foldings. */
module Words {

  type byte = x: int | 0 <= x < 0x100
  type u16 = x: int | 0 <= x < 0x1_0000

  const U16Modulus: int := 0x1_0000
  const U32Modulus: int := 0x1_0000_0000

  /** `++counter` on a UInt16: wraps from 0xFFFF to 0. */
  function Inc16(x: u16): u16
  {
    if x == 0xFFFF then 0 else x + 1
  }

  /** `--counter` on a UInt16: wraps from 0 to 0xFFFF. */
  function Dec16(x: u16): u16
  {
    if x == 0 then 0xFFFF else x - 1
  }

  /** The wrapping increment and decrement are addition and subtraction of
    * one modulo 2^16. */
  lemma WrapModulo(x: u16)
    ensures Inc16(x) == (x + 1) % U16Modulus
    ensures Dec16(x) == (x - 1) % U16Modulus
  {
  }

  /** `static_cast<Int16>` of a UInt16: the two's-complement reading, the
    * one value in [-2^15, 2^15) congruent to `x` modulo 2^16. */
  function Signed16(x: u16): (r: int)
    ensures -0x8000 <= r < 0x8000
    ensures r == x || r == x - U16Modulus
  {
    if x < 0x8000 then x else x - U16Modulus
  }

  /** Clearing bit 5 (value 32) of a byte: the approximate case fold of UTF-8 mode. */
  function ClearBit5(b: byte): byte
  {
    if (b / 32) % 2 == 1 then b - 32 else b
  }

  /** Clearing bit 5 leaves it clear and keeps every other bit. */
  lemma ClearBit5Bits(b: byte)
    ensures (ClearBit5(b) / 32) % 2 == 0
    ensures ClearBit5(b) % 32 == b % 32 && ClearBit5(b) / 64 == b / 64
  {
  }

  /** `std::tolower` in the C locale: only 'A'..'Z' change, to 'a'..'z'. */
  function ToLower(b: byte): (r: byte)
    ensures !('A' as int <= r <= 'Z' as int)
    ensures r == b || ('A' as int <= b <= 'Z' as int && r == b + 32)
  {
    if 'A' as int <= b <= 'Z' as int then b + 32 else b
  }

  function Pow256(k: nat): (p: nat)
    ensures p >= 1
  {
    if k == 0 then 1 else 256 * Pow256(k - 1)
  }

  /** Little-endian packing of bytes into one unsigned word, as `memcpy` into
    * a zeroed integer or `unalignedLoad` does on the little-endian targets. */
  function LE(bs: seq<byte>): (r: nat)
    ensures r < Pow256(|bs|)
  {
    if bs == [] then 0 else bs[0] + 256 * LE(bs[1..])
  }

  /** Packing loses nothing: two byte strings of one length that pack to the
    * same word are equal. */
  lemma {:induction false} LEInjective(a: seq<byte>, b: seq<byte>)
    requires |a| == |b| && LE(a) == LE(b)
    ensures a == b
  {
    if a != [] {
      assert LE(a) % 256 == a[0] && LE(a) / 256 == LE(a[1..]);
      assert LE(b) % 256 == b[0] && LE(b) / 256 == LE(b[1..]);
      LEInjective(a[1..], b[1..]);
      assert a == [a[0]] + a[1..] && b == [b[0]] + b[1..];
    }
  }

  /** `unalignedLoad<UInt32>` of four bytes on a little-endian target. */
  function Load32(b0: byte, b1: byte, b2: byte, b3: byte): (w: nat)
    ensures w < U32Modulus
  {
    b0 + 0x100 * b1 + 0x1_0000 * b2 + 0x100_0000 * b3
  }

  /** The loaded word is the little-endian reading of the four bytes, so it
    * determines them (see `LEInjective`). */
  lemma Load32IsLE(b0: byte, b1: byte, b2: byte, b3: byte)
    ensures Load32(b0, b1, b2, b3) == LE([b0, b1, b2, b3])
  {
    var bs := [b0, b1, b2, b3];
    assert bs[1..][1..][1..][1..] == [];
    assert LE(bs[1..][1..][1..]) == b3;
    assert LE(bs[1..][1..]) == b2 + 0x100 * b3;
    assert LE(bs[1..]) == b1 + 0x100 * b2 + 0x1_0000 * b3;
  }

  /** `(static_cast<UInt64>(hi) << 32) | lo` for two UInt32 values. */
  function Combine64(hi: nat, lo: nat): nat
  {
    (hi % U32Modulus) * U32Modulus + lo % U32Modulus
  }

  /** The combined word fits in 64 bits, and its high and low halves are the
    * two 32-bit inputs. */
  lemma Combine64Parts(hi: nat, lo: nat)
    ensures Combine64(hi, lo) < U32Modulus * U32Modulus
    ensures Combine64(hi, lo) / U32Modulus == hi % U32Modulus
    ensures Combine64(hi, lo) % U32Modulus == lo % U32Modulus
  {
  }
}
