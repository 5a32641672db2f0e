/** N-gram hashing: a window of N code points is reduced to a 16-bit bucket
  * index, and the n-grams of a code point stream are its consecutive
  * N-windows, in order. */
module Hashing {
  import opened Words
  import opened Decoding

  /** `ASCIIHash`: the four byte code points packed little-endian into a
    * UInt32 (`unalignedLoad`), hashed by `intHashCRC32`, masked to 16 bits.
    * Code points are UInt8 in this mode, hence the `% 256`. */
  function AsciiHash(crc: nat -> nat, g: seq<nat>): u16
    requires |g| == 4
  {
    crc(Load32(g[0] % 256, g[1] % 256, g[2] % 256, g[3] % 256)) % U16Modulus
  }

  /** `UTF8Hash` on SSE 4.2 targets: the first two UInt32 code points
    * combined into a UInt64, folded by the CRC step into a CRC that starts
    * from the third code point, masked to 16 bits. */
  function Utf8Hash(mix: (nat, nat) -> nat, g: seq<nat>): u16
    requires |g| == 3
  {
    mix(g[2] % U32Modulus, Combine64(g[0], g[1])) % U16Modulus
  }

  /** The ASCII hash is the CRC of the little-endian word whose bytes are
    * the four code points, masked to 16 bits. */
  lemma AsciiHashIsLE(crc: nat -> nat, g: seq<nat>)
    requires |g| == 4
    ensures AsciiHash(crc, g) == crc(LE([g[0] % 256, g[1] % 256, g[2] % 256, g[3] % 256])) % U16Modulus
  {
    Load32IsLE(g[0] % 256, g[1] % 256, g[2] % 256, g[3] % 256);
  }

  /** On UInt32 code points, the UTF-8 hash is the CRC step from the third
    * code point over the word whose high half is the first code point and
    * whose low half is the second, masked to 16 bits. */
  lemma Utf8HashWord(mix: (nat, nat) -> nat, g: seq<nat>)
    requires |g| == 3 && g[0] < U32Modulus && g[1] < U32Modulus && g[2] < U32Modulus
    ensures var w := Combine64(g[0], g[1]);
      && Utf8Hash(mix, g) == mix(g[2], w) % U16Modulus
      && w / U32Modulus == g[0] && w % U32Modulus == g[1]
  {
    Combine64Parts(g[0], g[1]);
  }

  /** The hash functor of an instantiation. */
  function Hash(m: Mode, g: seq<nat>): u16
    requires |g| == N(m)
  {
    match m
    case Ascii(_, crc) => AsciiHash(crc, g)
    case Utf8(_, _, mix) => Utf8Hash(mix, g)
  }

  /** Number of n-grams in a stream of `c` code points. */
  function Count(m: Mode, c: nat): nat
  {
    if c < N(m) then 0 else c - N(m) + 1
  }

  /** The hash of the n-gram of `c` that starts at `j`. */
  function NgramAt(m: Mode, c: seq<nat>, j: nat): u16
    requires j + N(m) <= |c|
  {
    Hash(m, c[j..j + N(m)])
  }

  /** The hashes of the n-grams of a code point stream, in order: the
    * n-gram at the front, then those of the stream without its first code
    * point. */
  function Ngrams(m: Mode, c: seq<nat>): (r: seq<u16>)
    ensures |r| == Count(m, |c|)
    decreases |c|
  {
    if |c| < N(m) then [] else [Hash(m, c[..N(m)])] + Ngrams(m, c[1..])
  }

  /** The n-gram hash at position `j` is the hash of the N code points that
    * start at `j`. */
  lemma {:induction false} NgramsIndex(m: Mode, c: seq<nat>, j: nat)
    requires j + N(m) <= |c|
    ensures Ngrams(m, c)[j] == NgramAt(m, c, j)
    decreases j
  {
    var n := N(m);
    if j == 0 {
      assert c[0..n] == c[..n];
    } else {
      NgramsIndex(m, c[1..], j - 1);
      assert c[1..][j - 1..j - 1 + n] == c[j..j + n];
    }
  }

  /** Appending code points keeps the n-grams already complete. */
  lemma NgramsPrefix(m: Mode, c: seq<nat>, d: seq<nat>)
    ensures |Ngrams(m, c)| <= |Ngrams(m, c + d)|
    ensures Ngrams(m, c + d)[..|Ngrams(m, c)|] == Ngrams(m, c)
  {
    var a, b := Ngrams(m, c), Ngrams(m, c + d);
    forall j | 0 <= j < |a|
      ensures b[j] == a[j]
    {
      NgramsIndex(m, c, j);
      NgramsIndex(m, c + d, j);
      assert (c + d)[j..j + N(m)] == c[j..j + N(m)];
    }
  }

  /** `w` holds the last `|w|` elements of `e`: the state of a reader's
    * window after a batch, `e` being everything read so far. */
  ghost predicate Window(w: seq<nat>, e: seq<nat>)
  {
    |w| <= |e| && forall k :: 0 <= k < |w| ==> w[k] == e[|e| - |w| + k]
  }

  /** Moving the last `k` elements of a window to its front and appending
    * the new batch `d` keeps it a window of the extended stream. */
  lemma WindowAdvance(w: seq<nat>, e: seq<nat>, k: nat, d: seq<nat>)
    requires Window(w, e) && k <= |w|
    ensures Window(w[|w| - k..] + d, e + d)
  {
  }

  /** From slot `i` on, a window over `p + c` holds the stream `c` from
    * position `|c| - |w| + i` on. */
  lemma WindowTail(w: seq<nat>, p: seq<nat>, c: seq<nat>, i: nat)
    requires Window(w, p + c) && i <= |w| && |c| - |w| + i >= 0
    ensures w[i..] == c[|c| - |w| + i..]
  {
  }

  /** The n-grams of a suffix of `c` are the tail of the n-grams of `c`. */
  lemma NgramsSuffix(m: Mode, c: seq<nat>, j: nat)
    requires j <= |Ngrams(m, c)|
    ensures Ngrams(m, c[j..]) == Ngrams(m, c)[j..]
  {
    var a, b := Ngrams(m, c[j..]), Ngrams(m, c)[j..];
    forall k | 0 <= k < |a|
      ensures a[k] == b[k]
    {
      SuffixIndex(m, c, j, k);
    }
  }

  /** One n-gram of a suffix, counted in the whole stream. */
  lemma SuffixIndex(m: Mode, c: seq<nat>, j: nat, k: nat)
    requires j + k + N(m) <= |c|
    ensures Ngrams(m, c[j..])[k] == Ngrams(m, c)[j + k]
  {
    NgramsIndex(m, c[j..], k);
    NgramsIndex(m, c, j + k);
    NgramAtSuffix(m, c, j, k);
  }

  /** The n-gram at `k` of a suffix from `j` is the n-gram at `j + k`. */
  lemma NgramAtSuffix(m: Mode, c: seq<nat>, j: nat, k: nat)
    requires j + k + N(m) <= |c|
    ensures NgramAt(m, c[j..], k) == NgramAt(m, c, j + k)
  {
    var n := N(m);
    assert c[j..][k..k + n] == c[j + k..j + k + n];
  }

  /** The n-gram at slot `i` of `w`, counted from slot `i0`. */
  lemma NgramOfSuffix(m: Mode, w: seq<nat>, i0: nat, i: nat)
    requires i0 <= i && i + N(m) <= |w|
    ensures i - i0 < |Ngrams(m, w[i0..])|
    ensures Ngrams(m, w[i0..])[i - i0] == Hash(m, w[i..i + N(m)])
  {
    NgramsIndex(m, w[i0..], i - i0);
    assert w[i0..][i - i0..i - i0 + N(m)] == w[i..i + N(m)];
  }
}
