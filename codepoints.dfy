/** The code point streams the n-gram engine works on. An instantiation of
  * the engine (a `Mode`) fixes the n-gram length, the alphabet, the case
  * mode and the foreign helpers it calls. `Codepoints` is the reference
  * decoding of a byte range, one code point at a time; the batched readers
  * are proved against it. */
module Decoding {
  import opened Words

  /** `default_padding`: bytes that may be read past the end of an input,
    * and the size of one reader batch. */
  const Padding: nat := 16

  type Pos = x: int | 1 <= x witness 1

  /** The four instantiations of the engine: 4-grams over bytes and 3-grams
    * over UTF-8 sequences, each case-sensitive or not. The functions are
    * foreign code: `intHashCRC32`, `UTF8::seqLength` and the CRC step
    * `_mm_crc32_u64(crc, value)` of the UTF-8 hash. */
  datatype Mode =
    | Ascii(caseInsensitive: bool, intHashCRC32: nat -> nat)
    | Utf8(caseInsensitive: bool, seqLength: byte -> Pos, crc32u64: (nat, nat) -> nat)

  /** The n-gram length of an instantiation. */
  function N(m: Mode): nat
  {
    if m.Ascii? then 4 else 3
  }

  /** One byte as an ASCII-mode code point, lowered in case-insensitive mode. */
  function AsciiUnit(ci: bool, b: byte): byte
  {
    if ci then ToLower(b) else b
  }

  /** The length of the UTF-8 sequence at `pos`, clipped at `end`. */
  function Utf8Length(m: Mode, data: seq<byte>, pos: nat, end: nat): (l: nat)
    requires m.Utf8? && pos < end <= |data|
    ensures 1 <= l <= end - pos
  {
    var l := m.seqLength(data[pos]);
    if pos + l > end then end - pos else l
  }

  /** Number of bytes copied into a code point for a sequence of length `l`
    * (the `switch`: 1, 2, 3, otherwise 4). */
  function Width(l: nat): nat
  {
    if l < 4 then l else 4
  }

  /** Number of leading bytes whose bit 5 is cleared in case-insensitive mode
    * (the fall-through `switch`: a length of 5 or more takes the default
    * branch and clears only the first byte). */
  function Cleared(l: nat): nat
  {
    if l <= 4 then l else 1
  }

  /** The little-endian value of the `w` bytes at `pos`, the first `c` of
    * them with bit 5 cleared: the bytes `memcpy` copies into a zeroed
    * UInt32 and the case fold that follows. */
  function Pack(data: seq<byte>, pos: nat, w: nat, c: nat): nat
    requires pos + w <= |data|
    decreases w
  {
    if w == 0 then 0
    else
      var b := if c > 0 then ClearBit5(data[pos]) else data[pos];
      b + 256 * Pack(data, pos + 1, w - 1, if c > 0 then c - 1 else 0)
  }

  /** One UTF-8-mode code point for a sequence of length `l` at `pos`. */
  function Utf8Unit(ci: bool, data: seq<byte>, pos: nat, l: nat): nat
    requires 1 <= l && pos + l <= |data|
  {
    Pack(data, pos, Width(l), if ci then Cleared(l) else 0)
  }

  /** Packing `w` bytes yields a value below 256^w, so a code point fits
    * its UInt32 slot. */
  lemma {:induction false} PackBound(data: seq<byte>, pos: nat, w: nat, c: nat)
    requires pos + w <= |data|
    ensures Pack(data, pos, w, c) < Pow256(w)
    decreases w
  {
    if w > 0 {
      PackBound(data, pos + 1, w - 1, if c > 0 then c - 1 else 0);
    }
  }

  /** Without case folding, packing is the little-endian reading `LE` of
    * the byte range. */
  lemma {:induction false} PackIsLE(data: seq<byte>, pos: nat, w: nat)
    requires pos + w <= |data|
    ensures Pack(data, pos, w, 0) == LE(data[pos..pos + w])
    decreases w
  {
    if w > 0 {
      PackIsLE(data, pos + 1, w - 1);
      assert data[pos..pos + w][1..] == data[pos + 1..pos + w];
    }
  }

  /** A code point of UTF-8 mode fits in a UInt32. */
  lemma Utf8UnitBound(ci: bool, data: seq<byte>, pos: nat, l: nat)
    requires 1 <= l && pos + l <= |data|
    ensures Utf8Unit(ci, data, pos, l) < U32Modulus
  {
    PackBound(data, pos, Width(l), if ci then Cleared(l) else 0);
    assert Pow256(Width(l)) <= Pow256(4) == U32Modulus by {
      assert Pow256(1) == 256 && Pow256(2) == 0x1_0000 && Pow256(3) == 0x100_0000;
    }
  }

  /** Packing reads only the `w` bytes at `pos`. */
  lemma {:induction false} PackSlice(data: seq<byte>, s: nat, e: nat, pos: nat, w: nat, c: nat)
    requires s <= pos && pos + w <= e <= |data|
    ensures Pack(data, pos, w, c) == Pack(data[s..e], pos - s, w, c)
    decreases w
  {
    if w > 0 {
      assert data[s..e][pos - s] == data[pos];
      PackSlice(data, s, e, pos + 1, w - 1, if c > 0 then c - 1 else 0);
    }
  }

  /** The code points of `data[pos..end]`, decoded one at a time. */
  function Codepoints(m: Mode, data: seq<byte>, pos: nat, end: nat): seq<nat>
    requires end <= |data|
    decreases end - pos
  {
    if pos >= end then []
    else if m.Ascii? then [AsciiUnit(m.caseInsensitive, data[pos])] + Codepoints(m, data, pos + 1, end)
    else
      var l := Utf8Length(m, data, pos, end);
      [Utf8Unit(m.caseInsensitive, data, pos, l)] + Codepoints(m, data, pos + l, end)
  }

  /** The code points of a whole byte string. */
  function Cps(m: Mode, s: seq<byte>): seq<nat>
  {
    Codepoints(m, s, 0, |s|)
  }

  /** A byte range never yields more code points than it has bytes, and in
    * ASCII mode exactly one per byte. */
  lemma {:induction false} CodepointsLength(m: Mode, data: seq<byte>, pos: nat, end: nat)
    requires pos <= end <= |data|
    ensures |Codepoints(m, data, pos, end)| <= end - pos
    ensures m.Ascii? ==> |Codepoints(m, data, pos, end)| == end - pos
    decreases end - pos
  {
    if pos < end {
      if m.Ascii? {
        CodepointsLength(m, data, pos + 1, end);
      } else {
        CodepointsLength(m, data, pos + Utf8Length(m, data, pos, end), end);
      }
    }
  }

  /** The ASCII units of `data[lo..hi]`. */
  function AsciiRun(ci: bool, data: seq<byte>, lo: nat, hi: nat): (r: seq<nat>)
    requires lo <= hi <= |data|
    ensures |r| == hi - lo
  {
    var d := data[lo..hi];
    seq(|d|, k requires 0 <= k < |d| => AsciiUnit(ci, d[k]) as nat)
  }

  /** In ASCII mode the stream splits at any cursor `q`: the units before it,
    * then the stream from it. */
  lemma {:induction false} AsciiSplit(m: Mode, data: seq<byte>, p: nat, q: nat, end: nat)
    requires m.Ascii? && p <= q && p <= end <= |data|
    ensures Codepoints(m, data, p, end)
         == AsciiRun(m.caseInsensitive, data, p, if q < end then q else end) + Codepoints(m, data, q, end)
    decreases q - p
  {
    var hi := if q < end then q else end;
    if p == hi {
      assert AsciiRun(m.caseInsensitive, data, p, hi) == [];
    } else {
      AsciiSplit(m, data, p + 1, q, end);
      assert AsciiRun(m.caseInsensitive, data, p, hi)
          == [AsciiUnit(m.caseInsensitive, data[p])] + AsciiRun(m.caseInsensitive, data, p + 1, hi);
    }
  }

  /** The stream of `data[s..end]` depends on those bytes only: the padding
    * after `end` and whatever precedes `s` are never decoded. */
  lemma {:induction false} CodepointsSlice(m: Mode, data: seq<byte>, s: nat, p: nat, end: nat)
    requires s <= p <= end <= |data|
    ensures Codepoints(m, data, p, end) == Codepoints(m, data[s..end], p - s, end - s)
    decreases end - p
  {
    if p < end {
      var d := data[s..end];
      if m.Ascii? {
        assert d[p - s] == data[p];
        CodepointsSlice(m, data, s, p + 1, end);
      } else {
        var l := Utf8Length(m, data, p, end);
        Utf8StepSlice(m, data, s, p, end);
        CodepointsSlice(m, data, s, p + l, end);
      }
    }
  }

  /** The stream of a byte range is the stream of that range cut out. */
  lemma SliceStream(m: Mode, data: seq<byte>, s: nat, e: nat)
    requires s <= e <= |data|
    ensures Codepoints(m, data, s, e) == Cps(m, data[s..e])
  {
    CodepointsSlice(m, data, s, s, e);
    assert e - s == |data[s..e]|;
  }

  lemma Utf8StepSlice(m: Mode, data: seq<byte>, s: nat, p: nat, end: nat)
    requires m.Utf8? && s <= p < end <= |data|
    ensures Utf8Length(m, data, p, end) == Utf8Length(m, data[s..end], p - s, end - s)
    ensures Utf8Unit(m.caseInsensitive, data, p, Utf8Length(m, data, p, end))
         == Utf8Unit(m.caseInsensitive, data[s..end], p - s, Utf8Length(m, data, p, end))
  {
    assert data[s..end][p - s] == data[p];
    var l := Utf8Length(m, data, p, end);
    PackSlice(data, s, end, p, Width(l), if m.caseInsensitive then Cleared(l) else 0);
  }
}
