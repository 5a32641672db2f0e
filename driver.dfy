/** The drivers of the n-gram distance: `constant_constant` compares one
  * haystack with one needle, `vector_constant` compares every string of a
  * column with one needle, reusing one table. The score `distance /
  * max(total, 1)` is kept as a numerator and denominator; the `size_t`
  * arithmetic that produces them is written out modulo 2^64. */
module Driver {
  import opened Words
  import opened Decoding
  import opened Hashing
  import opened Table
  import opened Stats

  /** `max_string_size`: longer haystacks are not compared. */
  const MaxStringSize: nat := 0x8000

  const SizeTModulus: nat := 0x1_0000_0000_0000_0000

  /** A score `num / den`, as the drivers divide it. */
  datatype Ratio = Ratio(num: nat, den: nat)

  /** An integer as `size_t` holds it. */
  function SizeT(x: int): nat
  {
    x % SizeTModulus
  }

  /** `std::max(x, size_t(1))`. */
  function Max1(x: nat): (r: nat)
    ensures r >= 1 && (x >= 1 ==> r == x)
  {
    if x == 0 then 1 else x
  }

  /** The 16 zero bytes the drivers append to a string before reading it. */
  function ZeroPadding(): (z: seq<byte>)
    ensures |z| == Padding
  {
    seq(Padding, _ => 0)
  }

  /** The n-gram hashes of a whole string. */
  function Profile(m: Mode, s: seq<byte>): seq<u16>
  {
    Ngrams(m, Cps(m, s))
  }

  /** What `calculateNeedleStats` returns for a needle, as written: 0 below N
    * bytes, otherwise the code point count minus N - 1. */
  function NeedleLen(m: Mode, s: seq<byte>): int
  {
    if |s| < N(m) then 0 else |Cps(m, s)| - N(m) + 1
  }

  /** The needle count the distance should start from: the returned length,
    * never below zero. */
  function NeedleCountOf(len: int): nat
  {
    if len < 0 then 0 else len
  }

  /** The clamped needle count is the number of n-grams of the needle, for
    * every needle and every instantiation. */
  lemma NeedleCountIsNgramCount(m: Mode, s: seq<byte>)
    ensures NeedleCountOf(NeedleLen(m, s)) == |Profile(m, s)|
  {
    CodepointsLength(m, s, 0, |s|);
  }

  /** The unclamped length is the number of n-grams whenever the needle has
    * at least N - 1 code points or fewer than N bytes; otherwise it is
    * negative. An ASCII needle has one code point per byte, so its length
    * is never negative. */
  lemma NeedleLenSign(m: Mode, s: seq<byte>)
    ensures NeedleLen(m, s) >= 0 <==> NeedleLen(m, s) == |Profile(m, s)|
    ensures NeedleLen(m, s) < 0 <==> N(m) <= |s| && |Cps(m, s)| < N(m) - 1
    ensures m.Ascii? ==> NeedleLen(m, s) >= 0
  {
    CodepointsLength(m, s, 0, |s|);
  }

  /** The score reported for a haystack with hashes `hh`, against a table
    * `t` and a starting distance `len`: the distance after the ±1 rule and
    * the count total, each as `size_t`. */
  function Reported(t: seq<u16>, hh: seq<u16>, len: int): (r: Ratio)
    requires |t| == MapSize
    ensures r.den >= 1
  {
    Ratio(SizeT(ScanDistance(t, hh, len)), Max1(SizeT(|hh| + len)))
  }

  /** The score with the needle's n-gram count starting the distance (the
    * corrected count): 1 for a haystack over the size cap, otherwise the ±1
    * rule run on the needle's table. */
  function Score(m: Mode, haystack: seq<byte>, needle: seq<byte>): (r: Ratio)
    ensures r.den >= 1
    ensures |haystack| > MaxStringSize ==> r.num == r.den
  {
    if |haystack| > MaxStringSize then Ratio(1, 1)
    else
      var hn := Profile(m, needle);
      Reported(Bump(Zeros(), hn), Profile(m, haystack), |hn|)
  }

  /** The score as both drivers compute it: the distance and the total
    * start from the unclamped `calculateNeedleStats` result. */
  function ScoreAsWritten(m: Mode, haystack: seq<byte>, needle: seq<byte>): (r: Ratio)
    ensures r.den >= 1
  {
    if |haystack| > MaxStringSize then Ratio(1, 1)
    else Reported(Bump(Zeros(), Profile(m, needle)), Profile(m, haystack), NeedleLen(m, needle))
  }

  /** The two agree whenever the needle length is not negative. */
  lemma AsWrittenAgrees(m: Mode, haystack: seq<byte>, needle: seq<byte>)
    requires NeedleLen(m, needle) >= 0
    ensures ScoreAsWritten(m, haystack, needle) == Score(m, haystack, needle)
  {
    NeedleLenSign(m, needle);
  }

  /** A start read as `size_t` reports the same ratio as the start itself:
    * the ±1 steps do not depend on where the distance starts, and the
    * numerator and the total are both taken modulo 2^64. */
  lemma ReportedWraps(t: seq<u16>, hh: seq<u16>, len: int)
    requires |t| == MapSize
    ensures Reported(t, hh, SizeT(len)) == Reported(t, hh, len)
  {
    var q := len / SizeTModulus;
    assert SizeT(len) == len - SizeTModulus * q;
    ScanShift(t, hh, SizeT(len), len);
    ShiftMod(ScanDistance(t, hh, len), q);
    ShiftMod(|hh| + len, q);
  }

  /** Subtracting a multiple of 2^64 does not change a value modulo 2^64. */
  lemma ShiftMod(x: int, q: int)
    ensures SizeT(x - SizeTModulus * q) == SizeT(x)
  {
  }

  /** The euro sign: one three-byte UTF-8 sequence. */
  const Euro: seq<byte> := [0xE2, 0x82, 0xAC]

  /** A needle of N bytes but fewer than N - 1 code points makes the source
    * return -1, which `size_t` reads as 2^64 - 1: the euro sign compared
    * with itself then scores (2^64 - 1) / (2^64 - 1), that is 1, "not
    * similar at all", where the corrected count gives 0 / 1. */
  lemma EuroScoresOneAsWritten(m: Mode)
    requires m.Utf8? && m.seqLength(0xE2) == 3
    ensures ScoreAsWritten(m, Euro, Euro) == Ratio(SizeTModulus - 1, SizeTModulus - 1)
    ensures Score(m, Euro, Euro) == Ratio(0, 1)
  {
    var u := Utf8Unit(m.caseInsensitive, Euro, 0, 3);
    assert Utf8Length(m, Euro, 0, 3) == 3;
    assert Codepoints(m, Euro, 3, 3) == [];
    assert Cps(m, Euro) == [u];
    assert NeedleLen(m, Euro) == -1;
    assert Profile(m, Euro) == [];
    assert SizeT(-1) == SizeTModulus - 1;
  }

  /** The reference score: the L1 distance between the needle's and the
    * haystack's n-gram histograms over their total n-gram count (1 for a
    * haystack over the size cap). */
  function Distance(m: Mode, haystack: seq<byte>, needle: seq<byte>): Ratio
  {
    if |haystack| > MaxStringSize then Ratio(1, 1)
    else
      var a, b := multiset(Profile(m, needle)), multiset(Profile(m, haystack));
      Ratio(|a - b| + |b - a|, Max1(|a| + |b|))
  }

  /** No needle bucket holds 2^15 or more n-grams. */
  ghost predicate SmallBuckets(hn: seq<u16>)
  {
    forall x: u16 :: multiset(hn)[x] < 0x8000
  }

  /** The table after profiling `hn` holds each bucket's count modulo 2^16. */
  lemma ProfileTable(hn: seq<u16>)
    ensures forall x: u16 :: Bump(Zeros(), hn)[x] == multiset(hn)[x] % U16Modulus
  {
    forall x: u16
      ensures Bump(Zeros(), hn)[x] == multiset(hn)[x] % U16Modulus
    {
      BumpCount(Zeros(), hn, x);
    }
  }

  /** On hash sequences: starting from the table of `hn` and its length, a
    * haystack of at most 2^15 n-grams is reported at the L1 distance of the
    * two histograms, when no bucket of `hn` reaches 2^15. */
  lemma ReportedIsL1(hn: seq<u16>, hh: seq<u16>)
    requires SmallBuckets(hn) && |hh| <= 0x8000 && |hn| + |hh| < SizeTModulus
    ensures Reported(Bump(Zeros(), hn), hh, |hn|).num
         == |multiset(hn) - multiset(hh)| + |multiset(hh) - multiset(hn)|
    ensures Reported(Bump(Zeros(), hn), hh, |hn|).den == Max1(|hn| + |hh|)
  {
    var a, b := multiset(hn), multiset(hh);
    var t := Bump(Zeros(), hn);
    ProfileTable(hn);
    assert |a| == |hn|;
    ScanIsL1(t, a, hh);
    DiffBound(a, b);
    ReportedInRange(t, hh, |hn|);
  }

  /** When the distance and the total both fit in `size_t`, the reported
    * ratio is exactly the distance over the total (at least 1). */
  lemma ReportedInRange(t: seq<u16>, hh: seq<u16>, len: int)
    requires |t| == MapSize
    requires 0 <= ScanDistance(t, hh, len) < SizeTModulus && 0 <= |hh| + len < SizeTModulus
    ensures Reported(t, hh, len) == Ratio(ScanDistance(t, hh, len), Max1(|hh| + len))
  {
  }

  /** The table-based score is the histogram L1 distance whenever no needle
    * bucket reaches 2^15: then no counter's Int16 reading wraps and the
    * `size_t` distance never leaves [0, 2^64). */
  lemma ScoreIsL1(m: Mode, haystack: seq<byte>, needle: seq<byte>)
    requires SmallBuckets(Profile(m, needle)) && |needle| + MaxStringSize < SizeTModulus
    ensures Score(m, haystack, needle) == Distance(m, haystack, needle)
  {
    if |haystack| <= MaxStringSize {
      var hn, hh := Profile(m, needle), Profile(m, haystack);
      CodepointsLength(m, haystack, 0, |haystack|);
      CodepointsLength(m, needle, 0, |needle|);
      assert |hh| <= |haystack| && |hn| <= |needle|;
      ReportedIsL1(hn, hh);
      var a, b := multiset(hn), multiset(hh);
      assert |a| == |hn| && |b| == |hh|;
      assert Distance(m, haystack, needle) == Ratio(|a - b| + |b - a|, Max1(|hn| + |hh|));
      assert Score(m, haystack, needle) == Reported(Bump(Zeros(), hn), hh, |hn|);
    }
  }

  /** Each one-sided difference is at most the multiset it is taken from. */
  lemma DiffBound(a: multiset<u16>, b: multiset<u16>)
    ensures |a - b| <= |a| && |b - a| <= |b|
  {
    assert a == (a - b) + (a * b);
    assert b == (b - a) + (a * b);
  }

  /** The reference score lies in [0, 1]. */
  lemma DistanceInUnitInterval(m: Mode, haystack: seq<byte>, needle: seq<byte>)
    ensures var r := Distance(m, haystack, needle); 1 <= r.den && r.num <= r.den
  {
    var a, b := multiset(Profile(m, needle)), multiset(Profile(m, haystack));
    DiffBound(a, b);
  }

  /** Below the size cap, the reference score is 0 exactly when the two
    * strings have the same n-gram histogram. */
  lemma DistanceZeroIff(m: Mode, haystack: seq<byte>, needle: seq<byte>)
    requires |haystack| <= MaxStringSize
    ensures Distance(m, haystack, needle).num == 0
        <==> multiset(Profile(m, haystack)) == multiset(Profile(m, needle))
  {
    var a, b := multiset(Profile(m, needle)), multiset(Profile(m, haystack));
    if |a - b| + |b - a| == 0 {
      assert a - b == multiset{} && b - a == multiset{};
      forall x: u16
        ensures a[x] == b[x]
      {
        assert (a - b)[x] == 0 && (b - a)[x] == 0;
      }
    }
  }

  /** With small needle buckets, the corrected score lies in [0, 1] and a
    * string within the size cap scores 0 against itself. */
  lemma ScoreBounds(m: Mode, haystack: seq<byte>, needle: seq<byte>)
    requires SmallBuckets(Profile(m, needle)) && |needle| + MaxStringSize < SizeTModulus
    ensures Score(m, haystack, needle).num <= Score(m, haystack, needle).den
    ensures haystack == needle && |haystack| <= MaxStringSize ==> Score(m, haystack, needle).num == 0
  {
    ScoreIsL1(m, haystack, needle);
    DistanceInUnitInterval(m, haystack, needle);
    if haystack == needle && |haystack| <= MaxStringSize {
      DistanceZeroIff(m, haystack, needle);
    }
  }

  /** The drivers' score, as written, is the L1 distance under the bounds of
    * `ScoreIsL1` whenever the needle length is not negative (always so in
    * ASCII mode, by `NeedleLenSign`). */
  lemma AsWrittenIsL1(m: Mode, haystack: seq<byte>, needle: seq<byte>)
    requires SmallBuckets(Profile(m, needle)) && |needle| + MaxStringSize < SizeTModulus
    requires NeedleLen(m, needle) >= 0
    ensures ScoreAsWritten(m, haystack, needle) == Distance(m, haystack, needle)
  {
    AsWrittenAgrees(m, haystack, needle);
    ScoreIsL1(m, haystack, needle);
  }

  /** Under the same conditions, the drivers' score lies in [0, 1], and a
    * string within the size cap scores 0 against itself. */
  lemma AsWrittenBounds(m: Mode, haystack: seq<byte>, needle: seq<byte>)
    requires SmallBuckets(Profile(m, needle)) && |needle| + MaxStringSize < SizeTModulus
    requires NeedleLen(m, needle) >= 0
    ensures ScoreAsWritten(m, haystack, needle).num <= ScoreAsWritten(m, haystack, needle).den
    ensures haystack == needle && |haystack| <= MaxStringSize ==> ScoreAsWritten(m, haystack, needle).num == 0
  {
    AsWrittenAgrees(m, haystack, needle);
    ScoreBounds(m, haystack, needle);
  }

  /** Padding a string leaves its code point stream unchanged. */
  lemma PaddedStream(m: Mode, s: seq<byte>)
    ensures Codepoints(m, s + ZeroPadding(), 0, |s|) == Cps(m, s)
  {
    var padded := s + ZeroPadding();
    SliceStream(m, padded, 0, |s|);
    assert padded[0..|s|] == s;
  }

  /** The score of a haystack cut out of a byte range, in terms of the
    * stream of that range. */
  lemma ScoreOfRange(m: Mode, data: seq<byte>, s: nat, e: nat, needle: seq<byte>)
    requires s <= e <= |data|
    ensures e - s > MaxStringSize ==> ScoreAsWritten(m, data[s..e], needle) == Ratio(1, 1)
    ensures e - s <= MaxStringSize ==>
      ScoreAsWritten(m, data[s..e], needle)
      == Reported(Bump(Zeros(), Profile(m, needle)), Ngrams(m, Codepoints(m, data, s, e)), NeedleLen(m, needle))
  {
    SliceStream(m, data, s, e);
  }

  /** A zeroed table, as `memset` leaves it. */
  method NewTable() returns (stats: array<u16>)
    ensures fresh(stats) && stats[..] == Zeros()
  {
    stats := new u16[MapSize](_ => 0);
    assert forall x :: 0 <= x < MapSize ==> stats[x] == Zeros()[x];
  }

  /** The needle half of both drivers: pad the needle, profile it into a
    * fresh table, and return its length as `size_t`. */
  method ProfileNeedle(m: Mode, needle: seq<byte>) returns (stats: array<u16>, count: nat)
    ensures fresh(stats) && stats[..] == Bump(Zeros(), Profile(m, needle))
    ensures count == SizeT(NeedleLen(m, needle))
  {
    stats := NewTable();
    var padded := needle + ZeroPadding();
    var len := CalculateNeedleStats(m, padded, 0, |needle|, stats);
    PaddedStream(m, needle);
    count := SizeT(len);
  }

  /** One comparison of both drivers: the haystack `data[start..start +
    * size]` against the table `t`, with the running `distance` and the
    * needle size `count`. Over the size cap nothing is touched and the
    * score is 1; otherwise the distance moves by the ±1 rule and the score
    * is the final distance over the total, both as `size_t`. */
  method Compare(m: Mode, data: seq<byte>, start: nat, size: nat, stats: array<u16>,
                 distance: int, count: nat, ghost t: seq<u16>)
    returns (res: Ratio, distance': int)
    requires stats.Length == MapSize && start + size + Padding <= |data|
    requires stats[..] == t
    modifies stats
    ensures stats[..] == t
    ensures size > MaxStringSize ==> res == Ratio(1, 1) && distance' == distance
    ensures size <= MaxStringSize ==>
      var hh := Ngrams(m, Codepoints(m, data, start, start + size));
      distance' == ScanDistance(t, hh, distance) && res == Ratio(SizeT(distance'), Max1(SizeT(|hh| + count)))
  {
    distance' := distance;
    if size <= MaxStringSize {
      var cnt;
      cnt, distance' := CalculateHaystackStatsAndMetric(m, data, start, size, stats, distance');
      res := Ratio(SizeT(distance'), Max1(SizeT(cnt + count)));
    } else {
      res := Ratio(1, 1);
    }
  }

  /** A comparison that starts the distance from the needle's `size_t`
    * length scores the haystack as written. */
  lemma ReportedOf(m: Mode, haystack: seq<byte>, needle: seq<byte>, hh: seq<u16>, d: int)
    requires |haystack| <= MaxStringSize && hh == Profile(m, haystack)
    requires d == ScanDistance(Bump(Zeros(), Profile(m, needle)), hh, SizeT(NeedleLen(m, needle)))
    ensures Ratio(SizeT(d), Max1(SizeT(|hh| + SizeT(NeedleLen(m, needle)))))
         == ScoreAsWritten(m, haystack, needle)
  {
    ReportedWraps(Bump(Zeros(), Profile(m, needle)), hh, NeedleLen(m, needle));
  }

  /** `constant_constant`: the score of `data` against `needle`, as written;
    * it is the corrected score whenever the needle length is not
    * negative. */
  method ConstantConstant(m: Mode, data: seq<byte>, needle: seq<byte>) returns (res: Ratio)
    ensures res == ScoreAsWritten(m, data, needle)
    ensures NeedleLen(m, needle) >= 0 ==> res == Score(m, data, needle)
  {
    var stats, count := ProfileNeedle(m, needle);
    ghost var t := stats[..];
    var padded := data + ZeroPadding();
    var distance: int := count;
    res, distance := Compare(m, padded, 0, |data|, stats, distance, count, t);
    WholeScore(m, data, padded, needle, t, count, res, distance);
    if NeedleLen(m, needle) >= 0 {
      AsWrittenAgrees(m, data, needle);
    }
  }

  /** The comparison of a padded haystack is the score of the haystack. */
  lemma WholeScore(m: Mode, data: seq<byte>, padded: seq<byte>, needle: seq<byte>,
                   t: seq<u16>, count: nat, r: Ratio, d: int)
    requires padded == data + ZeroPadding()
    requires t == Bump(Zeros(), Profile(m, needle)) && count == SizeT(NeedleLen(m, needle))
    requires |data| > MaxStringSize ==> r == Ratio(1, 1)
    requires |data| <= MaxStringSize ==>
      var hh := Ngrams(m, Codepoints(m, padded, 0, 0 + |data|));
      d == ScanDistance(t, hh, count) && r == Ratio(SizeT(d), Max1(SizeT(|hh| + count)))
    ensures r == ScoreAsWritten(m, data, needle)
  {
    PaddedStream(m, data);
    assert Codepoints(m, padded, 0, 0 + |data|) == Cps(m, data);
    if |data| <= MaxStringSize {
      ReportedOf(m, data, needle, Profile(m, data), d);
    }
  }

  /** Where row `i` of a string column starts: the previous row's offset. */
  function Prev(offsets: seq<nat>, i: nat): nat
    requires i <= |offsets|
  {
    if i == 0 then 0 else offsets[i - 1]
  }

  /** The offsets of a string column over `size` padded bytes: each row ends
    * with its terminating zero byte, and the padding after it covers a
    * reader's overread. */
  predicate ColumnOffsets(offsets: seq<nat>, size: nat)
  {
    forall i :: 0 <= i < |offsets| ==> Prev(offsets, i) < offsets[i] && offsets[i] + Padding <= size + 1
  }

  /** Row `i` of a string column, without its terminating zero. */
  function Row(data: seq<byte>, offsets: seq<nat>, i: nat): (r: seq<byte>)
    requires ColumnOffsets(offsets, |data|) && i < |offsets|
    ensures |r| == offsets[i] - Prev(offsets, i) - 1
  {
    data[Prev(offsets, i)..offsets[i] - 1]
  }

  /** One iteration of `vector_constant`: row `i`, starting at `prev`,
    * compared against the needle's table with the distance at the needle's
    * `size_t` length, scores as the row alone would. */
  method CompareRow(m: Mode, data: seq<byte>, offsets: seq<nat>, i: nat, prev: nat, needle: seq<byte>,
                    stats: array<u16>, distance: int, count: nat, ghost t: seq<u16>)
    returns (r: Ratio, distance': int)
    requires ColumnOffsets(offsets, |data|) && i < |offsets| && prev == Prev(offsets, i)
    requires stats.Length == MapSize && stats[..] == t
    requires t == Bump(Zeros(), Profile(m, needle)) && count == SizeT(NeedleLen(m, needle))
    requires distance == count
    modifies stats
    ensures stats[..] == t
    ensures r == ScoreAsWritten(m, Row(data, offsets, i), needle)
  {
    var size := offsets[i] - prev - 1;
    r, distance' := Compare(m, data, prev, size, stats, distance, count, t);
    RowScore(m, data, offsets, i, prev, size, needle, t, count, r, distance');
  }

  /** The comparison of the bytes of row `i`, in place in the column, is the
    * score of the row. */
  lemma RowScore(m: Mode, data: seq<byte>, offsets: seq<nat>, i: nat, prev: nat, size: nat,
                 needle: seq<byte>, t: seq<u16>, count: nat, r: Ratio, d: int)
    requires ColumnOffsets(offsets, |data|) && i < |offsets|
    requires prev == Prev(offsets, i) && size == offsets[i] - prev - 1
    requires t == Bump(Zeros(), Profile(m, needle)) && count == SizeT(NeedleLen(m, needle))
    requires size > MaxStringSize ==> r == Ratio(1, 1)
    requires size <= MaxStringSize ==>
      var hh := Ngrams(m, Codepoints(m, data, prev, prev + size));
      d == ScanDistance(t, hh, count) && r == Ratio(SizeT(d), Max1(SizeT(|hh| + count)))
    ensures r == ScoreAsWritten(m, Row(data, offsets, i), needle)
  {
    var row := Row(data, offsets, i);
    assert row == data[prev..prev + size];
    SliceStream(m, data, prev, prev + size);
    if size <= MaxStringSize {
      ReportedOf(m, row, needle, Profile(m, row), d);
    }
  }

  /** `vector_constant`: one score per row of the column, in order, each the
    * single comparison of that row with the needle as written, so that equal
    * rows score alike wherever they stand: the distance is reset to the
    * needle's length after every row and the table is the same for every
    * row. With a needle length that is not negative, every score is the
    * corrected one. */
  method VectorConstant(m: Mode, data: seq<byte>, offsets: seq<nat>, needle: seq<byte>, res: array<Ratio>)
    requires ColumnOffsets(offsets, |data|) && res.Length == |offsets|
    modifies res
    ensures forall i :: 0 <= i < |offsets| ==> res[i] == ScoreAsWritten(m, Row(data, offsets, i), needle)
    ensures NeedleLen(m, needle) >= 0 ==>
      forall i :: 0 <= i < |offsets| ==> res[i] == Score(m, Row(data, offsets, i), needle)
  {
    var stats, count := ProfileNeedle(m, needle);
    ghost var t := stats[..];
    var distance: int := count;
    var prev := 0;
    var i := 0;
    ghost var scores: seq<Ratio> := [];
    while i < |offsets|
      invariant i <= |offsets| && prev == Prev(offsets, i)
      invariant stats[..] == t && distance == count
      invariant |scores| == i && res[..i] == scores
      invariant Scored(m, data, offsets, needle, scores)
    {
      var r;
      r, distance := CompareRow(m, data, offsets, i, prev, needle, stats, distance, count, t);
      ScoresExtend(m, data, offsets, needle, scores, r);
      res[i] := r;
      assert res[..i + 1] == res[..i] + [r];
      scores := scores + [r];
      distance := count;
      prev := offsets[i];
      i := i + 1;
    }
    assert res[..] == scores;
    CorrectedScores(m, data, offsets, needle, scores);
  }

  /** With a needle length that is not negative, scores as written are the
    * corrected scores. */
  lemma CorrectedScores(m: Mode, data: seq<byte>, offsets: seq<nat>, needle: seq<byte>, scores: seq<Ratio>)
    requires Scored(m, data, offsets, needle, scores)
    ensures forall k :: 0 <= k < |scores| ==> scores[k] == ScoreAsWritten(m, Row(data, offsets, k), needle)
    ensures NeedleLen(m, needle) >= 0 ==>
      forall k :: 0 <= k < |scores| ==> scores[k] == Score(m, Row(data, offsets, k), needle)
  {
    if NeedleLen(m, needle) >= 0 {
      forall k | 0 <= k < |scores|
        ensures scores[k] == Score(m, Row(data, offsets, k), needle)
      {
        AsWrittenAgrees(m, Row(data, offsets, k), needle);
      }
    }
  }

  /** `scores` holds the scores of the first `|scores|` rows, as written. */
  ghost predicate Scored(m: Mode, data: seq<byte>, offsets: seq<nat>, needle: seq<byte>, scores: seq<Ratio>)
  {
    && ColumnOffsets(offsets, |data|) && |scores| <= |offsets|
    && forall k :: 0 <= k < |scores| ==> scores[k] == ScoreAsWritten(m, Row(data, offsets, k), needle)
  }

  /** One more row scored. */
  lemma ScoresExtend(m: Mode, data: seq<byte>, offsets: seq<nat>, needle: seq<byte>, scores: seq<Ratio>, r: Ratio)
    requires Scored(m, data, offsets, needle, scores) && |scores| < |offsets|
    requires r == ScoreAsWritten(m, Row(data, offsets, |scores|), needle)
    ensures Scored(m, data, offsets, needle, scores + [r])
  {
    var next := scores + [r];
    forall k | 0 <= k < |next|
      ensures next[k] == ScoreAsWritten(m, Row(data, offsets, k), needle)
    {
      if k < |scores| {
        assert next[k] == scores[k];
      }
    }
  }
}
