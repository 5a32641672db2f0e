/** The n-gram counter table: 65536 UInt16 counters indexed by n-gram hash,
  * read as Int16. `Bump` and `Drop` are the table after a sequence of
  * wrapping increments or decrements; `ScanDistance` is the running
  * distance of the haystack comparator's ±1 rule. */
module Table {
  import opened Words

  /** `map_size`. */
  const MapSize: nat := 0x1_0000

  /** The table as `memset` leaves it. */
  function Zeros(): (t: seq<u16>)
    ensures |t| == MapSize && forall x :: 0 <= x < MapSize ==> t[x] == 0
  {
    seq(MapSize, _ => 0)
  }

  /** The table after `++stats[h]` for each `h` of `hs`, in order. */
  function Bump(t: seq<u16>, hs: seq<u16>): (r: seq<u16>)
    requires |t| == MapSize
    ensures |r| == MapSize
    decreases |hs|
  {
    if hs == [] then t
    else
      var s := Bump(t, hs[..|hs| - 1]);
      var h := hs[|hs| - 1];
      s[h := Inc16(s[h])]
  }

  /** The table after `--stats[h]` for each `h` of `hs`, in order. */
  function Drop(t: seq<u16>, hs: seq<u16>): (r: seq<u16>)
    requires |t| == MapSize
    ensures |r| == MapSize
    decreases |hs|
  {
    if hs == [] then t
    else
      var s := Drop(t, hs[..|hs| - 1]);
      var h := hs[|hs| - 1];
      s[h := Dec16(s[h])]
  }

  /** After the increments, each counter has grown by the number of times its
    * bucket occurs in `hs`, modulo 2^16. */
  lemma {:induction false} BumpCount(t: seq<u16>, hs: seq<u16>, x: u16)
    requires |t| == MapSize
    ensures Bump(t, hs)[x] == (t[x] + multiset(hs)[x]) % U16Modulus
    decreases |hs|
  {
    if hs != [] {
      var prev, h := hs[..|hs| - 1], hs[|hs| - 1];
      assert hs == prev + [h];
      BumpCount(t, prev, x);
      WrapModulo(Bump(t, prev)[h]);
    }
  }

  /** After the decrements, each counter has shrunk by the number of times
    * its bucket occurs in `hs`, modulo 2^16. */
  lemma {:induction false} DropCount(t: seq<u16>, hs: seq<u16>, x: u16)
    requires |t| == MapSize
    ensures Drop(t, hs)[x] == (t[x] - multiset(hs)[x]) % U16Modulus
    decreases |hs|
  {
    if hs != [] {
      var prev, h := hs[..|hs| - 1], hs[|hs| - 1];
      assert hs == prev + [h];
      DropCount(t, prev, x);
      WrapModulo(Drop(t, prev)[h]);
    }
  }

  /** Re-incrementing every touched bucket undoes the decrements exactly,
    * however often each bucket was hit. */
  lemma RestoreExact(t: seq<u16>, hs: seq<u16>)
    requires |t| == MapSize
    ensures Bump(Drop(t, hs), hs) == t
  {
    var r := Bump(Drop(t, hs), hs);
    forall x | 0 <= x < MapSize
      ensures r[x] == t[x]
    {
      BumpCount(Drop(t, hs), hs, x);
      DropCount(t, hs, x);
    }
  }

  /** One more increment, as the counting loops perform it. */
  lemma BumpNext(t: seq<u16>, b: seq<u16>, k: nat)
    requires |t| == MapSize && k < |b|
    ensures var s := Bump(t, b[..k]); Bump(t, b[..k + 1]) == s[b[k] := Inc16(s[b[k]])]
  {
    assert b[..k + 1][..k] == b[..k];
  }

  /** The running distance after the haystack hashes `hs`, starting from
    * `d`: for each hash, -1 if its counter (after the decrements of the
    * hashes before it) is positive as an Int16, +1 otherwise. */
  function ScanDistance(t: seq<u16>, hs: seq<u16>, d: int): int
    requires |t| == MapSize
    decreases |hs|
  {
    if hs == [] then d
    else
      var prev, h := hs[..|hs| - 1], hs[|hs| - 1];
      ScanDistance(t, prev, d) + (if Signed16(Drop(t, prev)[h]) > 0 then -1 else 1)
  }

  /** One more decrement and distance step, as the comparator's loop
    * performs them. */
  lemma DropNext(t: seq<u16>, b: seq<u16>, k: nat, d: int)
    requires |t| == MapSize && k < |b|
    ensures var s := Drop(t, b[..k]);
      && Drop(t, b[..k + 1]) == s[b[k] := Dec16(s[b[k]])]
      && ScanDistance(t, b[..k + 1], d)
         == ScanDistance(t, b[..k], d) + (if Signed16(s[b[k]]) > 0 then -1 else 1)
  {
    assert b[..k + 1][..k] == b[..k];
  }

  /** Each hash moves the distance by exactly one. */
  lemma {:induction false} ScanBounds(t: seq<u16>, hs: seq<u16>, d: int)
    requires |t| == MapSize
    ensures d - |hs| <= ScanDistance(t, hs, d) <= d + |hs|
    decreases |hs|
  {
    if hs != [] {
      ScanBounds(t, hs[..|hs| - 1], d);
    }
  }

  /** The ±1 steps do not depend on the starting distance: the distance a
    * haystack adds is the same from any start. */
  lemma {:induction false} ScanShift(t: seq<u16>, hs: seq<u16>, d: int, e: int)
    requires |t| == MapSize
    ensures ScanDistance(t, hs, d) - d == ScanDistance(t, hs, e) - e
    decreases |hs|
  {
    if hs != [] {
      ScanShift(t, hs[..|hs| - 1], d, e);
    }
  }

  lemma {:induction false} OccurrencesBound(s: seq<u16>, x: u16)
    ensures multiset(s)[x] <= |s|
  {
    if s != [] {
      assert s == [s[0]] + s[1..];
      OccurrencesBound(s[1..], x);
    }
  }

  /** The ±1 rule computes the L1 distance of the two histograms. Start from
    * a table holding the needle histogram `a` (modulo 2^16) and the distance
    * `|a|`; if no needle bucket reaches 2^15 and the haystack has at most
    * 2^15 n-grams, every Int16 reading is the true difference and the final
    * distance is the sum over buckets of |needle count - haystack count|. */
  lemma {:induction false} ScanIsL1(t: seq<u16>, a: multiset<u16>, hs: seq<u16>)
    requires |t| == MapSize
    requires forall x: u16 :: t[x] == a[x] % U16Modulus
    requires forall x: u16 :: a[x] < 0x8000
    requires |hs| <= 0x8000
    ensures ScanDistance(t, hs, |a|) == |a - multiset(hs)| + |multiset(hs) - a|
    decreases |hs|
  {
    if hs == [] {
      assert a - multiset{} == a;
    } else {
      var prev, h := hs[..|hs| - 1], hs[|hs| - 1];
      assert hs == prev + [h];
      ScanIsL1(t, a, prev);
      var b := multiset(prev);
      assert multiset(hs) == b + multiset{h};
      CounterReadsDifference(t, a, prev, h);
      DifferenceStep(a, b, h);
    }
  }

  /** Under the bounds of `ScanIsL1`, the counter of `h` after the
    * decrements of `prev` reads as needle count minus haystack count. */
  lemma CounterReadsDifference(t: seq<u16>, a: multiset<u16>, prev: seq<u16>, h: u16)
    requires |t| == MapSize
    requires forall x: u16 :: t[x] == a[x] % U16Modulus
    requires a[h] < 0x8000 && |prev| < 0x8000
    ensures Signed16(Drop(t, prev)[h]) == a[h] as int - multiset(prev)[h]
  {
    DropCount(t, prev, h);
    OccurrencesBound(prev, h);
    assert t[h] == a[h];
    SignedOfResidue(a[h] as int - multiset(prev)[h]);
  }

  /** The Int16 reading of a UInt16 counter is the true value whenever that
    * value lies in [-2^15, 2^15). */
  lemma SignedOfResidue(v: int)
    requires -0x8000 <= v < 0x8000
    ensures Signed16(v % U16Modulus) == v
  {
    if v < 0 {
      assert v % U16Modulus == v + U16Modulus;
    } else {
      assert v % U16Modulus == v;
    }
  }

  /** One more haystack occurrence of `h` lowers the needle-only part when the
    * needle still has an unmatched `h`, and raises the haystack-only part
    * otherwise. */
  lemma DifferenceStep(a: multiset<u16>, b: multiset<u16>, h: u16)
    ensures a[h] > b[h] ==> |a - (b + multiset{h})| == |a - b| - 1 && |(b + multiset{h}) - a| == |b - a|
    ensures a[h] <= b[h] ==> |a - (b + multiset{h})| == |a - b| && |(b + multiset{h}) - a| == |b - a| + 1
  {
    var b' := b + multiset{h};
    if a[h] > b[h] {
      assert a - b == (a - b') + multiset{h};
      assert b' - a == b - a;
    } else {
      assert a - b' == a - b;
      assert b' - a == (b - a) + multiset{h};
    }
  }

  /** Increments, decrements and the distance rule compose over a
    * concatenation of hash sequences: a batch continues where the previous
    * one stopped. */
  lemma {:induction false} Compose(t: seq<u16>, a: seq<u16>, b: seq<u16>, d: int)
    requires |t| == MapSize
    ensures Bump(t, a + b) == Bump(Bump(t, a), b)
    ensures Drop(t, a + b) == Drop(Drop(t, a), b)
    ensures ScanDistance(t, a + b, d) == ScanDistance(Drop(t, a), b, ScanDistance(t, a, d))
    decreases |b|
  {
    if b == [] {
      assert a + b == a;
    } else {
      var b', h := b[..|b| - 1], b[|b| - 1];
      assert (a + b)[..|a + b| - 1] == a + b';
      assert (a + b)[|a + b| - 1] == h;
      Compose(t, a, b', d);
    }
  }
}
