/** The needle profiler and the haystack comparator. Both walk the input in
  * reader batches: the first batch starts at slot N - 1 (the slots before it
  * hold no code points yet), later batches at slot 0 (the reader has moved
  * the previous batch's last N - 1 code points there). Together the batches
  * hash exactly the n-grams of the input's code point stream, in order. */
module Stats {
  import opened Words
  import opened Decoding
  import opened Hashing
  import opened Table
  import opened Reader

  /** The state of a batched walk over the stream `all` at the head of a
    * batch: `c` has been read and `rest` has not; the window `w` holds the
    * tail of `p + c` (`p` being the N - 1 slots that precede the first
    * batch); the n-grams starting before slot `i` of the window are `done`.
    * A window that is not full ends the stream. */
  ghost predicate Walk(m: Mode, all: seq<nat>, rest: seq<nat>, p: seq<nat>, c: seq<nat>,
                       w: seq<nat>, i: nat, done: seq<u16>)
  {
    && all == c + rest
    && |p| == N(m) - 1 <= |w| <= Padding && i <= |w|
    && Window(w, p + c)
    && (rest != [] ==> |w| == Padding)
    && 0 <= |c| - |w| + i <= |Ngrams(m, c)|
    && done == Ngrams(m, c)[..|c| - |w| + i]
  }

  /** The first batch: the window is `p + c`, its n-grams start at slot
    * N - 1 and none has been hashed yet. */
  lemma WalkStart(m: Mode, all: seq<nat>, rest: seq<nat>, p: seq<nat>, c: seq<nat>, w: seq<nat>)
    requires w == p + c && |p| == N(m) - 1 && |w| <= Padding
    requires all == c + rest && (rest != [] ==> |w| == Padding)
    ensures Walk(m, all, rest, p, c, w, N(m) - 1, [])
  {
    assert (p + c)[|p + c| - |w|..] == w;
  }

  /** The n-grams of a batch, from slot `i` to the end of the window, are
    * exactly the n-grams of the stream read so far that are not yet done. */
  lemma WalkBatch(m: Mode, all: seq<nat>, rest: seq<nat>, p: seq<nat>, c: seq<nat>,
                  w: seq<nat>, i: nat, done: seq<u16>)
    requires Walk(m, all, rest, p, c, w, i, done)
    ensures done + Ngrams(m, w[i..]) == Ngrams(m, c)
  {
    var j := |c| - |w| + i;
    WindowTail(w, p, c, i);
    NgramsSuffix(m, c, j);
    assert Ngrams(m, c) == Ngrams(m, c)[..j] + Ngrams(m, c)[j..];
  }

  /** Counting a batch from slot `i` on completes the counts of the stream
    * read so far. */
  lemma WalkCount(m: Mode, all: seq<nat>, rest: seq<nat>, p: seq<nat>, c: seq<nat>,
                  w: seq<nat>, i: nat, done: seq<u16>, t0: seq<u16>)
    requires Walk(m, all, rest, p, c, w, i, done) && |t0| == MapSize
    ensures Bump(Bump(t0, done), Ngrams(m, w[i..])) == Bump(t0, Ngrams(m, c))
  {
    WalkBatch(m, all, rest, p, c, w, i, done);
    Compose(t0, done, Ngrams(m, w[i..]), 0);
  }

  /** Scanning a batch from slot `i` on completes the touched list, the
    * decrements and the distance of the stream read so far. */
  lemma WalkScan(m: Mode, all: seq<nat>, rest: seq<nat>, p: seq<nat>, c: seq<nat>,
                 w: seq<nat>, i: nat, done: seq<u16>, t0: seq<u16>, d0: int)
    requires Walk(m, all, rest, p, c, w, i, done) && |t0| == MapSize
    ensures done + Ngrams(m, w[i..]) == Ngrams(m, c)
    ensures Drop(Drop(t0, done), Ngrams(m, w[i..])) == Drop(t0, Ngrams(m, c))
    ensures ScanDistance(Drop(t0, done), Ngrams(m, w[i..]), ScanDistance(t0, done, d0)) == ScanDistance(t0, Ngrams(m, c), d0)
  {
    WalkBatch(m, all, rest, p, c, w, i, done);
    Compose(t0, done, Ngrams(m, w[i..]), d0);
  }

  /** After a full batch, a read that moves the window's last N - 1 slots to
    * the front and appends the next code points `d` starts the next batch
    * at slot 0, every n-gram of `c` being done. */
  lemma WalkRead(m: Mode, all: seq<nat>, rest: seq<nat>, rest': seq<nat>, p: seq<nat>,
                 c: seq<nat>, w: seq<nat>, w': seq<nat>, d: seq<nat>)
    requires all == c + rest && |p| == N(m) - 1 && |w| == Padding && Window(w, p + c)
    requires |w'| <= Padding && w' == w[|w| - (N(m) - 1)..] + d
    requires rest == d + rest' && (rest' != [] ==> |w'| == Padding)
    ensures Walk(m, all, rest', p, c + d, w', 0, Ngrams(m, c))
  {
    var k := N(m) - 1;
    WindowAdvance(w, p + c, k, d);
    assert p + c + d == p + (c + d);
    assert all == (c + d) + rest';
    NgramsPrefix(m, c, d);
  }

  /** The touched list after one more hash of the batch. */
  lemma AppendNext(a: seq<u16>, b: seq<u16>, k: nat)
    requires k < |b|
    ensures a + b[..k + 1] == a + b[..k] + [b[k]]
  {
    assert b[..k + 1] == b[..k] + [b[k]];
    assert a + (b[..k] + [b[k]]) == a + b[..k] + [b[k]];
  }

  /** The `read_code_points` call in the condition of the batch loop, taken
    * when input remains: the walk goes on with the next batch `d`. */
  method Advance(m: Mode, cp: array<nat>, data: seq<byte>, pos: nat, end: nat,
                 ghost all: seq<nat>, ghost p: seq<nat>, ghost c: seq<nat>)
    returns (found: nat, pos': nat, ghost d: seq<nat>)
    requires cp.Length == Padding + N(m) - 1
    requires pos < end && end + Padding <= |data|
    requires all == c + Codepoints(m, data, pos, end) && |p| == N(m) - 1
    requires Window(cp[..Padding], p + c)
    modifies cp
    ensures N(m) - 1 <= found <= Padding && |d| == found - (N(m) - 1)
    ensures Walk(m, all, Codepoints(m, data, pos', end), p, c + d, cp[..found], 0, Ngrams(m, c))
    ensures pos < pos'
  {
    ghost var w := cp[..Padding];
    ghost var rest := Codepoints(m, data, pos, end);
    found, pos' := Read(m, cp, data, pos, end);
    d := cp[N(m) - 1..found];
    WalkRead(m, all, rest, Codepoints(m, data, pos', end), p, c, w, cp[..found], d);
  }

  /** The first `read_code_points` call of both walks: its batch starts at
    * slot N - 1, the slots before it (`p`) holding no code points yet. */
  method FirstRead(m: Mode, cp: array<nat>, data: seq<byte>, start: nat, end: nat)
    returns (found: nat, pos: nat, ghost p: seq<nat>, ghost c: seq<nat>)
    requires cp.Length == Padding + N(m) - 1
    requires start <= end && end + Padding <= |data|
    modifies cp
    ensures N(m) - 1 <= found <= Padding
    ensures Walk(m, Codepoints(m, data, start, end), Codepoints(m, data, pos, end), p, c, cp[..found], N(m) - 1, [])
  {
    found, pos := Read(m, cp, data, start, end);
    p, c := cp[..N(m) - 1], cp[N(m) - 1..found];
    WalkStart(m, Codepoints(m, data, start, end), Codepoints(m, data, pos, end), p, c, cp[..found]);
  }

  /** The inner `for` of `calculateNeedleStats`: `++ngram_stats[hash]` for
    * the n-gram at every slot of the window `w` from `i0` on while it fits.
    * The window is only read here, so it is passed by value. */
  method CountBatch(m: Mode, w: seq<nat>, i0: nat, stats: array<u16>)
    requires i0 <= |w| && stats.Length == MapSize
    modifies stats
    ensures stats[..] == Bump(old(stats[..]), Ngrams(m, w[i0..]))
  {
    var n := N(m);
    ghost var b := Ngrams(m, w[i0..]);
    ghost var t := stats[..];
    var i := i0;
    while i + n <= |w|
      invariant i0 <= i && i - i0 <= |b|
      invariant stats[..] == Bump(t, b[..i - i0])
    {
      ghost var k := i - i0;
      var h := Hash(m, w[i..i + n]);
      NgramOfSuffix(m, w, i0, i);
      BumpNext(t, b, k);
      stats[h] := Inc16(stats[h]);
      i := i + 1;
    }
    assert b[..i - i0] == b;
  }

  /** The body of `calculateNeedleStats` after its size guard: the window
    * `cp`, the first read, then the do-while loop that counts each batch and
    * reads the next while input remains. Returns the source's `len`, the
    * code point count minus N - 1. */
  method CountStream(m: Mode, data: seq<byte>, start: nat, end: nat, stats: array<u16>)
    returns (len: int)
    requires stats.Length == MapSize
    requires start <= end && end + Padding <= |data|
    modifies stats
    ensures stats[..] == Bump(old(stats[..]), Ngrams(m, Codepoints(m, data, start, end)))
    ensures len == |Codepoints(m, data, start, end)| - N(m) + 1
  {
    var n := N(m);
    ghost var all := Codepoints(m, data, start, end);
    ghost var t0 := stats[..];
    var cp := new nat[Padding + n - 1](_ => 0);
    var found, pos, p, c := FirstRead(m, cp, data, start, end);
    ghost var done: seq<u16> := [];
    var i: nat := n - 1;
    len := 1 - n;
    assert stats[..] == t0 == Bump(t0, done);
    while true
      invariant n - 1 <= found <= Padding
      invariant Walk(m, all, Codepoints(m, data, pos, end), p, c, cp[..found], i, done)
      invariant stats[..] == Bump(t0, done)
      invariant len == |c| - found
      decreases if pos <= end then end - pos else 0
    {
      len := len + found - n + 1;
      WalkCount(m, all, Codepoints(m, data, pos, end), p, c, cp[..found], i, done, t0);
      CountBatch(m, cp[..found], i, stats);
      done := Ngrams(m, c);
      i := 0;
      // The source's loop condition also stops on a read that finds nothing;
      // a read at `pos < end` always finds a new code point (see `Read`).
      if pos >= end {
        assert Codepoints(m, data, pos, end) == [] && all == c;
        break;
      }
      ghost var d;
      found, pos, d := Advance(m, cp, data, pos, end, all, p, c);
      c := c + d;
    }
  }

  /** `calculateNeedleStats`: add one to the counter of every n-gram of
    * `data[start..start + size]`. Returns the source's `len`, computed as
    * an unbounded integer: 0 for fewer than N bytes, otherwise the code
    * point count minus N - 1, which is negative when a needle of at least N
    * bytes has fewer than N - 1 code points (see `Driver.NeedleCountOf`). */
  method CalculateNeedleStats(m: Mode, data: seq<byte>, start: nat, size: nat, stats: array<u16>)
    returns (len: int)
    requires stats.Length == MapSize
    requires start + size + Padding <= |data|
    modifies stats
    ensures stats[..] == Bump(old(stats[..]), Ngrams(m, Codepoints(m, data, start, start + size)))
    ensures len == if size < N(m) then 0 else |Codepoints(m, data, start, start + size)| - N(m) + 1
  {
    if size < N(m) {
      CodepointsLength(m, data, start, start + size);
      assert Ngrams(m, Codepoints(m, data, start, start + size)) == [];
      return 0;
    }
    len := CountStream(m, data, start, start + size, stats);
  }

  /** The inner `for` of `calculateHaystackStatsAndMetric`: for the n-gram at
    * every slot of the window `w` from `i0` on while it fits, apply the ±1
    * rule, append its hash to the touched list and `--ngram_stats[hash]`. */
  method ScanBatch(m: Mode, w: seq<nat>, i0: nat, stats: array<u16>,
                   storage: seq<u16>, distance: int)
    returns (storage': seq<u16>, distance': int)
    requires i0 <= |w| && stats.Length == MapSize
    modifies stats
    ensures storage' == storage + Ngrams(m, w[i0..])
    ensures stats[..] == Drop(old(stats[..]), Ngrams(m, w[i0..]))
    ensures distance' == ScanDistance(old(stats[..]), Ngrams(m, w[i0..]), distance)
  {
    var n := N(m);
    ghost var b := Ngrams(m, w[i0..]);
    ghost var t := stats[..];
    storage', distance' := storage, distance;
    var i := i0;
    while i + n <= |w|
      invariant i0 <= i && i - i0 <= |b|
      invariant storage' == storage + b[..i - i0]
      invariant stats[..] == Drop(t, b[..i - i0])
      invariant distance' == ScanDistance(t, b[..i - i0], distance)
    {
      ghost var k := i - i0;
      var h := Hash(m, w[i..i + n]);
      NgramOfSuffix(m, w, i0, i);
      DropNext(t, b, k, distance);
      AppendNext(storage, b, k);
      if Signed16(stats[h]) > 0 {
        distance' := distance' - 1;
      } else {
        distance' := distance' + 1;
      }
      storage' := storage' + [h];
      stats[h] := Dec16(stats[h]);
      i := i + 1;
    }
    assert b[..i - i0] == b;
  }

  /** The closing loop of `calculateHaystackStatsAndMetric`:
    * `++ngram_stats[ngram_storage[i]]` for every touched bucket, in order. */
  method Restore(stats: array<u16>, storage: seq<u16>)
    requires stats.Length == MapSize
    modifies stats
    ensures stats[..] == Bump(old(stats[..]), storage)
  {
    ghost var t := stats[..];
    var k := 0;
    while k < |storage|
      invariant 0 <= k <= |storage|
      invariant stats[..] == Bump(t, storage[..k])
    {
      BumpNext(t, storage, k);
      stats[storage[k]] := Inc16(stats[storage[k]]);
      k := k + 1;
    }
    assert storage[..k] == storage;
  }

  /** One batch of the comparator's walk: scanning the window from slot `i`
    * on brings the touched list, the table and the distance up to date
    * with the stream read so far. */
  method ScanRound(m: Mode, ghost all: seq<nat>, ghost rest: seq<nat>, ghost p: seq<nat>, ghost c: seq<nat>,
                   w: seq<nat>, i: nat, stats: array<u16>, storage: seq<u16>, distance: int,
                   ghost t0: seq<u16>, ghost d0: int)
    returns (storage': seq<u16>, distance': int)
    requires Walk(m, all, rest, p, c, w, i, storage)
    requires stats.Length == MapSize && |t0| == MapSize
    requires stats[..] == Drop(t0, storage) && distance == ScanDistance(t0, storage, d0)
    modifies stats
    ensures storage' == Ngrams(m, c)
    ensures stats[..] == Drop(t0, storage')
    ensures distance' == ScanDistance(t0, storage', d0)
  {
    WalkScan(m, all, rest, p, c, w, i, storage, t0, d0);
    storage', distance' := ScanBatch(m, w, i, stats, storage, distance);
  }

  /** One turn of the comparator's do-while loop: scan the batch from slot
    * `i` on, then, if input remains, read the next batch. */
  method ScanStep(m: Mode, cp: array<nat>, data: seq<byte>, pos: nat, end: nat, found: nat,
                  ghost all: seq<nat>, ghost p: seq<nat>, ghost c: seq<nat>, i: nat,
                  stats: array<u16>, storage: seq<u16>, distance: int, ghost t0: seq<u16>, ghost d0: int)
    returns (more: bool, found': nat, pos': nat, ghost c': seq<nat>, storage': seq<u16>, distance': int)
    requires cp.Length == Padding + N(m) - 1 && stats.Length == MapSize && |t0| == MapSize
    requires end + Padding <= |data| && N(m) - 1 <= found <= Padding
    requires Walk(m, all, Codepoints(m, data, pos, end), p, c, cp[..found], i, storage)
    requires stats[..] == Drop(t0, storage) && distance == ScanDistance(t0, storage, d0)
    modifies cp, stats
    ensures stats[..] == Drop(t0, storage') && distance' == ScanDistance(t0, storage', d0)
    ensures !more ==> storage' == Ngrams(m, all)
    ensures N(m) - 1 <= found' <= Padding
    ensures more ==> pos < end && pos < pos'
    ensures more ==> Walk(m, all, Codepoints(m, data, pos', end), p, c', cp[..found'], 0, storage')
  {
    storage', distance' := ScanRound(m, all, Codepoints(m, data, pos, end), p, c, cp[..found], i,
                                     stats, storage, distance, t0, d0);
    if pos >= end {
      assert Codepoints(m, data, pos, end) == [] && all == c;
      return false, found, pos, c, storage', distance';
    }
    ghost var d;
    found', pos', d := Advance(m, cp, data, pos, end, all, p, c);
    c' := c + d;
    more := true;
  }

  /** The body of `calculateHaystackStatsAndMetric` up to its closing loop
    * (apart from the touched list's buffer choice): the window `cp`, the
    * first read, then the do-while loop that scans each batch and reads
    * the next while input remains. Returns the touched
    * list, which is every n-gram of the stream in order, and the distance. */
  method ScanStream(m: Mode, data: seq<byte>, start: nat, end: nat,
                    stats: array<u16>, distance: int)
    returns (storage: seq<u16>, distance': int)
    requires stats.Length == MapSize
    requires start <= end && end + Padding <= |data|
    modifies stats
    ensures storage == Ngrams(m, Codepoints(m, data, start, end))
    ensures stats[..] == Drop(old(stats[..]), storage)
    ensures distance' == ScanDistance(old(stats[..]), storage, distance)
  {
    var n := N(m);
    ghost var all := Codepoints(m, data, start, end);
    ghost var t0 := stats[..];
    var cp := new nat[Padding + n - 1](_ => 0);
    var found, pos, p, c := FirstRead(m, cp, data, start, end);
    var i: nat := n - 1;
    storage, distance' := [], distance;
    var more := true;
    assert stats[..] == t0 == Drop(t0, storage);
    while more
      invariant n - 1 <= found <= Padding
      invariant more ==> Walk(m, all, Codepoints(m, data, pos, end), p, c, cp[..found], i, storage)
      invariant !more ==> storage == Ngrams(m, all)
      invariant stats[..] == Drop(t0, storage)
      invariant distance' == ScanDistance(t0, storage, distance)
      decreases more, if pos <= end then end - pos else 0
    {
      more, found, pos, c, storage, distance' := ScanStep(m, cp, data, pos, end, found, all, p, c, i,
                                                           stats, storage, distance', t0, distance);
      i := 0;
    }
  }

  /** `calculateHaystackStatsAndMetric`: for every n-gram hash `h` of
    * `data[start..start + size]`, in order, move the distance by -1 if the
    * counter of `h` reads positive as an Int16 and by +1 otherwise, record
    * `h` in the touched list and decrement the counter; then re-increment
    * every touched counter. Returns the number of n-grams and the distance;
    * the table is left exactly as it was found. */
  method CalculateHaystackStatsAndMetric(m: Mode, data: seq<byte>, start: nat, size: nat,
                                         stats: array<u16>, distance: int)
    returns (cnt: nat, distance': int)
    requires stats.Length == MapSize
    requires start + size + Padding <= |data|
    modifies stats
    ensures stats[..] == old(stats[..])
    ensures cnt == |Ngrams(m, Codepoints(m, data, start, start + size))| && cnt <= size
    ensures distance' == ScanDistance(old(stats[..]), Ngrams(m, Codepoints(m, data, start, start + size)), distance)
  {
    ghost var t0 := stats[..];
    var storage;
    storage, distance' := ScanStream(m, data, start, start + size, stats, distance);
    cnt := |storage|;
    CodepointsLength(m, data, start, start + size);
    Restore(stats, storage);
    RestoreExact(t0, storage);
  }
}
