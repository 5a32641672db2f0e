/** The batched code point readers. Each call refills the window `cp` of
  * `Padding + N - 1` slots: it first moves the last N - 1 code points of the
  * previous batch to the front, then reads new code points after them and
  * returns `found`, the number of leading slots that hold valid code points.
  * The cursor `pos` is returned updated. */
module Reader {
  import opened Words
  import opened Decoding

  /** `readASCIICodePoints` (N = 4): copy 4 slots (N - 1 = 3 rounded up to a
    * power of two) to the front, read 16 bytes after them, lower the 13 new
    * slots in case-insensitive mode, advance the cursor by 13. Reading past
    * `end` touches only the caller's padding. */
  method ReadAscii(m: Mode, cp: array<nat>, data: seq<byte>, pos: nat, end: nat) returns (found: nat, pos': nat)
    requires m.Ascii? && cp.Length == Padding + 3
    requires pos <= end && end + Padding <= |data|
    modifies cp
    ensures pos' == pos + 13
    ensures found == if pos' > end then Padding - (pos' - end) else Padding
    ensures cp[..3] == old(cp[13..16])
    ensures forall k :: 3 <= k < cp.Length ==>
      cp[k] == if m.caseInsensitive && k < 16 then ToLower(data[pos + k - 3]) else data[pos + k - 3]
    ensures Codepoints(m, data, pos, end) == cp[3..found] + Codepoints(m, data, pos', end)
  {
    cp[0], cp[1], cp[2], cp[3] := cp[13], cp[14], cp[15], cp[16];
    forall k | 0 <= k < Padding {
      cp[3 + k] := data[pos + k];
    }
    if m.caseInsensitive {
      forall k | 3 <= k < 16 {
        cp[k] := ToLower(cp[k] as byte);
      }
    }
    pos' := pos + 13;
    if pos' > end {
      found := Padding - (pos' - end);
    } else {
      found := Padding;
    }
    var hi := if pos' < end then pos' else end;
    AsciiSplit(m, data, pos, pos', end);
    ghost var run := AsciiRun(m.caseInsensitive, data, pos, hi);
    forall k | 0 <= k < found - 3
      ensures cp[3..found][k] == run[k]
    {
      assert data[pos..hi][k] == data[pos + k];
    }
    assert cp[3..found] == run;
    assert Codepoints(m, data, pos, end) == run + Codepoints(m, data, pos', end);
  }

  /** `readUTF8CodePoints` (N = 3): copy 2 slots to the front, then decode
    * one UTF-8 sequence per slot while the window has room and input
    * remains. */
  method ReadUtf8(m: Mode, cp: array<nat>, data: seq<byte>, pos: nat, end: nat) returns (num: nat, pos': nat)
    requires m.Utf8? && cp.Length == Padding + 2
    requires pos <= end <= |data|
    modifies cp
    ensures cp[..2] == old(cp[14..16])
    ensures forall k :: num <= k < cp.Length ==> cp[k] == old(cp[k])
    ensures 2 <= num <= Padding && pos <= pos' <= end
    ensures pos < end ==> 2 < num && pos < pos'
    ensures num < Padding ==> pos' == end
    ensures Codepoints(m, data, pos, end) == cp[2..num] + Codepoints(m, data, pos', end)
  {
    cp[0], cp[1] := cp[14], cp[15];
    num, pos' := 2, pos;
    ghost var done: seq<nat> := [];
    while num < Padding && pos' < end
      invariant 2 <= num <= Padding && pos <= pos' <= end
      invariant cp[..2] == old(cp[14..16])
      invariant |done| == num - 2 && forall k :: 2 <= k < num ==> cp[k] == done[k - 2]
      invariant forall k :: num <= k < cp.Length ==> cp[k] == old(cp[k])
      invariant (num == 2) == (pos' == pos)
      invariant Codepoints(m, data, pos, end) == done + Codepoints(m, data, pos', end)
      decreases end - pos'
    {
      var length: nat := m.seqLength(data[pos']);
      if pos' + length > end {
        length := end - pos';
      }
      assert length == Utf8Length(m, data, pos', end);
      var res := Utf8Unit(m.caseInsensitive, data, pos', length);
      Utf8Advance(m, data, Codepoints(m, data, pos, end), pos', end, done);
      pos' := pos' + length;
      cp[num] := res;
      num := num + 1;
      done := done + [res];
    }
    assert cp[2..num] == done;
  }

  /** One step of the reference decoding, as the UTF-8 reader performs it:
    * the code points decoded so far grow by the sequence at `q`. */
  lemma Utf8Advance(m: Mode, data: seq<byte>, whole: seq<nat>, q: nat, end: nat, done: seq<nat>)
    requires m.Utf8? && q < end <= |data|
    requires whole == done + Codepoints(m, data, q, end)
    ensures var l := Utf8Length(m, data, q, end);
      whole == (done + [Utf8Unit(m.caseInsensitive, data, q, l)]) + Codepoints(m, data, q + l, end)
  {
    var l := Utf8Length(m, data, q, end);
    var u, rest := Utf8Unit(m.caseInsensitive, data, q, l), Codepoints(m, data, q + l, end);
    assert Codepoints(m, data, q, end) == [u] + rest;
    assert done + ([u] + rest) == (done + [u]) + rest;
  }

  /** `read_code_points` of an instantiation, with the contract both readers
    * share. With K = N - 1: the window `cp[..found]` is the previous
    * window's last K slots followed by the next code points of the stream;
    * a batch is full unless the input is exhausted. */
  method Read(m: Mode, cp: array<nat>, data: seq<byte>, pos: nat, end: nat) returns (found: nat, pos': nat)
    requires cp.Length == Padding + N(m) - 1
    requires pos <= end && end + Padding <= |data|
    modifies cp
    ensures N(m) - 1 <= found <= Padding
    ensures cp[..found] == old(cp[..Padding])[Padding - (N(m) - 1)..] + cp[N(m) - 1..found]
    ensures Codepoints(m, data, pos, end) == cp[N(m) - 1..found] + Codepoints(m, data, pos', end)
    ensures pos < end ==> N(m) - 1 < found && pos < pos'
    ensures pos' < end ==> found == Padding
    ensures pos <= pos'
  {
    if m.Ascii? {
      found, pos' := ReadAscii(m, cp, data, pos, end);
    } else {
      found, pos' := ReadUtf8(m, cp, data, pos, end);
    }
    var k := N(m) - 1;
    assert cp[..found] == cp[..k] + cp[k..found];
  }
}
