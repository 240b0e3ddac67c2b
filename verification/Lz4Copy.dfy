/** The copy macros: eight bytes at a time, past the end, and over themselves. Line numbers are those of
    memapass/lz4.c. */
module Lz4Copy {
  import opened Bytes
  import opened Lz4Format

  /** `dest[..end]` is what `dest[..op]` was, followed by `bytes`. */
  twostate predicate Appended(dest: array<byte>, op: nat, end: nat, bytes: seq<byte>)
    reads dest
  {
    && op <= end <= dest.Length
    && dest[..end] == old(dest[..op]) + bytes
  }

  /** The part of `dest` from `limit` on is untouched. */
  twostate predicate KeptFrom(dest: array<byte>, limit: nat)
    reads dest
  {
    forall k :: limit <= k < dest.Length ==> dest[k] == old(dest[k])
  }

  /** The part of `dest` before `limit` is untouched. */
  twostate predicate KeptBelow(dest: array<byte>, limit: nat)
    reads dest
  {
    forall k :: 0 <= k < limit && k < dest.Length ==> dest[k] == old(dest[k])
  }

  /** `s` with `bytes` in place of what stands at `op`. */
  function Laid(s: seq<byte>, op: nat, bytes: seq<byte>): (r: seq<byte>)
    requires op + |bytes| <= |s|
    ensures |r| == |s|
  {
    s[..op] + bytes + s[op + |bytes|..]
  }

  /** How many bytes a copy of `length` in steps of eight touches; the first step is unconditional. */
  function Stepped(length: nat): (r: nat)
    ensures length <= r <= length + COPYLENGTH && COPYLENGTH <= r
  {
    if length == 0 then COPYLENGTH else (length + 7) / 8 * 8
  }

  /** `LZ4_WILDCOPY` from the input, then the correction to the exact end (`LZ4_BLINDCOPY`). */
  method WildCopy(source: seq<byte>, from: nat, dest: array<byte>, op: nat, length: nat, ghost limit: nat)
    returns (end: nat)
    requires from + Stepped(length) <= |source|
    requires op + length + COPYLENGTH <= limit <= dest.Length
    modifies dest
    ensures Appended(dest, op, end, source[from..from + length])
    ensures KeptFrom(dest, limit)
    ensures dest[..] == Laid(old(dest[..]), op, source[from..from + Stepped(length)])
  {
    hide Laid;
    ghost var before := dest[..];
    WildSteps(source, from, dest, op, length);
    end := op + length;
    LaidMeans(before, op, source[from..from + Stepped(length)], length);
    assert source[from..from + Stepped(length)][..length] == source[from..from + length];
    PrefixOf(dest, end);
    assert before[..op] == old(dest[..op]);
  }

  /** `LZ4_WILDCOPY` itself. */
  method WildSteps(source: seq<byte>, from: nat, dest: array<byte>, op: nat, length: nat)
    requires from + Stepped(length) <= |source| && op + length + COPYLENGTH <= dest.Length
    modifies dest
    ensures dest[..] == Laid(old(dest[..]), op, source[from..from + Stepped(length)])
  {
    hide Laid;
    var end := op + length;
    var s, d := from, op;
    ghost var before := dest[..];
    NothingLaid(before, op);
    assert source[from..from] == [];
    while true
      invariant from <= s && d - op == s - from
      invariant (s - from) % 8 == 0
      invariant s < from + length || s == from
      invariant dest[..] == Laid(before, op, source[from..s])
      decreases end - d
    {
      CopyStep(source, s, dest, d);
      LaidMore(before, op, source[from..s], source[s..s + 8]);
      Slices(source, from, s);
      s, d := s + 8, d + 8;
      if d >= end { break; }
    }
  }

  lemma Slices(source: seq<byte>, from: nat, s: nat)
    requires from <= s && s + 8 <= |source|
    ensures source[from..s] + source[s..s + 8] == source[from..s + 8]
  {}

  lemma PrefixOf(a: array<byte>, n: nat)
    requires n <= a.Length
    ensures a[..][..n] == a[..n]
  {}

  /** `LZ4_COPYSTEP` from the input. */
  method CopyStep(source: seq<byte>, s: nat, dest: array<byte>, d: nat)
    requires s + 8 <= |source| && d + 8 <= dest.Length
    modifies dest
    ensures dest[..] == Laid(old(dest[..]), d, source[s..s + 8])
  {
    forall k | 0 <= k < 8 { dest[d + k] := source[s + k]; }
  }

  lemma NothingLaid(s: seq<byte>, op: nat)
    requires op <= |s|
    ensures Laid(s, op, []) == s
  {}

  lemma LaidMore(s: seq<byte>, op: nat, a: seq<byte>, b: seq<byte>)
    requires op + |a| + |b| <= |s|
    ensures Laid(Laid(s, op, a), op + |a|, b) == Laid(s, op, a + b)
  {}

  lemma LaidMeans(s: seq<byte>, op: nat, bytes: seq<byte>, n: nat)
    requires op + |bytes| <= |s| && n <= |bytes|
    ensures Laid(s, op, bytes)[..op + n] == s[..op] + bytes[..n]
    ensures forall k :: op + |bytes| <= k < |s| ==> Laid(s, op, bytes)[k] == s[k]
  {}

  /** `memcpy` of literals. */
  method CopyLiterals(source: seq<byte>, from: nat, dest: array<byte>, op: nat, length: nat) returns (end: nat)
    requires from + length <= |source| && op + length <= dest.Length
    modifies dest
    ensures Appended(dest, op, end, source[from..from + length]) && end == op + length
    ensures KeptFrom(dest, end)
    ensures dest[..] == Laid(old(dest[..]), op, source[from..from + length])
  {
    forall k | 0 <= k < length { dest[op + k] := source[from + k]; }
    end := op + length;
  }

  // ---------- matches over themselves ----------

  /** The table `dec`, line 705. */
  function Dec(offset: nat): nat
    requires offset < 8
  {
    [0, 3, 2, 3, 0, 0, 0, 0][offset]
  }

  /** The table `dec2table`, line 737. */
  function Dec2(offset: nat): int
    requires offset < 8
  {
    [0, 0, 0, -1, 0, 1, 2, 3][offset]
  }

  /** The distance the step copy works at, once the first eight bytes are there. */
  function StepDistance(offset: nat): (distance: nat)
    ensures distance <= offset + 8
  {
    if offset < 8 then offset + Dec(offset) + 4 + Dec2(offset) else offset
  }

  /** The distances the two jumps of `ref` make are multiples of the offset, at least four and at least eight, and
      stay inside the bytes written so far. */
  lemma DistancesAreMultiples(offset: nat)
    requires offset >= 1
    ensures 8 <= StepDistance(offset) < offset + 8 && IsMultiple(StepDistance(offset), offset, 8)
    ensures offset < 8 ==> 4 <= offset + Dec(offset) < offset + 4 && IsMultiple(offset + Dec(offset), offset, 4)
  {
    if offset < 8 {
      var second := [1, 4, 2, 2, 1, 1, 1, 1][offset];
      var step := [1, 8, 4, 3, 2, 2, 2, 2][offset];
      assert offset + Dec(offset) == second * offset && StepDistance(offset) == step * offset by {
        assert offset == 1 || offset == 2 || offset == 3 || offset == 4 || offset == 5 || offset == 6 || offset == 7;
      }
    } else {
      assert StepDistance(offset) == 1 * offset;
    }
  }

  /** `distance` is a whole number of offsets that fits behind `written` bytes of the match. */
  ghost predicate IsMultiple(distance: nat, offset: nat, written: nat) {
    && offset <= distance <= offset + written
    && (distance == offset || offset <= written)
    && exists factor: nat :: distance == factor * offset
  }

  lemma {:induction false} Hops(s: seq<byte>, from: nat, to: nat, d: nat, p: nat, hops: nat)
    requires 1 <= d <= from && to <= |s| && Repeats(s, from, to, d)
    requires from <= p < to && p - hops * d >= from - d
    ensures s[p] == s[p - hops * d]
    decreases hops
  {
    if hops > 0 {
      assert hops * d == (hops - 1) * d + d;
      if hops > 1 {
        assert (hops - 1) * d >= d;
        Hops(s, from, to, d, p - d, hops - 1);
      }
    }
  }

  /** One step of `n` bytes, read before they are written, carries the period on. */
  lemma StepKeepsPeriod(a: seq<byte>, b: seq<byte>, from: nat, to: nat, offset: nat, distance: nat, n: nat)
    requires 1 <= offset <= from <= to && n <= distance && to + n <= |a| == |b|
    requires IsMultiple(distance, offset, to - from)
    requires Repeats(a, from, to, offset)
    requires b[..to] == a[..to]
    requires forall k :: to <= k < to + n ==> b[k] == a[k - distance]
    ensures Repeats(b, from, to + n, offset)
  {
    var factor: nat :| distance == factor * offset;
    forall k | from <= k < to + n
      ensures b[k] == b[k - offset]
    {
      if k < to {
        assert b[k] == b[..to][k] && b[k - offset] == b[..to][k - offset];
      } else if k - offset >= to {
        assert a[k - distance] == a[k - distance - offset];
      } else if distance != offset {
        assert factor * offset - offset == (factor - 1) * offset;
        Hops(a, from, to, offset, k - offset, factor - 1);
        assert b[k - offset] == b[..to][k - offset];
      } else {
        assert b[k - offset] == b[..to][k - offset];
      }
    }
  }

  /** The match bytes in `s[from..to]` are right so far, and reading `distance` back keeps them right. */
  ghost predicate Carries(s: seq<byte>, from: nat, to: nat, offset: nat, distance: nat) {
    && 1 <= offset <= from <= to <= |s|
    && IsMultiple(distance, offset, to - from)
    && Repeats(s, from, to, offset)
  }

  // ---------- what the copies leave, for any offset ----------

  /** `n` bytes are read `distance` back and then written. */
  function Moved(s: seq<byte>, op: nat, distance: nat, n: nat): (r: seq<byte>)
    requires distance <= op && op + n <= |s|
    ensures |r| == |s|
  {
    Laid(s, op, s[op - distance..op - distance + n])
  }

  /** Byte by byte up to `end`. */
  function MovedBytes(s: seq<byte>, op: nat, distance: nat, end: nat): (r: seq<byte>)
    requires distance <= op <= end <= |s|
    ensures |r| == |s|
    decreases end - op
  {
    if op == end then s else MovedBytes(Moved(s, op, distance, 1), op + 1, distance, end)
  }

  /** Eight bytes at a time, until `end` is reached. */
  function MovedSteps(s: seq<byte>, op: nat, distance: nat, end: int): (r: seq<byte>)
    requires distance <= op && end + COPYLENGTH <= |s|
    ensures |r| == |s|
    decreases end - op
  {
    if op >= end then s else MovedSteps(Moved(s, op, distance, 8), op + 8, distance, end)
  }

  /** Where that leaves the cursor. */
  function StepsEnd(op: nat, end: int): (r: nat)
    ensures op <= r && r >= end && (r == op || r < end + COPYLENGTH)
    decreases end - op
  {
    if op >= end then op else StepsEnd(op + 8, end)
  }

  function FirstEightLeft(s: seq<byte>, from: nat, offset: nat): (r: seq<byte>)
    requires offset <= from && from + 8 <= |s|
    ensures |r| == |s|
  {
    if offset < 8
    then Moved(MovedBytes(s, from, offset, from + 4), from + 4, offset + Dec(offset), 4)
    else Moved(s, from, offset, 8)
  }

  /** The rest of a match that fits, after its first eight bytes. */
  function MatchEnd(s: seq<byte>, from: nat, distance: nat, n: nat, oend: nat): (r: seq<byte>)
    requires distance <= from + 8 && from + n <= oend <= |s| && from + COPYLENGTH <= oend
    ensures |r| == |s|
  {
    var cpy := from + n;
    if cpy > oend - COPYLENGTH then
      var op, stepped := StepsEnd(from + 8, oend - COPYLENGTH), MovedSteps(s, from + 8, distance, oend - COPYLENGTH);
      if op < cpy then MovedBytes(stepped, op, distance, cpy) else stepped
    else MovedSteps(s, from + 8, distance, cpy)
  }

  /** The whole output after a match that fits. An offset of zero leaves the first eight bytes as they were and goes on at
      a distance of four. */
  function MatchLeft(s: seq<byte>, from: nat, offset: nat, n: nat, oend: nat): (r: seq<byte>)
    requires offset <= from && from + n <= oend <= |s| && from + COPYLENGTH <= oend
    ensures |r| == |s|
  {
    MatchEnd(FirstEightLeft(s, from, offset), from, StepDistance(offset), n, oend)
  }

  /** What one copy of a block leaves where. */
  lemma MovedPlace(s: seq<byte>, op: nat, distance: nat, n: nat)
    requires distance <= op && op + n <= |s|
    ensures var r := Moved(s, op, distance, n);
            && r[..op] == s[..op]
            && (forall k :: 0 <= k < op || op + n <= k < |s| ==> r[k] == s[k])
            && forall k :: op <= k < op + n ==> r[k] == s[k - distance]
  {}

  /** Outside `from..to` the two are the same. */
  ghost predicate SameOutside(a: seq<byte>, b: seq<byte>, from: nat, to: nat) {
    |a| == |b| && forall k :: 0 <= k < |a| && (k < from || to <= k) ==> a[k] == b[k]
  }

  lemma {:induction false} BytesCarry(s: seq<byte>, op: nat, distance: nat, end: nat, from: nat, offset: nat)
    requires distance <= op <= end <= |s|
    ensures SameOutside(s, MovedBytes(s, op, distance, end), op, end)
    ensures Carries(s, from, op, offset, distance)
            ==> Carries(MovedBytes(s, op, distance, end), from, end, offset, distance)
    decreases end - op
  {
    hide Moved;
    if op < end {
      ChunkCarries(s, op, distance, 1, from, offset);
      BytesCarry(Moved(s, op, distance, 1), op + 1, distance, end, from, offset);
    }
  }

  lemma {:induction false} StepsCarry(s: seq<byte>, op: nat, distance: nat, end: int, from: nat, offset: nat)
    requires distance <= op <= |s| && end + COPYLENGTH <= |s|
    ensures SameOutside(s, MovedSteps(s, op, distance, end), op, StepsEnd(op, end)) && StepsEnd(op, end) <= |s|
    ensures distance >= 8 && Carries(s, from, op, offset, distance)
            ==> Carries(MovedSteps(s, op, distance, end), from, StepsEnd(op, end), offset, distance)
    decreases end - op
  {
    hide Moved;
    if op < end {
      ChunkCarries(s, op, distance, 8, from, offset);
      StepsCarry(Moved(s, op, distance, 8), op + 8, distance, end, from, offset);
    }
  }

  /** A block read before it is written carries the period on. */
  lemma ChunkCarries(s: seq<byte>, op: nat, distance: nat, n: nat, from: nat, offset: nat)
    requires distance <= op && op + n <= |s|
    ensures SameOutside(s, Moved(s, op, distance, n), op, op + n)
    ensures n <= distance && Carries(s, from, op, offset, distance)
            ==> Carries(Moved(s, op, distance, n), from, op + n, offset, distance)
  {
    hide Moved;
    MovedPlace(s, op, distance, n);
    if n <= distance && Carries(s, from, op, offset, distance) {
      StepKeepsPeriod(s, Moved(s, op, distance, n), from, op, offset, distance, n);
    }
  }

  lemma FirstEightCarries(s: seq<byte>, from: nat, offset: nat)
    requires offset <= from && from + 8 <= |s|
    ensures SameOutside(s, FirstEightLeft(s, from, offset), from, from + 8)
    ensures offset >= 1 ==> Carries(FirstEightLeft(s, from, offset), from, from + 8, offset, StepDistance(offset))
  {
    hide Moved;
    hide MovedBytes;
    hide Repeats;
    if offset >= 1 {
      DistancesAreMultiples(offset);
      assert Carries(s, from, from, offset, offset) by { StartCarries(s, from, offset); }
    }
    if offset < 8 {
      BytesCarry(s, from, offset, from + 4, from, offset);
      ChunkCarries(MovedBytes(s, from, offset, from + 4), from + 4, offset + Dec(offset), 4, from, offset);
    } else {
      ChunkCarries(s, from, offset, 8, from, offset);
    }
  }

  lemma StartCarries(s: seq<byte>, from: nat, offset: nat)
    requires 1 <= offset <= from <= |s|
    ensures Carries(s, from, from, offset, offset)
  {
    assert offset == 1 * offset;
  }

  /** Up to where the copies of a match of `n` bytes write. */
  function MatchReach(from: nat, n: nat, oend: nat): (r: nat)
    ensures r <= oend && r <= from + n + COPYLENGTH
  {
    if from + n + COPYLENGTH > oend then oend else from + n + COPYLENGTH
  }

  lemma MatchEndCarries(s: seq<byte>, from: nat, distance: nat, n: nat, oend: nat, offset: nat)
    requires distance <= from + 8 && MINMATCH <= n && from + n <= oend <= |s| && from + COPYLENGTH <= oend
    ensures SameOutside(s, MatchEnd(s, from, distance, n, oend), from + 8, MatchReach(from, n, oend))
    ensures distance >= 8 && Carries(s, from, from + 8, offset, distance)
            ==> CopyMatch(s[..from], offset, n) == MatchEnd(s, from, distance, n, oend)[..from + n]
  {
    hide MovedSteps;
    hide MovedBytes;
    hide StepsEnd;
    hide Carries;
    hide CopyMatch;
    var end := if from + n > oend - COPYLENGTH then oend - COPYLENGTH else from + n;
    var op, stepped := StepsEnd(from + 8, end), MovedSteps(s, from + 8, distance, end);
    var r := MatchEnd(s, from, distance, n, oend);
    StepsCarry(s, from + 8, distance, end, from, offset);
    if op < from + n { BytesCarry(stepped, op, distance, from + n, from, offset); }
    if distance >= 8 && Carries(s, from, from + 8, offset, distance) {
      CarriedMatch(r, from, if op < from + n then from + n else op, offset, distance, n);
      assert r[..from] == s[..from];
    }
  }

  lemma CarriedMatch(s: seq<byte>, from: nat, to: nat, offset: nat, distance: nat, n: nat)
    requires Carries(s, from, to, offset, distance) && from + n <= to
    ensures CopyMatch(s[..from], offset, n) == s[..from + n]
  {
    CopyMatchIsPeriodic(s, from, offset, n);
  }

  /** A match writes only its bytes and up to eight more, and at a legal offset the bytes are those of the byte-wise
      copy. */
  lemma MatchLeftIsCopy(s: seq<byte>, from: nat, offset: nat, n: nat, oend: nat)
    requires offset <= from && MINMATCH <= n && from + n <= oend <= |s| && from + COPYLENGTH <= oend
    ensures SameOutside(s, MatchLeft(s, from, offset, n, oend), from, MatchReach(from, n, oend))
    ensures offset >= 1 ==> MatchLeft(s, from, offset, n, oend)[..from + n] == CopyMatch(s[..from], offset, n)
  {
    hide FirstEightLeft;
    hide MatchEnd;
    hide Carries;
    hide CopyMatch;
    hide StepDistance;
    var first := FirstEightLeft(s, from, offset);
    FirstEightCarries(s, from, offset);
    MatchEndCarries(first, from, StepDistance(offset), n, oend, offset);
    if offset >= 1 {
      DistancesAreMultiples(offset);
      assert first[..from] == s[..from];
    }
  }

  // ---------- the copies themselves ----------

  /** `n` bytes read at once and then written at once: `A64(op) = A64(ref)` and `A32(op) = A32(ref)`. */
  method CopyChunk(dest: array<byte>, op: nat, distance: nat, n: nat)
    requires distance <= op && op + n <= dest.Length
    modifies dest
    ensures dest[..] == Moved(old(dest[..]), op, distance, n)
  {
    forall k | 0 <= k < n { dest[op + k] := dest[op - distance + k]; }
  }

  /** Byte by byte: `*op++ = *ref++` until `end`. */
  method CopyBytes(dest: array<byte>, op0: nat, distance: nat, end: nat)
    requires distance <= op0 <= end <= dest.Length
    modifies dest
    ensures dest[..] == MovedBytes(old(dest[..]), op0, distance, end)
  {
    hide Moved;
    var op := op0;
    while op < end
      invariant op0 <= op <= end
      invariant MovedBytes(dest[..], op, distance, end) == MovedBytes(old(dest[..]), op0, distance, end)
    {
      CopyChunk(dest, op, distance, 1);
      op := op + 1;
    }
  }

  /** `LZ4_SECURECOPY` inside the output: eight bytes at a time until `end` is reached. */
  method SecureCopy(dest: array<byte>, op0: nat, distance: nat, end: int) returns (op: nat)
    requires distance <= op0 <= dest.Length && end + COPYLENGTH <= dest.Length
    modifies dest
    ensures op == StepsEnd(op0, end)
    ensures dest[..] == MovedSteps(old(dest[..]), op0, distance, end)
  {
    hide Moved;
    op := op0;
    while op < end
      invariant op0 <= op
      invariant StepsEnd(op, end) == StepsEnd(op0, end)
      invariant MovedSteps(dest[..], op, distance, end) == MovedSteps(old(dest[..]), op0, distance, end)
    {
      CopyChunk(dest, op, distance, 8);
      op := op + 8;
    }
  }

  /** Lines 734-749: the first eight bytes of a match, and the distance the step copy goes on with. */
  method FirstEight(dest: array<byte>, from: nat, offset: nat) returns (distance: nat)
    requires offset <= from && from + 8 <= dest.Length
    modifies dest
    ensures distance == StepDistance(offset) <= from + 8
    ensures dest[..] == FirstEightLeft(old(dest[..]), from, offset)
  {
    hide Moved;
    hide MovedBytes;
    if offset < 8 {
      CopyBytes(dest, from, offset, from + 4);
      CopyChunk(dest, from + 4, offset + Dec(offset), 4);
      distance := offset + Dec(offset) + 4 + Dec2(offset);
    } else {
      CopyChunk(dest, from, offset, 8);
      distance := offset;
    }
  }

  /** Lines 750-761: the match from its ninth byte on. */
  method FinishMatch(dest: array<byte>, from: nat, distance: nat, n: nat, oend: nat)
    requires distance <= from + 8 && from + n <= oend <= dest.Length && from + COPYLENGTH <= oend
    modifies dest
    ensures dest[..] == MatchEnd(old(dest[..]), from, distance, n, oend)
  {
    hide MovedSteps;
    hide MovedBytes;
    var op := from + 8;
    var cpy := from + n;
    if cpy > oend - COPYLENGTH {
      op := SecureCopy(dest, op, distance, oend - COPYLENGTH);
      if op < cpy { CopyBytes(dest, op, distance, cpy); }
    } else {
      op := SecureCopy(dest, op, distance, cpy);
    }
  }

  /** Lines 733-761: the whole match of `n` bytes, unless it does not fit, which shows after its first eight bytes.
      Nothing is written before `from` or from `oend` on. */
  method CopyMatchInPlace(dest: array<byte>, from: nat, offset: nat, n: nat, oend: nat) returns (fits: bool)
    requires offset <= from && MINMATCH <= n && from + COPYLENGTH <= oend <= dest.Length
    modifies dest
    ensures KeptBelow(dest, from) && KeptFrom(dest, oend)
    ensures fits <==> from + n <= oend
    ensures fits && offset >= 1 ==> dest[..from + n] == CopyMatch(old(dest[..from]), offset, n)
    ensures fits ==> dest[..] == MatchLeft(old(dest[..]), from, offset, n, oend)
  {
    hide CopyMatch;
    hide FirstEightLeft;
    hide MatchEnd;
    hide StepDistance;
    ghost var before := dest[..];
    FirstEightCarries(before, from, offset);
    var distance := FirstEight(dest, from, offset);
    fits := from + n <= oend;
    if fits {
      FinishMatch(dest, from, distance, n, oend);
      MatchLeftIsCopy(before, from, offset, n, oend);
      assert before[..from] == old(dest[..from]);
      PrefixOf(dest, from + n);
    }
    assert forall k :: 0 <= k < dest.Length ==> dest[k] == dest[..][k] && old(dest[k]) == before[k];
  }
}
