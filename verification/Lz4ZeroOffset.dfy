/** What a match at offset zero, which the format forbids and the decoders accept, leaves in the output: where each byte
    comes from, and when all of them are the input's own. Line numbers are those of memapass/lz4.c. */
module Lz4ZeroOffset {
  import opened Bytes
  import opened Lz4Format
  import opened Lz4Copy

  /** Where a byte comes from after the steps of eight from `op` on, at a distance of four: the first step takes the four
      bytes before it twice over its first half; every other step takes four bytes from the second half of the step
      before and four from what stood in its own first half. */
  function StepsFrom(op: nat, end: nat, k: nat): (origin: nat)
    requires op >= 4
    ensures origin <= k && (k < op ==> origin == k) && (k >= op ==> origin >= op - 4)
  {
    if op <= k < StepsEnd(op, end) then (if (k - op) % 8 >= 4 || k < op + 4 then k - 4 else k - 8) else k
  }

  /** Where a byte comes from after single bytes at a distance of four: they repeat the four before them. */
  function BytesFrom(op: nat, end: nat, k: nat): (origin: nat)
    requires op >= 4
    ensures origin <= k && (k < op ==> origin == k) && (k >= op ==> origin >= op - 4)
  {
    if op <= k < end then op - 4 + (k - op) % 4 else k
  }

  /** Up to where the steps of a match of `n` bytes are meant to go (lines 750 and 758). */
  function StepsGoal(from: nat, n: nat, oend: nat): (goal: nat)
    requires from + COPYLENGTH <= oend
  {
    if from + n > oend - COPYLENGTH then oend - COPYLENGTH else from + n
  }

  /** Where a byte of the output comes from after a match at offset zero: bytes before the match, its first eight, and
      those behind the copies stay as they are. */
  function ZeroOrigin(from: nat, n: nat, oend: nat, k: nat): (origin: nat)
    requires from + COPYLENGTH <= oend
    ensures origin <= k && (k < from + 8 ==> origin == k) && (k >= from ==> origin >= from)
  {
    var goal := StepsGoal(from, n, oend);
    StepsFrom(from + 8, goal, BytesFrom(StepsEnd(from + 8, goal), from + n, k))
  }

  lemma {:induction false} StepsAt(s: seq<byte>, op: nat, end: nat, k: nat)
    requires op >= 4 && end + COPYLENGTH <= |s| && k < |s|
    ensures MovedSteps(s, op, 4, end)[k] == s[StepsFrom(op, end, k)]
    decreases end - op
  {
    hide Moved;
    if op < end {
      MovedPlace(s, op, 4, 8);
      StepsAt(Moved(s, op, 4, 8), op + 8, end, k);
    }
  }

  lemma {:induction false} BytesAt(s: seq<byte>, op: nat, end: nat, k: nat)
    requires 4 <= op <= end <= |s| && k < |s|
    ensures MovedBytes(s, op, 4, end)[k] == s[BytesFrom(op, end, k)]
    decreases end - op
  {
    hide Moved;
    if op < end {
      MovedPlace(s, op, 4, 1);
      BytesAt(Moved(s, op, 4, 1), op + 1, end, k);
    }
  }

  lemma KeepsStill(s: seq<byte>, op: nat, n: nat)
    requires op + n <= |s|
    ensures Moved(s, op, 0, n) == s
  {}

  /** At offset zero the first eight bytes stay as they were. */
  lemma FirstEightStill(s: seq<byte>, from: nat)
    requires from + 8 <= |s|
    ensures FirstEightLeft(s, from, 0) == s
  {
    hide Moved;
    KeepsStill(s, from, 1);
    KeepsStill(s, from + 1, 1);
    KeepsStill(s, from + 2, 1);
    KeepsStill(s, from + 3, 1);
    KeepsStill(s, from + 4, 4);
    assert MovedBytes(s, from + 3, 0, from + 4) == s;
    assert MovedBytes(s, from + 2, 0, from + 4) == s;
    assert MovedBytes(s, from + 1, 0, from + 4) == s;
    assert Dec(0) == 0;
  }

  /** Every byte of the output after a match at offset zero. */
  lemma ZeroOffset(s: seq<byte>, from: nat, n: nat, oend: nat, k: nat)
    requires from + n <= oend <= |s| && from + COPYLENGTH <= oend && k < |s|
    ensures MatchLeft(s, from, 0, n, oend)[k] == s[ZeroOrigin(from, n, oend, k)]
  {
    hide FirstEightLeft;
    hide MovedSteps;
    hide MovedBytes;
    hide StepsEnd;
    FirstEightStill(s, from);
    assert StepDistance(0) == 4;
    var goal := StepsGoal(from, n, oend);
    var op, stepped := StepsEnd(from + 8, goal), MovedSteps(s, from + 8, 4, goal);
    if op < from + n { BytesAt(stepped, op, from + n, k); }
    StepsAt(s, from + 8, goal, BytesFrom(op, from + n, k));
  }

  // ---------- which bytes are the input's ----------

  /** Whether a match of `n` bytes at offset zero, after `length` literals and with `room` bytes of output left, takes
      all of its bytes from the literals and what is copied too far with them. */
  predicate ZeroIsFixed(length: nat, n: nat, room: nat) {
    if n <= 8 then length + n <= Stepped(length) else length == 0 && (n <= 12 || room <= 16)
  }

  /** How far the bytes of such a round are the input's in any case: to the end of the overshoot, and four bytes further
      if there were no literals, for these repeat the last four. */
  function Sure(length: nat): nat {
    if length == 0 then 12 else Stepped(length)
  }

  lemma StepsInEights(from: nat, op: nat, end: nat)
    requires op >= from && (op - from) % 8 == 0
    ensures (StepsEnd(op, end) - from) % 8 == 0
    decreases end - op
  {
    if op < end { StepsInEights(from, op + 8, end); }
  }

  /** All bytes of a match that is fixed come from the literals and their overshoot. */
  lemma FixedOrigins(op: nat, length: nat, n: nat, oend: nat, k: nat)
    requires op + length + n <= oend && op + length + COPYLENGTH <= oend && k < op + length + n
    requires ZeroIsFixed(length, n, oend - (op + length)) || k < op + Sure(length)
    ensures ZeroOrigin(op + length, n, oend, k) < op + Stepped(length)
  {
    var from := op + length;
    var goal := StepsGoal(from, n, oend);
    assert goal > from + 8 ==> StepsEnd(from + 8, goal) == StepsEnd(from + 16, goal);
    StepsInEights(from, from + 8, goal);
  }

  /** The first byte of a match that is not fixed is what the output held eight or twelve bytes into the round. */
  lemma FirstFree(op: nat, length: nat, n: nat, oend: nat)
    requires MINMATCH <= n && op + length + n <= oend && op + length + COPYLENGTH <= oend
    requires !ZeroIsFixed(length, n, oend - (op + length))
    ensures Sure(length) < length + n
    ensures ZeroOrigin(op + length, n, oend, op + Sure(length)) == op + Stepped(length)
  {
    var from := op + length;
    var goal := StepsGoal(from, n, oend);
    assert goal > from + 8 ==> StepsEnd(from + 8, goal) == StepsEnd(from + 16, goal);
  }
}
