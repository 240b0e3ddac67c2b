/** The output limit of the compressors on the greedy run: where a run gives up. Line numbers are those of
    memapass/lz4.c. */
module Lz4Limit {
  import opened Bytes
  import opened Lz4Format
  import opened Lz4Word
  import opened Lz4Search

  /** Line 404: a token, `length` literals, an offset and the last literals stay below the limit. */
  predicate Below(op: nat, length: nat, limit: nat) {
    op + 1 + length + (2 + 1 + LASTLITERALS) + length / 256 < limit
  }

  /** The sequences `ss` take the run from `c`, with `op` bytes written, to `last`, and every match that is searched for
      passes the check. A match that follows another at once is not checked. */
  ghost predicate PlaysBelow(w: Width, s: seq<byte>, op: nat, c: Cursor, ss: seq<Sequence>, last: Cursor, limit: nat)
    decreases |ss|
  {
    if ss == [] then c == last
    else
      && (c.Searching? ==> Below(op, |ss[0].literals|, limit))
      && exists next :: Plays(w, s, c, ss[0], next)
                        && PlaysBelow(w, s, op + |SequenceBytes(ss[0])|, next, ss[1..], last, limit)
  }

  lemma {:induction false} BelowPlays(w: Width, s: seq<byte>, op: nat, c: Cursor, ss: seq<Sequence>, last: Cursor,
                                      limit: nat)
    requires PlaysBelow(w, s, op, c, ss, last, limit)
    ensures PlaysAll(w, s, c, ss, last)
    decreases |ss|
  {
    hide Plays;
    hide SequenceBytes;
    if ss != [] {
      var next :| Plays(w, s, c, ss[0], next)
                  && PlaysBelow(w, s, op + |SequenceBytes(ss[0])|, next, ss[1..], last, limit);
      BelowPlays(w, s, op + |SequenceBytes(ss[0])|, next, ss[1..], last, limit);
    }
  }

  lemma {:induction false} BelowAppend(w: Width, s: seq<byte>, op: nat, c: Cursor, ss: seq<Sequence>, mid: Cursor,
                                       x: Sequence, last: Cursor, limit: nat)
    requires PlaysBelow(w, s, op, c, ss, mid, limit) && Plays(w, s, mid, x, last)
    requires mid.Searching? ==> Below(op + |SequencesBytes(ss)|, |x.literals|, limit)
    ensures PlaysBelow(w, s, op, c, ss + [x], last, limit)
    decreases |ss|
  {
    hide Plays;
    hide SequenceBytes;
    hide Below;
    if ss == [] {
      assert [x][1..] == [] && [] + [x] == [x];
      assert PlaysBelow(w, s, op + |SequenceBytes(x)|, last, [], last, limit);
    } else {
      var next :| Plays(w, s, c, ss[0], next)
                  && PlaysBelow(w, s, op + |SequenceBytes(ss[0])|, next, ss[1..], mid, limit);
      BelowAppend(w, s, op + |SequenceBytes(ss[0])|, next, ss[1..], mid, x, last, limit);
      assert (ss + [x])[1..] == ss[1..] + [x];
    }
  }

  /** From a search behind `anchor`, the first hit, caught up as far as it goes, fails the check. */
  ghost predicate Overflows(w: Width, s: seq<byte>, table: seq<nat>, anchor: nat, op: nat, limit: nat) {
    exists start: nat, offset: nat, after: seq<nat> :: OverflowsAt(w, s, table, anchor, op, start, offset, after, limit)
  }

  ghost predicate OverflowsAt(w: Width, s: seq<byte>, table: seq<nat>, anchor: nat, op: nat, start: nat, offset: nat,
                              after: seq<nat>, limit: nat) {
    && anchor <= start <= |s| && 1 <= offset <= start && Found(w, s, table, anchor, start, offset, after)
    && (start == anchor || start == offset || s[start - 1] != s[start - 1 - offset])
    && !Below(op, start - anchor, limit)
  }

  /** The start of a match does not depend on how it is described. */
  lemma StartOnce(w: Width, s: seq<byte>, table: seq<nat>, anchor: nat, x: Sequence, after: seq<nat>, start: nat,
                  offset: nat, after': seq<nat>)
    requires Found(w, s, table, anchor, anchor + |x.literals|, x.offset, after) && IsStep(s, anchor, x)
    requires Found(w, s, table, anchor, start, offset, after') && anchor <= start <= |s| && 1 <= offset <= start
    requires start == anchor || start == offset || s[start - 1] != s[start - 1 - offset]
    ensures start == anchor + |x.literals|
  {
    hide Missed;
    hide Recorded;
    hide EntryAt;
    hide Hits;
    hide Repeats;
    hide Width.Hash;
    hide Probe;
    var n: nat :| FoundBy(w, s, table, anchor, n, anchor + |x.literals|, x.offset, after);
    var m: nat :| FoundBy(w, s, table, anchor, m, start, offset, after');
    NotMissed(w, s, table, anchor, n, anchor + |x.literals|, x.offset, after, m);
    NotMissed(w, s, table, anchor, m, start, offset, after', n);
    HitsThere(w, s, table, anchor, n, anchor + |x.literals|, x.offset, after);
    StartsOnce(s, anchor, Probe(anchor + 1, n) + MINMATCH, x.offset, start, anchor + |x.literals|);
  }

  /** A run that gets to its end below the limit passes no cursor from which it would overflow. */
  lemma {:induction false} BelowToTheEnd(w: Width, s: seq<byte>, op: nat, c: Cursor, ss: seq<Sequence>, last: Cursor,
                                         ss': seq<Sequence>, c': Cursor, limit: nat)
    requires PlaysBelow(w, s, op, c, ss, last, limit) && Stops(w, s, last) && Covers(s, c.anchor, ss)
    requires PlaysBelow(w, s, op, c, ss', c', limit) && Covers(s, c.anchor, ss')
    requires c'.Searching?
    ensures !Overflows(w, s, c'.table, c'.anchor, op + |SequencesBytes(ss')|, limit)
    decreases |ss'|
  {
    hide Plays;
    hide Stops;
    hide IsStep;
    hide SequenceBytes;
    hide Overflows;
    hide Below;
    if ss == [] && ss' == [] {
      NoOverflowAtEnd(w, s, op, c, limit);
    } else if ss == [] {
      var next :| Plays(w, s, c, ss'[0], next);
      StopsForGood(w, s, c, ss'[0], next);
      assert false;
    } else {
      var next :| Plays(w, s, c, ss[0], next)
                  && PlaysBelow(w, s, op + |SequenceBytes(ss[0])|, next, ss[1..], last, limit);
      if ss' == [] {
        NoOverflowBelow(w, s, op, c, ss[0], next, limit);
      } else {
        var next' :| Plays(w, s, c, ss'[0], next')
                     && PlaysBelow(w, s, op + |SequenceBytes(ss'[0])|, next', ss'[1..], c', limit);
        PlaysOnce(w, s, c, ss[0], ss'[0], next, next');
        PlaysOn(w, s, c, ss[0], next);
        BelowToTheEnd(w, s, op + |SequenceBytes(ss[0])|, next, ss[1..], last, ss'[1..], c', limit);
      }
    }
  }

  lemma NoOverflowAtEnd(w: Width, s: seq<byte>, op: nat, c: Cursor, limit: nat)
    requires Stops(w, s, c) && c.Searching?
    ensures !Overflows(w, s, c.table, c.anchor, op, limit)
  {
    hide Found;
    hide Exhausted;
    if Overflows(w, s, c.table, c.anchor, op, limit) {
      var start: nat, offset: nat, after: seq<nat> :|
        OverflowsAt(w, s, c.table, c.anchor, op, start, offset, after, limit);
      NotExhausted(w, s, c.table, c.anchor, start, offset, after);
      assert false;
    }
  }

  lemma NoOverflowBelow(w: Width, s: seq<byte>, op: nat, c: Cursor, x: Sequence, next: Cursor, limit: nat)
    requires c.Searching? && Plays(w, s, c, x, next) && IsStep(s, c.anchor, x) && Below(op, |x.literals|, limit)
    ensures !Overflows(w, s, c.table, c.anchor, op, limit)
  {
    hide Found;
    hide Arrive;
    hide IsStep;
    var after := PlaysSearching(w, s, c, x, next);
    if Overflows(w, s, c.table, c.anchor, op, limit) {
      var start: nat, offset: nat, after': seq<nat> :|
        OverflowsAt(w, s, c.table, c.anchor, op, start, offset, after', limit);
      StartOnce(w, s, c.table, c.anchor, x, after, start, offset, after');
      assert false;
    }
  }
}
