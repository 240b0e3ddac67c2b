/** What the compressors look for: the hash table, the probe schedule, and the hits it leads to. Line numbers are those of
    memapass/lz4.c. */
module Lz4Search {
  import opened Bytes
  import opened Lz4Format
  import opened Lz4Word

  const SKIP_UNIT := 64 // 1 << SKIPSTRENGTH
  const MULTIPLIER := 2654435761
  const LIMIT_64K := 65536 + (MFLIMIT - 1)

  /** Which of the two compressors runs: the one with 32-bit or the one with 16-bit table entries. */
  datatype Width = U32 | U16 {
    /** 2 to the power `HASH_LOG`, which is 12, or `HASHLOG64K`. */
    function TableSize(): nat { if U32? then 0x1000 else 0x2000 }

    /** What a table entry keeps of a position. */
    function Truncate(position: nat): nat {
      if U32? then position % 0x1_0000_0000 else position % 0x1_0000
    }

    /** `LZ4_HASH_FUNCTION`: a 32-bit product, of which the top bits are kept. */
    function Bucket(word: nat): (h: nat)
      ensures h < TableSize()
    {
      var product := word * MULTIPLIER % 0x1_0000_0000;
      if U32? then product / 0x10_0000 else product / 0x8_0000
    }

    /** `LZ4_HASH_VALUE`: the entry for the four bytes at `p`. */
    function Hash(s: seq<byte>, p: nat): (h: nat)
      requires p + 4 <= |s|
      ensures h < TableSize()
    {
      Bucket(A32(s, p))
    }

    /** Input sizes the caller may pass: `int` results for one, the documented limit for the other. */
    predicate Accepts(isize: nat) {
      CompressBound(isize) < 0x8000_0000 && (U16? ==> isize < LIMIT_64K)
    }
  }

  /** The `n`-th position probed: the step grows by one every 64 probes. */
  function Probe(first: nat, n: nat): (p: nat)
    ensures p >= first + n
  {
    if n == 0 then first else Probe(first, n - 1) + (SKIP_UNIT + 2 + n) / SKIP_UNIT
  }

  /** All positions are probed up to the 61st, every second one up to the 125th, every third one up to the 189th, and so
      on: the distance of the `n`-th probe grows with the square of `n`. */
  lemma {:induction false} ProbeGrows(first: nat, n: nat)
    ensures var turns, rest := (n + 2) / SKIP_UNIT, (n + 2) % SKIP_UNIT;
            Probe(first, n) == first + n + 32 * turns * (turns - 1) + turns * (rest + 1)
  {
    if n > 0 {
      ProbeGrows(first, n - 1);
      var turns, rest := (n + 1) / SKIP_UNIT, (n + 1) % SKIP_UNIT;
      if rest == SKIP_UNIT - 1 {
        Turns(n + 2, turns + 1, 0);
        NextTurn(turns);
      } else {
        Turns(n + 2, turns, rest + 1);
        NextStep(turns, rest);
      }
      Turns(SKIP_UNIT + 2 + n, (n + 2) / SKIP_UNIT + 1, (n + 2) % SKIP_UNIT);
    }
  }

  lemma Turns(n: nat, turns: nat, rest: nat)
    requires n == turns * SKIP_UNIT + rest && rest < SKIP_UNIT
    ensures n / SKIP_UNIT == turns && n % SKIP_UNIT == rest
  {}

  lemma NextTurn(turns: nat)
    ensures 32 * (turns + 1) * turns + (turns + 1) == 32 * turns * (turns - 1) + turns * 64 + (turns + 1)
  {}

  lemma NextStep(turns: nat, rest: nat)
    ensures turns * (rest + 2) == turns * (rest + 1) + turns
  {}

  /** What entry `h` holds before the `n`-th probe: the last probe with that hash, or what was there at the start. */
  ghost function EntryAt(w: Width, s: seq<byte>, table: seq<nat>, first: nat, n: nat, h: nat): nat
    requires h < |table| && (n > 0 ==> Probe(first, n - 1) + 4 <= |s|)
  {
    if n == 0 then table[h]
    else if w.Hash(s, Probe(first, n - 1)) == h then Probe(first, n - 1)
    else EntryAt(w, s, table, first, n - 1, h)
  }

  /** Four bytes at `ref` and at `ip` agree, close enough for two bytes of offset. */
  ghost predicate Hits(s: seq<byte>, ref: nat, ip: nat)
    requires ip + MINMATCH <= |s|
  {
    ref < ip && ip - ref <= MAX_DISTANCE && Repeats(s, ip, ip + MINMATCH, ip - ref)
  }

  /** The entry found by the `n`-th probe is a hit. */
  ghost predicate ProbeHits(w: Width, s: seq<byte>, table: seq<nat>, first: nat, n: nat) {
    && |table| == w.TableSize() && Probe(first, n) + MINMATCH <= |s|
    && Hits(s, EntryAt(w, s, table, first, n, w.Hash(s, Probe(first, n))), Probe(first, n))
  }

  /** `t` is the table before the `n`-th probe. */
  ghost predicate Recorded(w: Width, s: seq<byte>, table: seq<nat>, first: nat, n: nat, t: seq<nat>) {
    && |t| == |table| == w.TableSize()
    && (n > 0 ==> Probe(first, n - 1) + 4 <= |s|)
    && forall h :: 0 <= h < |t| ==> t[h] == EntryAt(w, s, table, first, n, h)
  }

  /** None of the first `n` probes is a hit. */
  ghost predicate Missed(w: Width, s: seq<byte>, table: seq<nat>, first: nat, n: nat) {
    |table| == w.TableSize() &&
    forall j :: 0 <= j < n ==> Probe(first, j) + MINMATCH <= |s| && !ProbeHits(w, s, table, first, j)
  }

  lemma RecordProbe(w: Width, s: seq<byte>, table: seq<nat>, first: nat, n: nat, t: seq<nat>)
    requires Recorded(w, s, table, first, n, t) && Probe(first, n) + 4 <= |s|
    ensures var h := w.Hash(s, Probe(first, n));
            && Recorded(w, s, table, first, n + 1, t[h := Probe(first, n)])
            && t[h] == EntryAt(w, s, table, first, n, h)
  {
    hide Width.Hash;
  }

  lemma MissedOne(w: Width, s: seq<byte>, table: seq<nat>, first: nat, n: nat)
    requires Missed(w, s, table, first, n) && Probe(first, n) + MINMATCH <= |s|
    requires !Hits(s, EntryAt(w, s, table, first, n, w.Hash(s, Probe(first, n))), Probe(first, n))
    ensures Missed(w, s, table, first, n + 1)
  {
    hide EntryAt;
    hide Hits;
    hide Width.Hash;
  }

  lemma MissedNone(w: Width, s: seq<byte>, table: seq<nat>, first: nat)
    requires |table| == w.TableSize()
    ensures Missed(w, s, table, first, 0)
  {}

  lemma RecordedFirst(w: Width, s: seq<byte>, table: seq<nat>, first: nat)
    requires |table| == w.TableSize()
    ensures Recorded(w, s, table, first, 0, table)
  {}

  // ---------- the greedy run ----------

  /** The match at `start` is caught up from the first probe behind `anchor` that hits, the `n`-th; `after` is the table
      with that probe recorded. */
  ghost predicate FoundBy(w: Width, s: seq<byte>, table: seq<nat>, anchor: nat, n: nat, start: nat, offset: nat,
                          after: seq<nat>) {
    var ip := Probe(anchor + 1, n);
    && Missed(w, s, table, anchor + 1, n) && Recorded(w, s, table, anchor + 1, n + 1, after)
    && start <= ip && Probe(anchor + 1, n + 1) <= |s| - MFLIMIT
    && ip == EntryAt(w, s, table, anchor + 1, n, w.Hash(s, ip)) + offset
    && Hits(s, ip - offset, ip)
    && offset <= start && Repeats(s, start, ip + MINMATCH, offset)
  }

  ghost predicate Found(w: Width, s: seq<byte>, table: seq<nat>, anchor: nat, start: nat, offset: nat, after: seq<nat>) {
    exists n: nat :: FoundBy(w, s, table, anchor, n, start, offset, after)
  }

  /** No probe behind `anchor` hits, up to the last twelve bytes. */
  ghost predicate Exhausted(w: Width, s: seq<byte>, table: seq<nat>, anchor: nat) {
    exists n: nat :: MissedToEnd(w, s, table, anchor, n)
  }

  ghost predicate MissedToEnd(w: Width, s: seq<byte>, table: seq<nat>, anchor: nat, n: nat) {
    Missed(w, s, table, anchor + 1, n) && Probe(anchor + 1, n + 1) > |s| - MFLIMIT
  }

  /** Where a run stands after a match that ends at `anchor`: about to search; at a match that follows at once, with
      the earlier position `ref`; or too close to the end for another. */
  datatype Cursor =
    | Searching(table: seq<nat>, anchor: nat)
    | Chained(table: seq<nat>, anchor: nat, ref: nat)
    | Ending(anchor: nat)

  /** Lines 454-463: two positions enter the table, and the old entry of the second is tried. */
  ghost function Arrive(w: Width, s: seq<byte>, table: seq<nat>, ip: nat): Cursor
    requires |table| == w.TableSize() && 2 <= ip <= |s|
  {
    if ip > |s| - MFLIMIT then Ending(ip) else
    var stored := table[w.Hash(s, ip - 2) := ip - 2];
    var ref := stored[w.Hash(s, ip)];
    var next := stored[w.Hash(s, ip) := ip];
    if Hits(s, ref, ip) then Chained(next, ip, ref) else Searching(next, ip)
  }

  /** One sequence takes the run from `c` to `next`. */
  ghost predicate Plays(w: Width, s: seq<byte>, c: Cursor, x: Sequence, next: Cursor) {
    !c.Ending? && 2 <= c.anchor + x.Length() <= |s| &&
    match c
    case Searching(table, anchor) =>
      exists after: seq<nat> ::
        && Found(w, s, table, anchor, anchor + |x.literals|, x.offset, after) && |after| == w.TableSize()
        && next == Arrive(w, s, after, anchor + x.Length())
    case Chained(table, anchor, ref) =>
      && |table| == w.TableSize() && x.literals == [] && anchor == ref + x.offset
      && next == Arrive(w, s, table, anchor + x.Length())
    case Ending(_) => false
  }

  /** The sequences `ss` take the run from `c` to `last`. */
  ghost predicate PlaysAll(w: Width, s: seq<byte>, c: Cursor, ss: seq<Sequence>, last: Cursor)
    decreases |ss|
  {
    if ss == [] then c == last
    else exists next :: Plays(w, s, c, ss[0], next) && PlaysAll(w, s, next, ss[1..], last)
  }

  lemma {:induction false} PlaysAppend(w: Width, s: seq<byte>, c: Cursor, ss: seq<Sequence>, mid: Cursor, x: Sequence,
                                       last: Cursor)
    requires PlaysAll(w, s, c, ss, mid) && Plays(w, s, mid, x, last)
    ensures PlaysAll(w, s, c, ss + [x], last)
    decreases |ss|
  {
    hide Plays;
    if ss == [] {
      assert [x][1..] == [];
      assert PlaysAll(w, s, last, [], last);
    } else {
      var next :| Plays(w, s, c, ss[0], next) && PlaysAll(w, s, next, ss[1..], mid);
      PlaysAppend(w, s, next, ss[1..], mid, x, last);
      assert (ss + [x])[1..] == ss[1..] + [x];
    }
  }

  /** Nothing is left to find. */
  ghost predicate Stops(w: Width, s: seq<byte>, c: Cursor) {
    c.Ending? || (c.Searching? && Exhausted(w, s, c.table, c.anchor))
  }

  /** The zeroed table. */
  function Zeroed(w: Width): (table: seq<nat>)
    ensures |table| == w.TableSize()
  {
    seq(w.TableSize(), _ => 0)
  }

  /** `ss` is the greedy run: each sequence is the first hit of its search, or follows the one before at once when that
      hits, and nothing is left to find. */
  ghost predicate Greedy(w: Width, s: seq<byte>, ss: seq<Sequence>) {
    if |s| < MINLENGTH then ss == [] else
    exists last :: PlaysAll(w, s, Searching(Zeroed(w), 0), ss, last) && Stops(w, s, last)
  }

  // ---------- there is only one greedy run ----------

  lemma {:induction false} ProbeRises(first: nat, m: nat, n: nat)
    requires m <= n
    ensures Probe(first, m) <= Probe(first, n)
    decreases n
  {
    if m < n { ProbeRises(first, m, n - 1); }
  }

  lemma HitsThere(w: Width, s: seq<byte>, table: seq<nat>, anchor: nat, n: nat, start: nat, offset: nat, after: seq<nat>)
    requires FoundBy(w, s, table, anchor, n, start, offset, after)
    ensures ProbeHits(w, s, table, anchor + 1, n)
  {
    hide EntryAt;
    hide Hits;
    hide Missed;
    hide Repeats;
    hide Width.Hash;
  }

  lemma NotMissed(w: Width, s: seq<byte>, table: seq<nat>, anchor: nat, n: nat, start: nat, offset: nat,
                  after: seq<nat>, m: nat)
    requires FoundBy(w, s, table, anchor, n, start, offset, after) && Missed(w, s, table, anchor + 1, m)
    ensures m <= n
  {
    HitsThere(w, s, table, anchor, n, start, offset, after);
    hide FoundBy;
    hide ProbeHits;
  }

  /** A search that finds something is not exhausted. */
  lemma NotExhausted(w: Width, s: seq<byte>, table: seq<nat>, anchor: nat, start: nat, offset: nat, after: seq<nat>)
    requires Found(w, s, table, anchor, start, offset, after)
    ensures !Exhausted(w, s, table, anchor)
  {
    hide Missed;
    hide Recorded;
    hide EntryAt;
    hide Hits;
    hide Repeats;
    hide Width.Hash;
    hide Probe;
    var n: nat :| FoundBy(w, s, table, anchor, n, start, offset, after);
    forall m: nat | MissedToEnd(w, s, table, anchor, m)
      ensures false
    {
      NotMissed(w, s, table, anchor, n, start, offset, after, m);
      ProbeRises(anchor + 1, m + 1, n + 1);
    }
  }

  lemma RecordedOnce(w: Width, s: seq<byte>, table: seq<nat>, first: nat, n: nat, a: seq<nat>, b: seq<nat>)
    requires Recorded(w, s, table, first, n, a) && Recorded(w, s, table, first, n, b)
    ensures a == b
  {
    hide EntryAt;
  }

  /** Where a match that cannot be continued ends. */
  lemma EndsOnce(s: seq<byte>, start: nat, offset: nat, end: nat, end': nat, limit: nat)
    requires offset <= start <= end <= limit <= |s| && start <= end' <= limit
    requires Repeats(s, start, end, offset) && (end == limit || s[end] != s[end - offset])
    requires Repeats(s, start, end', offset) && (end' == limit || s[end'] != s[end' - offset])
    ensures end == end'
  {}

  /** Where a match that cannot be started earlier starts. */
  lemma StartsOnce(s: seq<byte>, anchor: nat, ip: nat, offset: nat, start: nat, start': nat)
    requires offset <= start <= ip <= |s| && offset <= start' <= ip && anchor <= start && anchor <= start'
    requires Repeats(s, start, ip, offset) && (start == anchor || start == offset || s[start - 1] != s[start - 1 - offset])
    requires Repeats(s, start', ip, offset)
             && (start' == anchor || start' == offset || s[start' - 1] != s[start' - 1 - offset])
    ensures start == start'
  {}

  /** Two maximal matches over the same four bytes at the same distance. */
  lemma SameMatch(s: seq<byte>, pos: nat, ip: nat, x: Sequence, y: Sequence)
    requires IsStep(s, pos, x) && IsStep(s, pos, y) && x.offset == y.offset && ip + MINMATCH <= |s|
    requires pos + |x.literals| <= ip && Repeats(s, pos + |x.literals|, ip + MINMATCH, x.offset)
    requires pos + |y.literals| <= ip && Repeats(s, pos + |y.literals|, ip + MINMATCH, y.offset)
    ensures x == y
  {
    hide Repeats;
    StartsOnce(s, pos, ip + MINMATCH, x.offset, pos + |x.literals|, pos + |y.literals|);
    EndsOnce(s, pos + |x.literals|, x.offset, pos + x.Length(), pos + y.Length(), |s| - LASTLITERALS);
  }

  lemma SearchedOnce(w: Width, s: seq<byte>, table: seq<nat>, anchor: nat, x: Sequence, y: Sequence,
                     start: nat, start': nat, after: seq<nat>, after': seq<nat>)
    requires Found(w, s, table, anchor, start, x.offset, after) && IsStep(s, anchor, x) && start == anchor + |x.literals|
    requires Found(w, s, table, anchor, start', y.offset, after') && IsStep(s, anchor, y)
             && start' == anchor + |y.literals|
    ensures x == y && after == after'
  {
    hide Missed;
    hide Recorded;
    hide EntryAt;
    hide Hits;
    hide IsStep;
    hide Repeats;
    hide Width.Hash;
    hide Probe;
    var n: nat :| FoundBy(w, s, table, anchor, n, start, x.offset, after);
    var m: nat :| FoundBy(w, s, table, anchor, m, start', y.offset, after');
    NotMissed(w, s, table, anchor, n, start, x.offset, after, m);
    NotMissed(w, s, table, anchor, m, start', y.offset, after', n);
    HitsThere(w, s, table, anchor, n, start, x.offset, after);
    RecordedOnce(w, s, table, anchor + 1, n + 1, after, after');
    SameMatch(s, anchor, Probe(anchor + 1, n), x, y);
  }

  lemma PlaysSearching(w: Width, s: seq<byte>, c: Cursor, x: Sequence, next: Cursor) returns (after: seq<nat>)
    requires Plays(w, s, c, x, next) && c.Searching?
    ensures Found(w, s, c.table, c.anchor, c.anchor + |x.literals|, x.offset, after) && |after| == w.TableSize()
    ensures 2 <= c.anchor + x.Length() <= |s| && next == Arrive(w, s, after, c.anchor + x.Length())
  {
    hide Found;
    hide Arrive;
    after :|
      && Found(w, s, c.table, c.anchor, c.anchor + |x.literals|, x.offset, after) && |after| == w.TableSize()
      && next == Arrive(w, s, after, c.anchor + x.Length());
  }

  lemma PlaysOnce(w: Width, s: seq<byte>, c: Cursor, x: Sequence, y: Sequence, next: Cursor, next': Cursor)
    requires Plays(w, s, c, x, next) && IsStep(s, c.anchor, x)
    requires Plays(w, s, c, y, next') && IsStep(s, c.anchor, y)
    ensures x == y && next == next'
  {
    hide Arrive;
    hide Found;
    if c.Searching? {
      hide IsStep;
      hide Repeats;
      var after := PlaysSearching(w, s, c, x, next);
      var after' := PlaysSearching(w, s, c, y, next');
      hide Plays;
      SearchedOnce(w, s, c.table, c.anchor, x, y, c.anchor + |x.literals|, c.anchor + |y.literals|, after, after');
    } else {
      EndsOnce(s, c.anchor, x.offset, c.anchor + x.Length(), c.anchor + y.Length(), |s| - LASTLITERALS);
    }
  }

  lemma PlaysOn(w: Width, s: seq<byte>, c: Cursor, x: Sequence, next: Cursor)
    requires Plays(w, s, c, x, next)
    ensures next.anchor == c.anchor + x.Length()
  {
    hide Found;
    hide Hits;
    hide Width.Hash;
  }

  /** A run that has stopped goes no further. */
  lemma StopsForGood(w: Width, s: seq<byte>, c: Cursor, x: Sequence, next: Cursor)
    requires Stops(w, s, c)
    ensures !Plays(w, s, c, x, next)
  {
    hide Arrive;
    hide FoundBy;
    hide Exhausted;
    hide Found;
    if Plays(w, s, c, x, next) {
      var after := PlaysSearching(w, s, c, x, next);
      NotExhausted(w, s, c.table, c.anchor, c.anchor + |x.literals|, x.offset, after);
      assert false;
    }
  }

  lemma {:induction false} PlaysAllOnce(w: Width, s: seq<byte>, c: Cursor, ss: seq<Sequence>, ss': seq<Sequence>,
                                        last: Cursor, last': Cursor)
    requires PlaysAll(w, s, c, ss, last) && Stops(w, s, last) && Covers(s, c.anchor, ss)
    requires PlaysAll(w, s, c, ss', last') && Stops(w, s, last') && Covers(s, c.anchor, ss')
    ensures ss == ss'
    decreases |ss|
  {
    hide Plays;
    hide Stops;
    hide IsStep;
    if ss == [] && ss' == [] {
    } else if ss == [] {
      var next :| Plays(w, s, c, ss'[0], next);
      StopsForGood(w, s, c, ss'[0], next);
      assert false;
    } else if ss' == [] {
      var next :| Plays(w, s, c, ss[0], next);
      StopsForGood(w, s, c, ss[0], next);
      assert false;
    } else {
      var next :| Plays(w, s, c, ss[0], next) && PlaysAll(w, s, next, ss[1..], last);
      var next' :| Plays(w, s, c, ss'[0], next') && PlaysAll(w, s, next', ss'[1..], last');
      PlaysOnce(w, s, c, ss[0], ss'[0], next, next');
      PlaysOn(w, s, c, ss[0], next);
      PlaysAllOnce(w, s, next, ss[1..], ss'[1..], last, last');
      assert ss == [ss[0]] + ss[1..] && ss' == [ss'[0]] + ss'[1..];
    }
  }

  /** Two greedy runs over the same input are the same: the contract of the compressors leaves them no choice. */
  lemma GreedyIsUnique(w: Width, s: seq<byte>, ss: seq<Sequence>, ss': seq<Sequence>)
    requires Greedy(w, s, ss) && Covers(s, 0, ss)
    requires Greedy(w, s, ss') && Covers(s, 0, ss')
    ensures ss == ss'
  {
    hide PlaysAll;
    hide Covers;
    if |s| >= MINLENGTH {
      var c := Searching(Zeroed(w), 0);
      var last :| PlaysAll(w, s, c, ss, last) && Stops(w, s, last);
      var last' :| PlaysAll(w, s, c, ss', last') && Stops(w, s, last');
      PlaysAllOnce(w, s, c, ss, ss', last, last');
    }
  }
}
