/** The call-stack index: intervals during which a frame is open, and the stack at any record from them. Line
    numbers are those of memaviz/functree.go. */
module FuncTree {
  import opened Wrappers
  import opened Bytes
  import opened LinkedStack
  import opened Sorting

  /** A trace record: a memory access, or the entry or exit of a function. */
  datatype Record =
    | MemaAccess(addr: uint64, isWrite: bool)
    | FuncEnter(func: uint64)
    | FuncExit(func: uint64)

  // ---------- replay ----------

  /** The open frames, outermost first, after replaying `rs` from `frames`; nothing when an exit finds none open. */
  function Replay(frames: seq<Record>, rs: seq<Record>): Option<seq<Record>>
    decreases |rs|
  {
    if rs == [] then Some(frames) else
    match rs[0]
    case FuncEnter(_) => Replay(frames + [rs[0]], rs[1..])
    case FuncExit(_) => if frames == [] then None else Replay(frames[..|frames| - 1], rs[1..])
    case MemaAccess(_, _) => Replay(frames, rs[1..])
  }

  lemma {:induction false} ReplayAppend(frames: seq<Record>, a: seq<Record>, b: seq<Record>)
    ensures Replay(frames, a + b)
            == if Replay(frames, a).None? then None else Replay(Replay(frames, a).value, b)
    decreases |a|
  {
    if a == [] {
      assert [] + b == b;
    } else {
      assert (a + b)[1..] == a[1..] + b;
      match a[0]
      case FuncEnter(_) => ReplayAppend(frames + [a[0]], a[1..], b);
      case FuncExit(_) => if frames != [] { ReplayAppend(frames[..|frames| - 1], a[1..], b); }
      case MemaAccess(_, _) => ReplayAppend(frames, a[1..], b);
    }
  }

  /** What is open below makes no difference. */
  lemma {:induction false} ReplayAbove(below: seq<Record>, frames: seq<Record>, rs: seq<Record>)
    requires Replay(frames, rs).Some?
    ensures Replay(below + frames, rs) == Some(below + Replay(frames, rs).value)
    decreases |rs|
  {
    if rs != [] {
      match rs[0]
      case FuncEnter(_) =>
        ReplayAbove(below, frames + [rs[0]], rs[1..]);
        assert below + frames + [rs[0]] == below + (frames + [rs[0]]);
      case FuncExit(_) =>
        ReplayAbove(below, frames[..|frames| - 1], rs[1..]);
        assert (below + frames)[..|below + frames| - 1] == below + frames[..|frames| - 1];
      case MemaAccess(_, _) => ReplayAbove(below, frames, rs[1..]);
    }
  }

  /** A call whose inner calls have all returned is on top of the stack until it returns, and then nothing of it is. */
  lemma CallReturns(below: seq<Record>, f: uint64, body: seq<Record>, g: uint64)
    requires Replay([], body) == Some([])
    ensures Replay(below, [FuncEnter(f)] + body) == Some(below + [FuncEnter(f)])
    ensures Replay(below, [FuncEnter(f)] + body + [FuncExit(g)]) == Some(below)
  {
    var call, open := [FuncEnter(f)], below + [FuncEnter(f)];
    ReplayAbove(open, [], body);
    assert open + [] == open;
    ReplayAppend(below, call, body);
    ReplayAppend(below, call + body, [FuncExit(g)]);
    ReplayOne(below, FuncEnter(f));
    ReplayOne(open, FuncExit(g));
    hide Replay;
    assert open[..|open| - 1] == below;
  }

  function Reverse<T>(s: seq<T>): (r: seq<T>)
    ensures |r| == |s|
    ensures forall i :: 0 <= i < |s| ==> r[i] == s[|s| - 1 - i]
  {
    if s == [] then [] else Reverse(s[1..]) + [s[0]]
  }

  // ---------- the index, by entry number ----------

  /** A frame that is open from record `from` to record `to`, both included. Carried frames count from -1 down. */
  datatype Interval = Interval(from: int, to: int) {
    predicate Contains(k: int) { from <= k <= to }
  }

  /** The entry numbers of the carried frames, outermost first. */
  function Carried(n: nat): (s: seq<int>)
    ensures |s| == n
  {
    seq(n, i requires 0 <= i < n => i - n)
  }

  /** The entries open after the first `k` records. */
  function Open(context: seq<Record>, records: seq<Record>, k: nat): (s: Option<seq<int>>)
    requires k <= |records|
  {
    if k == 0 then Some(Carried(|context|)) else
    var before := Open(context, records, k - 1);
    if before.None? then None else
    match records[k - 1]
    case FuncEnter(_) => Some(before.value + [k - 1])
    case FuncExit(_) => if before.value == [] then None else Some(before.value[..|before.value| - 1])
    case MemaAccess(_, _) => before
  }

  /** The intervals closed by the first `k` records. */
  function Closed(context: seq<Record>, records: seq<Record>, k: nat): seq<Interval>
    requires k <= |records| && Open(context, records, k).Some?
  {
    if k == 0 then [] else
    var before := Open(context, records, k - 1).value;
    Closed(context, records, k - 1) +
    (if records[k - 1].FuncExit? then [Interval(before[|before| - 1], k - 2)] else [])
  }

  /** Entries still open at the end, from the top of the stack down. */
  function Remaining(open: seq<int>, n: nat): seq<Interval> {
    if open == [] then [] else [Interval(open[|open| - 1], n)] + Remaining(open[..|open| - 1], n)
  }

  /** Everything `BuildStree` pushes, in order. */
  function Intervals(context: seq<Record>, records: seq<Record>): seq<Interval>
    requires Open(context, records, |records|).Some?
  {
    Closed(context, records, |records|) + Remaining(Open(context, records, |records|).value, |records|)
  }

  /** Entry numbers rise from the bottom of the stack and name a carried frame or an earlier record. */
  ghost predicate Ordered(open: seq<int>, carried: int, k: int) {
    && (forall i :: 0 <= i < |open| ==> 0 - carried <= open[i] < k)
    && forall i, j :: 0 <= i < j < |open| ==> open[i] < open[j]
  }

  lemma {:induction false} OpenIsOrdered(context: seq<Record>, records: seq<Record>, k: nat)
    requires k <= |records| && Open(context, records, k).Some?
    ensures Ordered(Open(context, records, k).value, |context|, k)
  {
    if k > 0 {
      OpenIsOrdered(context, records, k - 1);
    }
  }

  function FrameOf(context: seq<Record>, records: seq<Record>, entry: int): Record
    requires -|context| <= entry < |records|
  {
    if entry < 0 then context[-entry - 1] else records[entry]
  }

  function Frames(context: seq<Record>, records: seq<Record>, open: seq<int>): (r: seq<Record>)
    requires forall i :: 0 <= i < |open| ==> -|context| <= open[i] < |records|
    ensures |r| == |open|
  {
    seq(|open|, i requires 0 <= i < |open| => FrameOf(context, records, open[i]))
  }

  /** One more record, from the frames that stand for the entries so far. */
  lemma ReplayNext(context: seq<Record>, records: seq<Record>, k: nat)
    requires k < |records| && Open(context, records, k).Some?
    requires Ordered(Open(context, records, k).value, |context|, k)
    ensures var open := Open(context, records, k + 1);
            && (open.Some? ==> Ordered(open.value, |context|, k + 1))
            && Replay(Frames(context, records, Open(context, records, k).value), [records[k]])
               == if open.None? then None else Some(Frames(context, records, open.value))
  {
    hide Open;
    hide Replay;
    var before := Open(context, records, k).value;
    var frames := Frames(context, records, before);
    ReplayOne(frames, records[k]);
    OpenUnfold(context, records, k);
    match records[k]
    case FuncEnter(_) => assert Frames(context, records, before + [k]) == frames + [records[k]];
    case FuncExit(_) =>
      if before != [] { assert Frames(context, records, before[..|before| - 1]) == frames[..|before| - 1]; }
    case MemaAccess(_, _) =>
  }

  lemma ReplayOne(frames: seq<Record>, r: Record)
    ensures Replay(frames, [r])
            == match r
               case FuncEnter(_) => Some(frames + [r])
               case FuncExit(_) => if frames == [] then None else Some(frames[..|frames| - 1])
               case MemaAccess(_, _) => Some(frames)
  {}

  lemma OpenUnfold(context: seq<Record>, records: seq<Record>, k: nat)
    requires k < |records| && Open(context, records, k).Some?
    ensures var before := Open(context, records, k).value;
            Open(context, records, k + 1)
            == match records[k]
               case FuncEnter(_) => Some(before + [k])
               case FuncExit(_) => if before == [] then None else Some(before[..|before| - 1])
               case MemaAccess(_, _) => Some(before)
  {}

  lemma {:induction false} OpenIsReplay(context: seq<Record>, records: seq<Record>, k: nat)
    requires k <= |records|
    ensures var open := Open(context, records, k);
            && (open.Some? ==> Ordered(open.value, |context|, k))
            && Replay(Reverse(context), records[..k])
               == if open.None? then None else Some(Frames(context, records, open.value))
  {
    if k == 0 {
      assert Frames(context, records, Carried(|context|)) == Reverse(context);
    } else {
      hide Replay;
      hide Frames;
      OpenIsReplay(context, records, k - 1);
      assert records[..k] == records[..k - 1] + [records[k - 1]];
      ReplayAppend(Reverse(context), records[..k - 1], [records[k - 1]]);
      if Open(context, records, k - 1).Some? { ReplayNext(context, records, k - 1); }
    }
  }

  // ---------- the intervals around a record ----------

  /** The entry of one interval, if it contains `k`. */
  function EntryAt(interval: Interval, k: int): multiset<int> {
    if interval.Contains(k) then multiset{interval.from} else multiset{}
  }

  /** The entries whose intervals contain `k`, with repetition. */
  function EntriesAt(intervals: seq<Interval>, k: int): multiset<int> {
    if intervals == [] then multiset{}
    else EntriesAt(intervals[..|intervals| - 1], k) + EntryAt(intervals[|intervals| - 1], k)
  }

  /** The entries of `open` up to `k`. */
  function UpTo(open: seq<int>, k: int): multiset<int> {
    if open == [] then multiset{}
    else UpTo(open[..|open| - 1], k) +
         (var last := open[|open| - 1]; if last <= k then multiset{last} else multiset{})
  }

  lemma EntriesAtSnoc(a: seq<Interval>, last: Interval, k: int)
    ensures EntriesAt(a + [last], k) == EntriesAt(a, k) + EntryAt(last, k)
  {
    assert (a + [last])[..|a|] == a;
  }

  lemma {:induction false} EntriesAtAppend(a: seq<Interval>, b: seq<Interval>, k: int)
    ensures EntriesAt(a + b, k) == EntriesAt(a, k) + EntriesAt(b, k)
    decreases |b|
  {
    if b == [] {
      assert a + b == a;
    } else {
      hide EntriesAt;
      hide EntryAt;
      var before, last := b[..|b| - 1], b[|b| - 1];
      EntriesAtAppend(a, before, k);
      EntriesAtSnoc(before, last, k);
      EntriesAtSnoc(a + before, last, k);
      SnocAppend(a, before, last, b);
      Regroup(EntriesAt(a, k), EntriesAt(before, k), EntryAt(last, k));
    }
  }

  lemma SnocAppend(a: seq<Interval>, before: seq<Interval>, last: Interval, b: seq<Interval>)
    requires b != [] && before == b[..|b| - 1] && last == b[|b| - 1]
    ensures before + [last] == b && a + before + [last] == a + b
  {}

  lemma Regroup(a: multiset<int>, b: multiset<int>, c: multiset<int>)
    ensures a + (b + c) == a + b + c
  {}

  lemma {:induction false} UpToAll(open: seq<int>, k: int)
    requires forall i :: 0 <= i < |open| ==> open[i] <= k
    ensures UpTo(open, k) == multiset(open)
  {
    if open != [] {
      UpToAll(open[..|open| - 1], k);
      assert open == open[..|open| - 1] + [open[|open| - 1]];
    }
  }

  lemma {:induction false} ClosedEndsEarly(context: seq<Record>, records: seq<Record>, m: nat, k: int)
    requires m <= |records| && Open(context, records, m).Some? && m <= k + 1
    ensures EntriesAt(Closed(context, records, m), k) == multiset{}
  {
    if m > 0 {
      ClosedEndsEarly(context, records, m - 1, k);
      EntriesAtAppend(Closed(context, records, m - 1), Closed(context, records, m)[|Closed(context, records, m - 1)|..], k);
    }
  }

  lemma UpToSnoc(open: seq<int>, last: int, k: int)
    ensures UpTo(open + [last], k) == UpTo(open, k) + (if last <= k then multiset{last} else multiset{})
  {
    assert (open + [last])[..|open|] == open;
  }

  /** A record after `k` moves an entry from the stack to an interval around `k`, or adds and removes later ones. */
  lemma AroundStep(context: seq<Record>, records: seq<Record>, k: nat, m: nat)
    requires k + 1 < m <= |records| && Open(context, records, m).Some?
    ensures EntriesAt(Closed(context, records, m), k) + UpTo(Open(context, records, m).value, k)
            == EntriesAt(Closed(context, records, m - 1), k) + UpTo(Open(context, records, m - 1).value, k)
  {
    hide EntriesAt;
    hide UpTo;
    var before := Open(context, records, m - 1).value;
    var closed := Closed(context, records, m - 1);
    match records[m - 1]
    case FuncEnter(_) =>
      UpToSnoc(before, m - 1, k);
      assert Closed(context, records, m) == closed;
    case FuncExit(_) =>
      var last := before[|before| - 1];
      assert before == before[..|before| - 1] + [last];
      UpToSnoc(before[..|before| - 1], last, k);
      EntriesAtSnoc(closed, Interval(last, m - 2), k);
    case MemaAccess(_, _) =>
      assert Closed(context, records, m) == closed;
  }

  /** Nothing that happens after record `k` changes which entries are open around it. */
  lemma {:induction false} AroundRecord(context: seq<Record>, records: seq<Record>, k: nat, m: nat)
    requires k < m <= |records| && Open(context, records, m).Some?
    ensures Open(context, records, k + 1).Some?
    ensures EntriesAt(Closed(context, records, m), k) + UpTo(Open(context, records, m).value, k)
            == multiset(Open(context, records, k + 1).value)
    decreases m
  {
    hide EntriesAt;
    hide UpTo;
    hide Closed;
    if m == k + 1 {
      OpenIsOrdered(context, records, m);
      UpToAll(Open(context, records, m).value, k);
      ClosedEndsEarly(context, records, m, k);
    } else {
      AroundRecord(context, records, k, m - 1);
      AroundStep(context, records, k, m);
    }
  }

  lemma {:induction false} RemainingAround(open: seq<int>, n: nat, k: nat)
    requires k <= n
    ensures EntriesAt(Remaining(open, n), k) == UpTo(open, k)
    decreases |open|
  {
    if open != [] {
      var last := [Interval(open[|open| - 1], n)];
      RemainingAround(open[..|open| - 1], n, k);
      EntriesAtAppend(last, Remaining(open[..|open| - 1], n), k);
      assert last[..0] == [];
      assert EntriesAt(last, k) == EntriesAt([], k) + EntryAt(last[0], k);
    }
  }

  /** The intervals that contain a record start at exactly the entries open after it. */
  lemma IntervalsAroundRecord(context: seq<Record>, records: seq<Record>, k: nat)
    requires k < |records| && Open(context, records, |records|).Some?
    ensures Open(context, records, k + 1).Some?
    ensures EntriesAt(Intervals(context, records), k) == multiset(Open(context, records, k + 1).value)
  {
    var n := |records|;
    var open := Open(context, records, n).value;
    AroundRecord(context, records, k, n);
    RemainingAround(open, n, k);
    EntriesAtAppend(Closed(context, records, n), Remaining(open, n), k);
  }

  // ---------- BuildStree and GetStack ----------

  /** What `BuildStree` hands back: the intervals pushed onto the tree, and the frames left open, innermost first. */
  datatype Index = Index(intervals: seq<Interval>, returnContext: seq<Record>)

  /** `BuildStree`; nothing stands for the panic on an exit that finds an empty stack. */
  method BuildStree(context: seq<Record>, records: seq<Record>) returns (r: Option<Index>)
    ensures r.None? <==> Replay(Reverse(context), records).None?
    ensures r.Some? ==>
              && Open(context, records, |records|).Some?
              && r.value.intervals == Intervals(context, records)
              && r.value.returnContext == Reverse(Replay(Reverse(context), records).value)
  {
    var s := new Stack<int>();
    for i := 0 to |context|
      invariant s.Valid() && s.Contents() == Carried(|context|)[..i]
    {
      s.Push(i - |context|);
    }
    assert Carried(|context|)[..|context|] == Carried(|context|);
    assert records[..|records|] == records;
    OpenIsReplay(context, records, |records|);
    var tree: seq<Interval> := [];
    for i := 0 to |records|
      invariant s.Valid() && Open(context, records, i) == Some(s.Contents())
      invariant tree == Closed(context, records, i)
    {
      var r := records[i];
      if r.FuncEnter? {
        s.Push(i);
      } else if r.FuncExit? {
        var start := s.Pop();
        if start.None? {
          OpenStaysNone(context, records, i + 1, |records|);
          return None;
        }
        tree := tree + [Interval(start.value, i - 1)];
      }
    }
    var rest, returned := Drain(context, records, s);
    return Some(Index(tree + rest, returned));
  }

  lemma {:induction false} OpenStaysNone(context: seq<Record>, records: seq<Record>, k: nat, m: nat)
    requires k <= m <= |records| && Open(context, records, k).None?
    ensures Open(context, records, m).None?
    decreases m
  {
    if k < m {
      OpenStaysNone(context, records, k, m - 1);
    }
  }

  lemma ReversedFrames(context: seq<Record>, records: seq<Record>, open: seq<int>, returned: seq<Record>)
    requires Ordered(open, |context|, |records|) && |returned| == |open|
    requires forall i :: 0 <= i < |returned| ==> returned[i] == FrameOf(context, records, open[|open| - 1 - i])
    ensures returned == Reverse(Frames(context, records, open))
  {}

  lemma RemainingPop(open: seq<int>, n: nat)
    ensures open == [] ==> Remaining(open, n) == []
    ensures open != [] ==> Remaining(open, n) == [Interval(open[|open| - 1], n)] + Remaining(open[..|open| - 1], n)
  {}

  /** Lines 42-54: pops what is still open. */
  method Drain(context: seq<Record>, records: seq<Record>, s: Stack<int>)
    returns (rest: seq<Interval>, returned: seq<Record>)
    requires s.Valid() && Ordered(s.Contents(), |context|, |records|)
    modifies s
    ensures rest == old(Remaining(s.Contents(), |records|))
    ensures returned == old(Reverse(Frames(context, records, s.Contents())))
  {
    hide Remaining;
    hide Reverse;
    hide Frames;
    hide Values;
    ghost var open := s.Contents();
    rest, returned := [], [];
    RemainingPop(open, |records|);
    while s.size > 0
      invariant s.Valid() && s.Contents() <= open
      invariant rest + Remaining(s.Contents(), |records|) == Remaining(open, |records|)
      invariant |returned| == |open| - |s.Contents()|
      invariant forall i :: 0 <= i < |returned| ==> returned[i] == FrameOf(context, records, open[|open| - 1 - i])
      decreases s.size
    {
      ghost var before := s.Contents();
      var start := s.Pop();
      assert before[..|before| - 1] == s.Contents();
      RemainingPop(before, |records|);
      rest := rest + [Interval(start.value, |records|)];
      returned := returned + [if start.value < 0 then context[-start.value - 1] else records[start.value]];
    }
    ReversedFrames(context, records, open, returned);
    RemainingPop(s.Contents(), |records|);
  }

  /** The intervals that contain `k`: what a query of the interval tree answers, in an order of its own. */
  function Containing(intervals: seq<Interval>, k: int): seq<Interval> {
    if intervals == [] then []
    else
      var last := intervals[|intervals| - 1];
      Containing(intervals[..|intervals| - 1], k) + (if last.Contains(k) then [last] else [])
  }

  function Starts(intervals: seq<Interval>): (r: seq<int>)
    ensures |r| == |intervals|
  {
    seq(|intervals|, i requires 0 <= i < |intervals| => intervals[i].from)
  }

  lemma {:induction false} StartsOfContaining(intervals: seq<Interval>, k: int)
    ensures multiset(Starts(Containing(intervals, k))) == EntriesAt(intervals, k)
  {
    if intervals != [] {
      var init, last := intervals[..|intervals| - 1], intervals[|intervals| - 1];
      StartsOfContaining(init, k);
      if last.Contains(k) {
        assert Starts(Containing(intervals, k)) == Starts(Containing(init, k)) + [last.from];
      } else {
        assert Containing(intervals, k) == Containing(init, k);
      }
    }
  }

  lemma StartsWithout(s: seq<Interval>, j: nat)
    requires j < |s|
    ensures multiset(Starts(s)) == multiset(Starts(s[..j] + s[j + 1..])) + multiset{s[j].from}
  {
    assert Starts(s) == Starts(s)[..j] + [Starts(s)[j]] + Starts(s)[j + 1..];
    assert Starts(s[..j] + s[j + 1..]) == Starts(s)[..j] + Starts(s)[j + 1..];
  }

  lemma {:induction false} StartsOfPermutation(a: seq<Interval>, b: seq<Interval>)
    requires multiset(a) == multiset(b)
    ensures multiset(Starts(a)) == multiset(Starts(b))
    decreases |a|
  {
    hide Starts;
    if a == [] {
      assert |multiset(b)| == 0;
      assert b == [];
    } else {
      assert a[0] in multiset(b);
      var j :| 0 <= j < |b| && b[j] == a[0];
      var restA, restB := a[..0] + a[1..], b[..j] + b[j + 1..];
      assert multiset(restA) == multiset(restB) by {
        Without(a, 0);
        Without(b, j);
      }
      StartsWithout(a, 0);
      StartsWithout(b, j);
      StartsOfPermutation(restA, restB);
    }
  }

  /** `GetStack` of a block with records `records` and context `context`. `answer` is what the tree's query returned;
      without a tree the stack is empty. */
  method GetStack(context: seq<Record>, records: seq<Record>, tree: Option<seq<Interval>>, k: nat,
                  answer: seq<Interval>)
    returns (result: seq<Record>)
    requires k < |records|
    requires tree.Some? ==>
               && Open(context, records, |records|).Some? && tree.value == Intervals(context, records)
               && multiset(answer) == multiset(Containing(tree.value, k))
    ensures tree.None? ==> result == []
    ensures tree.Some? ==> Replay(Reverse(context), records[..k + 1]) == Some(result)
  {
    if tree.None? { return []; }
    hide Containing;
    hide Frames;
    ghost var open := EntriesFound(context, records, k, answer);
    var entries := SortInts(Starts(answer));
    AscendingUnique(entries, open);
    result := LookUp(context, records, entries);
  }

  /** Lines 73-79. */
  method LookUp(context: seq<Record>, records: seq<Record>, entries: seq<int>) returns (result: seq<Record>)
    requires Ordered(entries, |context|, |records|)
    ensures result == Frames(context, records, entries)
  {
    result := [];
    for i := 0 to |entries|
      invariant result == Frames(context, records, entries)[..i]
    {
      result := result + [if entries[i] < 0 then context[-entries[i] - 1] else records[entries[i]]];
    }
  }

  /** The starts of a query's answer are the entries open after the record. */
  lemma EntriesFound(context: seq<Record>, records: seq<Record>, k: nat, answer: seq<Interval>) returns (open: seq<int>)
    requires k < |records| && Open(context, records, |records|).Some?
    requires multiset(answer) == multiset(Containing(Intervals(context, records), k))
    ensures multiset(Starts(answer)) == multiset(open) && Ascending(open)
    ensures Ordered(open, |context|, |records|)
    ensures Replay(Reverse(context), records[..k + 1]) == Some(Frames(context, records, open))
  {
    hide Containing;
    hide Starts;
    hide EntriesAt;
    hide Intervals;
    hide Open;
    hide Replay;
    hide Reverse;
    hide Frames;
    var intervals := Intervals(context, records);
    StartsOfPermutation(answer, Containing(intervals, k));
    StartsOfContaining(intervals, k);
    IntervalsAroundRecord(context, records, k);
    OpenIsReplay(context, records, k + 1);
    open := Open(context, records, k + 1).value;
  }

  // ---------- chaining over blocks ----------

  /** The blocks one after the other, each starting from the context the one before returned. */
  function ChainBlocks(context: seq<Record>, blocks: seq<seq<Record>>): Option<seq<Record>>
    decreases |blocks|
  {
    if blocks == [] then Some(context) else
    var frames := Replay(Reverse(context), blocks[0]);
    if frames.None? then None else ChainBlocks(Reverse(frames.value), blocks[1..])
  }

  function Stream(blocks: seq<seq<Record>>): seq<Record> {
    if blocks == [] then [] else blocks[0] + Stream(blocks[1..])
  }

  /** However a stream is cut into blocks, chaining their contexts is replaying the stream. */
  lemma {:induction false} ChainIsReplay(context: seq<Record>, blocks: seq<seq<Record>>)
    ensures var whole := Replay(Reverse(context), Stream(blocks));
            ChainBlocks(context, blocks) == if whole.None? then None else Some(Reverse(whole.value))
    decreases |blocks|
  {
    if blocks == [] {
      assert Reverse(Reverse(context)) == context;
    } else {
      ReplayAppend(Reverse(context), blocks[0], Stream(blocks[1..]));
      var frames := Replay(Reverse(context), blocks[0]);
      if frames.Some? {
        ChainIsReplay(Reverse(frames.value), blocks[1..]);
        assert Reverse(Reverse(frames.value)) == frames.value;
      }
    }
  }
}