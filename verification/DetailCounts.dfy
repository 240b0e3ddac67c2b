/** The detailed counts against the trace: both tell how many bytes a block loads and stores. */
module DetailCounts {
  import opened Vex
  import opened EventBuffer
  import opened Instrument
  import opened TraceCorrect
  import opened BlockTheorems

  /** The bytes that the counters of `op` stand for, a value of the counted type each time. */
  function CountedBytes(c: multiset<Counter>, op: DetailOp): nat {
    c[Detail(op, 0)] + c[Detail(op, 1)] + 2 * c[Detail(op, 2)] + 4 * c[Detail(op, 3)] + 8 * c[Detail(op, 4)]
    + 16 * c[Detail(op, 5)] + 4 * c[Detail(op, 6)] + 8 * c[Detail(op, 7)] + 16 * c[Detail(op, 8)]
    + 16 * c[Detail(op, 9)] + 32 * c[Detail(op, 10)]
  }

  /** Whether an access loads, or stores; a modify does both. */
  predicate Moves(kind: EventKind, op: DetailOp) {
    match op
    case OpLoad => kind.EventDr? || kind.EventDm?
    case OpStore => kind.EventDw? || kind.EventDm?
    case OpAlu => false
  }

  /** The bytes a trace loads, or stores. */
  function TracedBytes(trace: seq<Access>, op: DetailOp): nat {
    if trace == [] then 0 else
    var last := trace[|trace| - 1];
    TracedBytes(trace[..|trace| - 1], op) + (if Moves(last.kind, op) then last.size else 0)
  }

  function EventBytes(evs: seq<Event>, op: DetailOp): nat {
    if evs == [] then 0 else (if Moves(evs[0].kind, op) then evs[0].size else 0) + EventBytes(evs[1..], op)
  }

  /** The bytes that the dirty helpers among the statements run declare; no counter knows of them. */
  function DirtyBytes<G(!new)>(m: Machine<G>, stmts: seq<Stmt>, w: World<G>, op: DetailOp): nat
    decreases |stmts|
  {
    if stmts == [] then 0
    else if Skipped(stmts[0]) then DirtyBytes(m, stmts[1..], w, op)
    else
      var s := stmts[0];
      (if s.Dirty? then EventBytes(EventsOf(s), op) else 0) +
      (if s.Exit? && m.taken(s, w) then 0 else DirtyBytes(m, stmts[1..], m.exec(s, w), op))
  }

  lemma CountedBytesAdd(a: multiset<Counter>, b: multiset<Counter>, op: DetailOp)
    ensures CountedBytes(a + b, op) == CountedBytes(a, op) + CountedBytes(b, op)
  {}

  lemma CountedBytesOne(op: DetailOp, ty: TypeIndex, other: DetailOp)
    ensures CountedBytes(multiset{Detail(op, ty)}, other) == if op == other then SizeOf(ty) else 0
  {
    assert ty == 0 || ty == 1 || ty == 2 || ty == 3 || ty == 4 || ty == 5 || ty == 6 || ty == 7 || ty == 8 || ty == 9
           || ty == 10;
  }

  lemma NothingCounted(op: DetailOp)
    ensures CountedBytes(multiset{}, op) == 0
  {}

  lemma OtherCounter(c: Counter, op: DetailOp)
    requires !c.Detail?
    ensures CountedBytes(multiset{c}, op) == 0
  {}

  lemma {:induction false} NoDetails(calls: seq<Call>, op: DetailOp)
    requires forall c <- calls :: !(c.Count? && c.c.Detail?)
    ensures CountedBytes(CountsIn(calls), op) == 0
  {
    NothingCounted(op);
    hide CountedBytes;
    if calls != [] {
      var first := if calls[0].Count? then multiset{calls[0].c} else multiset{};
      if calls[0].Count? { OtherCounter(calls[0].c, op); }
      NoDetails(calls[1..], op);
      CountedBytesAdd(first, CountsIn(calls[1..]), op);
    }
  }

  lemma {:induction false} CountFirst(c: Counter, rest: seq<Call>, op: DetailOp)
    ensures CountedBytes(CountsIn([Count(c)] + rest), op)
            == CountedBytes(multiset{c}, op) + CountedBytes(CountsIn(rest), op)
  {
    hide CountedBytes;
    assert ([Count(c)] + rest)[1..] == rest;
    CountedBytesAdd(multiset{c}, CountsIn(rest), op);
  }

  lemma CountOne(op: DetailOp, ty: TypeIndex, other: DetailOp)
    ensures CountedBytes(CountsIn([Count(Detail(op, ty))]), other) == if op == other then SizeOf(ty) else 0
  {
    hide CountedBytes;
    hide CountsIn;
    hide SizeOf;
    CountFirst(Detail(op, ty), [], other);
    NoDetails([], other);
    CountedBytesOne(op, ty, other);
    assert [Count(Detail(op, ty))] + [] == [Count(Detail(op, ty))];
  }

  lemma CountTwo(first: DetailOp, second: DetailOp, ty: TypeIndex, other: DetailOp)
    ensures CountedBytes(CountsIn([Count(Detail(first, ty)), Count(Detail(second, ty))]), other)
            == (if first == other then SizeOf(ty) else 0) + (if second == other then SizeOf(ty) else 0)
  {
    hide CountedBytes;
    hide CountsIn;
    hide SizeOf;
    CountFirst(Detail(first, ty), [Count(Detail(second, ty))], other);
    CountedBytesOne(first, ty, other);
    CountOne(second, ty, other);
    assert [Count(Detail(first, ty))] + [Count(Detail(second, ty))]
           == [Count(Detail(first, ty)), Count(Detail(second, ty))];
  }

  lemma EventsOne(a: Event, op: DetailOp)
    ensures EventBytes([a], op) == if Moves(a.kind, op) then a.size else 0
  {
    assert [a][1..] == [];
  }

  lemma EventsTwo(a: Event, b: Event, op: DetailOp)
    ensures EventBytes([a, b], op)
            == (if Moves(a.kind, op) then a.size else 0) + (if Moves(b.kind, op) then b.size else 0)
  {
    assert [a, b][1..] == [b];
    EventsOne(b, op);
  }

  lemma DoubleDetails(ty: TypeIndex, op: DetailOp)
    ensures CountedBytes(CountsIn([Count(Detail(OpLoad, ty)), Count(Detail(OpLoad, ty)),
                                   Count(Detail(OpStore, ty)), Count(Detail(OpStore, ty))]), op)
            == if op.OpAlu? then 0 else 2 * SizeOf(ty)
  {
    hide CountedBytes;
    hide CountsIn;
    hide SizeOf;
    var load, store := Count(Detail(OpLoad, ty)), Count(Detail(OpStore, ty));
    CountFirst(Detail(OpLoad, ty), [load, store, store], op);
    CountFirst(Detail(OpLoad, ty), [store, store], op);
    CountedBytesOne(OpLoad, ty, op);
    CountTwo(OpStore, OpStore, ty, op);
    assert [load] + [load, store, store] == [load, load, store, store];
    assert [load] + [store, store] == [load, store, store];
  }

  /** What the detailed counts of one statement stand for is what its events declare, dirty helpers apart. */
  lemma {:induction false} StatementDetails(s: Stmt, op: DetailOp)
    requires !op.OpAlu?
    ensures CountedBytes(CountsIn(DetailCalls(s)), op) == if s.Dirty? then 0 else EventBytes(EventsOf(s), op)
  {
    hide CountedBytes;
    hide CountsIn;
    hide SizeOf;
    hide EventBytes;
    NoDetails([], op);
    NoEvents(op);
    match s
    case IMark(addr, len) => EventsOne(Event(EventIr, Const(addr), len), op);
    case WrTmp(_, Load(addr, ty)) =>
      CountOne(OpLoad, ty, op);
      EventsOne(Event(EventDr, addr, SizeOf(ty)), op);
    case WrTmp(_, Alu(ty, _)) => CountOne(OpAlu, ty, op);
    case Store(addr, ty, _) =>
      CountOne(OpStore, ty, op);
      EventsOne(Event(EventDw, addr, SizeOf(ty)), op);
    case CAS(addr, ty, double, _, _) =>
      var size := if double then 2 * SizeOf(ty) else SizeOf(ty);
      EventsTwo(Event(EventDr, addr, size), Event(EventDw, addr, size), op);
      DoubleDetails(ty, op);
      CountTwo(OpLoad, OpStore, ty, op);
    case LL(addr, ty, _, _) =>
      CountOne(OpLoad, ty, op);
      EventsOne(Event(EventDr, addr, SizeOf(ty)), op);
    case SC(addr, ty, _, _) =>
      CountOne(OpStore, ty, op);
      EventsOne(Event(EventDw, addr, SizeOf(ty)), op);
    case _ =>
  }

  lemma NoEvents(op: DetailOp)
    ensures EventBytes([], op) == 0
  {}

  lemma {:induction false} TracedBytesAppend(a: seq<Access>, b: seq<Access>, op: DetailOp)
    ensures TracedBytes(a + b, op) == TracedBytes(a, op) + TracedBytes(b, op)
    decreases |b|
  {
    if b == [] {
      assert a + b == a;
    } else {
      assert (a + b)[..|a + b| - 1] == a + b[..|b| - 1];
      TracedBytesAppend(a, b[..|b| - 1], op);
    }
  }

  /** Merging a write into a read loses no bytes. */
  lemma {:induction false} SeeAdds<G>(open: seq<Seen>, ev: Event, w: World<G>, op: DetailOp)
    ensures TracedBytes(Accesses(See(open, ev, w)), op)
            == TracedBytes(Accesses(open), op) + (if Moves(ev.kind, op) then ev.size else 0)
  {
    var after := See(open, ev, w);
    var n := |after| - 1;
    assert Accesses(after)[..n] == Accesses(open)[..n];
    if n < |open| {
      assert Accesses(open)[n] == open[n].Recorded() && Accesses(after)[n] == after[n].Recorded();
    } else {
      assert Accesses(open)[..n] == Accesses(open);
    }
  }

  lemma {:induction false} SeeAllAdds<G>(open: seq<Seen>, evs: seq<Event>, w: World<G>, op: DetailOp)
    ensures TracedBytes(Accesses(SeeAll(open, evs, w)), op) == TracedBytes(Accesses(open), op) + EventBytes(evs, op)
    decreases |evs|
  {
    hide See;
    hide TracedBytes;
    if evs != [] {
      SeeAdds(open, evs[0], w, op);
      SeeAllAdds(See(open, evs[0], w), evs[1..], w, op);
    }
  }

  lemma CountsHaveNoDetails(o: Options, s: Stmt, at: Instr, op: DetailOp)
    ensures CountedBytes(CountsIn(CountCalls(o, s, at)), op) == 0
    ensures CountedBytes(CountsIn(UntakenCalls(o, s, at)), op) == 0
    ensures CountedBytes(CountsIn(CountIf(o.basic, SBsCompleted)), op) == 0
    ensures CountedBytes(CountsIn(Entry(o)), op) == 0
  {
    hide CountedBytes;
    hide CountsIn;
    NoDetails(CountCalls(o, s, at), op);
    NoDetails(UntakenCalls(o, s, at), op);
    NoDetails(CountIf(o.basic, SBsCompleted), op);
    NoDetails(Entry(o), op);
  }

  /** The counters of one statement, all its calls together. */
  lemma StatementAdds(o: Options, s: Stmt, at: Instr, counts: multiset<Counter>, op: DetailOp)
    requires !op.OpAlu?
    ensures var before := counts + CountsIn(CountCalls(o, s, at)) + CountsIn(DetailCalls(s));
            && CountedBytes(before, op)
               == CountedBytes(counts, op) + (if s.Dirty? then 0 else EventBytes(EventsOf(s), op))
            && CountedBytes(before + CountsIn(UntakenCalls(o, s, at)), op) == CountedBytes(before, op)
  {
    hide CountedBytes;
    hide CountsIn;
    hide CountCalls;
    hide UntakenCalls;
    hide DetailCalls;
    var a, b, c := CountsIn(CountCalls(o, s, at)), CountsIn(DetailCalls(s)), CountsIn(UntakenCalls(o, s, at));
    CountsHaveNoDetails(o, s, at, op);
    StatementDetails(s, op);
    CountedBytesAdd(counts, a, op);
    CountedBytesAdd(counts + a, b, op);
    CountedBytesAdd(counts + a + b, c, op);
  }

  /** From the first instruction mark on, the trace and the counters grow by the same bytes, dirty helpers apart. */
  lemma {:induction false} DirectDetails<G(!new)>(m: Machine<G>, o: Options, stmts: seq<Stmt>, w: World<G>, steps: nat,
      done: seq<Access>, open: seq<Seen>, counts: multiset<Counter>, at: Instr, op: DetailOp)
    requires !op.OpAlu?
    ensures var r := Direct(m, o, stmts, w, steps, done, open, counts, at);
            TracedBytes(r.trace, op) + CountedBytes(counts, op)
            == TracedBytes(done, op) + TracedBytes(Accesses(open), op)
               + CountedBytes(r.counts, op) + DirtyBytes(m, stmts, w, op)
    decreases |stmts|
  {
    hide CountedBytes;
    hide CountsIn;
    hide CountCalls;
    hide UntakenCalls;
    hide DetailCalls;
    hide EventsOf;
    hide EventBytes;
    hide SeeAll;
    if stmts == [] {
      CountsHaveNoDetails(o, NoOp, at, op);
      CountedBytesAdd(counts, CountsIn(CountIf(o.basic, SBsCompleted)), op);
      TracedBytesAppend(done, Accesses(open), op);
    } else if Skipped(stmts[0]) {
      DirectDetails(m, o, stmts[1..], w, steps, done, open, counts, at, op);
    } else {
      var s := stmts[0];
      var seen := SeeAll(open, EventsOf(s), w);
      SeeAllAdds(open, EventsOf(s), w, op);
      StatementAdds(o, s, at, counts, op);
      TracedBytesAppend(done, Accesses(seen), op);
      assert Accesses([]) == [];
      if !(s.Exit? && m.taken(s, w)) {
        DirectDetails(m, o, stmts[1..], m.exec(s, w), steps + 1, if IsBarrier(s) then done + Accesses(seen) else done,
                      if IsBarrier(s) then [] else seen,
                      counts + CountsIn(CountCalls(o, s, at)) + CountsIn(DetailCalls(s))
                      + CountsIn(UntakenCalls(o, s, at)), NextInstr(s, at), op);
      }
    }
  }

  /** On every run of an instrumented block the trace accounts for exactly the bytes that the detailed counts of loads,
      or stores, stand for and those of the dirty helpers run after the preamble. */
  lemma {:induction false} DetailsAreTraced<G(!new)>(m: Machine<G>, o: Options, stmts: seq<Stmt>, w: World<G>,
                                                     defined: set<nat>, op: DetailOp)
    requires IsMachine(m) && Ssa(stmts, defined) && !op.OpAlu?
    ensures var r := Execute(m, Instrumented(o, stmts), w, 0, [], multiset{});
            var n := PreambleLength(stmts);
            var pre := Run(m, stmts[..n], w, 0);
            TracedBytes(r.trace, op)
            == CountedBytes(r.counts, op) + if pre.exit.Some? then 0 else DirtyBytes(m, stmts[n..], pre.world, op)
  {
    hide Execute;
    hide Instrumented;
    hide Direct;
    hide DirtyBytes;
    hide Run;
    hide CountsIn;
    hide Ssa;
    hide IsMachine;
    var n := PreambleLength(stmts);
    var pre := Run(m, stmts[..n], w, 0);
    InstrumentationIsFaithful(m, o, stmts, w, defined);
    assert Accesses([]) == [];
    if pre.exit.None? {
      CountsHaveNoDetails(o, NoOp, Instr(0, 0), op);
      DirectDetails(m, o, stmts[n..], pre.world, pre.steps, [], [], CountsIn(Entry(o)), Instr(0, 0), op);
    }
  }
}
