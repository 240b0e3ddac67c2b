/** Every counter of a run is the number of times its event happened in the original block. */
module CounterTotals {
  import opened Wrappers
  import opened Bytes
  import opened Vex
  import opened Instrument
  import opened TraceCorrect
  import opened BlockTheorems

  function One(b: bool): nat { if b then 1 else 0 }

  /** How many values of type `ty` a statement loads, stores or computes. */
  function Operations(s: Stmt, op: DetailOp, ty: TypeIndex): nat {
    match s
    case WrTmp(_, Load(_, t)) => One(op.OpLoad? && t == ty)
    case WrTmp(_, Alu(t, _)) => One(op.OpAlu? && t == ty)
    case Store(_, t, _) => One(op.OpStore? && t == ty)
    case CAS(_, t, double, _, _) => One(!op.OpAlu? && t == ty) * (if double then 2 else 1)
    case LL(_, t, _, _) => One(op.OpLoad? && t == ty)
    case SC(_, t, _, _) => One(op.OpStore? && t == ty)
    case _ => 0
  }

  /** How often what `c` counts happens when a statement runs; `exits` says that it is an exit and taken. */
  function Times(o: Options, s: Stmt, at: Instr, exits: bool, c: Counter): nat {
    match c
    case SBsEntered | SBsCompleted => 0
    case IRStmts => One(o.basic)
    case GuestInstrs => One(o.basic && s.IMark?)
    case FuncCalls => One(o.basic && s.IMark? && s.iaddr in o.entries)
    case Jccs => One(o.basic && s.Exit? && s.dst != (at.addr + at.len) % WORD)
    case JccsUntaken => One(o.basic && s.Exit? && s.dst != (at.addr + at.len) % WORD && !exits)
    case IJccs => One(o.basic && s.Exit? && s.dst == (at.addr + at.len) % WORD)
    case IJccsUntaken => One(o.basic && s.Exit? && s.dst == (at.addr + at.len) % WORD && !exits)
    case Detail(op, ty) => Operations(s, op, ty)
  }

  /** The same over a run of the original statements. */
  function TimesIn<G(!new)>(m: Machine<G>, o: Options, stmts: seq<Stmt>, w: World<G>, at: Instr, c: Counter): nat
    decreases |stmts|
  {
    if stmts == [] then 0
    else if Skipped(stmts[0]) then TimesIn(m, o, stmts[1..], w, at, c)
    else
      var s := stmts[0];
      var exits := s.Exit? && m.taken(s, w);
      Times(o, s, at, exits, c)
      + (if exits then 0 else TimesIn(m, o, stmts[1..], m.exec(s, w), if s.IMark? then Instr(s.iaddr, s.len) else at, c))
  }

  // ---------- one statement ----------

  lemma {:induction false} CountFirstTimes(counted: Counter, rest: seq<Call>, c: Counter)
    ensures CountsIn([Count(counted)] + rest)[c] == One(counted == c) + CountsIn(rest)[c]
  {
    assert ([Count(counted)] + rest)[1..] == rest;
  }

  lemma CountOneTimes(counted: Counter, c: Counter)
    ensures CountsIn([Count(counted)])[c] == One(counted == c)
  {
    hide CountsIn;
    NoCounts();
    CountFirstTimes(counted, [], c);
    assert [Count(counted)] + [] == [Count(counted)];
  }

  lemma CasTimes(ty: TypeIndex, c: Counter)
    ensures var load, store := Count(Detail(OpLoad, ty)), Count(Detail(OpStore, ty));
            var times := One(c == load.c) + One(c == store.c);
            CountsIn([load, store])[c] == times && CountsIn([load, load, store, store])[c] == 2 * times
  {
    hide CountsIn;
    var load, store := Count(Detail(OpLoad, ty)), Count(Detail(OpStore, ty));
    CountOneTimes(store.c, c);
    CountFirstTimes(store.c, [store], c);
    CountFirstTimes(load.c, [store], c);
    CountFirstTimes(load.c, [store, store], c);
    CountFirstTimes(load.c, [load, store, store], c);
    assert [store] + [store] == [store, store] && [load] + [store] == [load, store];
    assert [load] + [store, store] == [load, store, store];
    assert [load] + [load, store, store] == [load, load, store, store];
  }

  lemma CountIfTimes(basic: bool, counted: Counter, c: Counter)
    ensures CountsIn(CountIf(basic, counted))[c] == One(basic && counted == c)
  {
    CountIfCounts(basic, counted);
  }

  lemma BeforeTimes(o: Options, s: Stmt, at: Instr, c: Counter)
    ensures CountsIn(CountCalls(o, s, at))[c]
            == One(o.basic && c == IRStmts)
               + match s
                 case IMark(addr, _) => One(o.basic && c == GuestInstrs) + One(o.basic && addr in o.entries && c == FuncCalls)
                 case Exit(dst, _) => One(o.basic && c == if dst == at.Next() then IJccs else Jccs)
                 case _ => 0
  {
    hide CountsIn;
    hide CountIf;
    hide Instr.Next;
    NoCounts();
    CountIfTimes(o.basic, IRStmts, c);
    match s
    case IMark(addr, _) =>
      var a, b := CountIf(o.basic, GuestInstrs), CountIf(o.basic && addr in o.entries, FuncCalls);
      CountIfTimes(o.basic, GuestInstrs, c);
      CountIfTimes(o.basic && addr in o.entries, FuncCalls, c);
      CountsInAppend(a, b);
      CountsInAppend(CountIf(o.basic, IRStmts), a + b);
    case Exit(dst, _) =>
      var jcc := if dst == at.Next() then IJccs else Jccs;
      CountIfTimes(o.basic, jcc, c);
      CountsInAppend(CountIf(o.basic, IRStmts), CountIf(o.basic, jcc));
    case _ => CountsInAppend(CountIf(o.basic, IRStmts), []);
  }

  lemma UntakenTimes(o: Options, s: Stmt, at: Instr, c: Counter)
    ensures CountsIn(UntakenCalls(o, s, at))[c]
            == One(s.Exit? && o.basic && c == if s.dst == at.Next() then IJccsUntaken else JccsUntaken)
  {
    hide CountsIn;
    hide CountIf;
    hide Instr.Next;
    NoCounts();
    if s.Exit? { CountIfTimes(o.basic, if s.dst == at.Next() then IJccsUntaken else JccsUntaken, c); }
  }

  lemma DetailTimes(s: Stmt, c: Counter)
    ensures CountsIn(DetailCalls(s))[c] == if c.Detail? then Operations(s, c.op, c.ty) else 0
  {
    hide CountsIn;
    NoCounts();
    match s
    case WrTmp(_, Load(_, ty)) => CountOneTimes(Detail(OpLoad, ty), c);
    case WrTmp(_, Alu(ty, _)) => CountOneTimes(Detail(OpAlu, ty), c);
    case Store(_, ty, _) => CountOneTimes(Detail(OpStore, ty), c);
    case CAS(_, ty, double, _, _) => CasTimes(ty, c);
    case LL(_, ty, _, _) => CountOneTimes(Detail(OpLoad, ty), c);
    case SC(_, ty, _, _) => CountOneTimes(Detail(OpStore, ty), c);
    case _ =>
  }

  /** What the calls around a statement add to a counter is how often its event happens. */
  lemma {:induction false} StatementTimes(o: Options, s: Stmt, at: Instr, exits: bool, c: Counter)
    requires exits ==> s.Exit?
    ensures var before := CountsIn(CountCalls(o, s, at))[c] + CountsIn(DetailCalls(s))[c];
            (if exits then before else before + CountsIn(UntakenCalls(o, s, at))[c]) == Times(o, s, at, exits, c)
  {
    hide CountsIn;
    hide CountCalls;
    hide UntakenCalls;
    hide DetailCalls;
    hide Operations;
    hide Instr.Next;
    NextIsBehind(at);
    BeforeTimes(o, s, at, c);
    UntakenTimes(o, s, at, c);
    DetailTimes(s, c);
    NothingElse(s, c);
  }

  lemma NothingElse(s: Stmt, c: Counter)
    ensures c.Detail? && (s.IMark? || s.Exit?) ==> Operations(s, c.op, c.ty) == 0
  {}

  // ---------- blocks and sessions ----------

  lemma {:induction false} DirectTimes<G(!new)>(m: Machine<G>, o: Options, stmts: seq<Stmt>, w: World<G>, steps: nat,
      done: seq<Access>, open: seq<Seen>, counts: multiset<Counter>, at: Instr, c: Counter)
    ensures var r := Direct(m, o, stmts, w, steps, done, open, counts, at);
            r.counts[c] == counts[c] + TimesIn(m, o, stmts, w, at, c)
                           + One(o.basic && c == SBsCompleted && r.ending.exit.None?)
    decreases |stmts|
  {
    hide SeeAll;
    hide EventsOf;
    hide CountCalls;
    hide DetailCalls;
    hide UntakenCalls;
    hide CountsIn;
    hide Times;
    if stmts == [] {
      CountIfTimes(o.basic, SBsCompleted, c);
    } else if Skipped(stmts[0]) {
      DirectTimes(m, o, stmts[1..], w, steps, done, open, counts, at, c);
    } else {
      var s := stmts[0];
      var seen := SeeAll(open, EventsOf(s), w);
      StatementTimes(o, s, at, s.Exit? && m.taken(s, w), c);
      if !(s.Exit? && m.taken(s, w)) {
        DirectTimes(m, o, stmts[1..], m.exec(s, w), steps + 1, if IsBarrier(s) then done + Accesses(seen) else done,
                    if IsBarrier(s) then [] else seen,
                    counts + CountsIn(CountCalls(o, s, at)) + CountsIn(DetailCalls(s))
                    + CountsIn(UntakenCalls(o, s, at)), NextInstr(s, at), c);
      }
    }
  }

  /** How often what `c` counts happens in a block: nothing counts in a preamble that leaves it. */
  function TimesInBlock<G(!new)>(m: Machine<G>, o: Options, stmts: seq<Stmt>, w: World<G>, c: Counter): nat {
    var n := PreambleLength(stmts);
    var pre := Run(m, stmts[..n], w, 0);
    if pre.exit.Some? then 0
    else
      TimesIn(m, o, stmts[n..], pre.world, Instr(0, 0), c)
      + One(o.basic && c == SBsEntered)
      + One(o.basic && c == SBsCompleted && Run(m, stmts, w, 0).exit.None?)
  }

  /** Each counter of an instrumented run, for each operation and type, is how often its event happened. */
  lemma {:induction false} BlockCounters<G(!new)>(m: Machine<G>, o: Options, stmts: seq<Stmt>, w: World<G>,
                                                  defined: set<nat>, c: Counter)
    requires IsMachine(m) && Ssa(stmts, defined)
    ensures Execute(m, Instrumented(o, stmts), w, 0, [], multiset{}).counts[c] == TimesInBlock(m, o, stmts, w, c)
  {
    hide Execute;
    hide Instrumented;
    hide Direct;
    hide TimesIn;
    hide Run;
    hide CountsIn;
    hide Ssa;
    hide IsMachine;
    var n := PreambleLength(stmts);
    var pre := Run(m, stmts[..n], w, 0);
    InstrumentationIsFaithful(m, o, stmts, w, defined);
    if pre.exit.None? {
      EntryCounts(o);
      DirectTimes(m, o, stmts[n..], pre.world, pre.steps, [], [], CountsIn(Entry(o)), Instr(0, 0), c);
    }
  }

  function TimesInSession<G(!new)>(m: Machine<G>, o: Options, runs: seq<Entered<G>>, c: Counter): nat {
    if runs == [] then 0 else
    var last := runs[|runs| - 1];
    TimesInSession(m, o, runs[..|runs| - 1], c) + TimesInBlock(m, o, last.stmts, last.world, c)
  }

  /** And so over any session. */
  lemma {:induction false} SessionCounters<G(!new)>(m: Machine<G>, o: Options, runs: seq<Entered<G>>, c: Counter)
    requires IsMachine(m) && forall r <- runs :: Ssa(r.stmts, {})
    ensures Session(m, o, runs)[c] == TimesInSession(m, o, runs, c)
  {
    hide Execute;
    hide Instrumented;
    hide TimesInBlock;
    hide Ssa;
    hide IsMachine;
    if runs != [] {
      var last := runs[|runs| - 1];
      SessionCounters(m, o, runs[..|runs| - 1], c);
      BlockCounters(m, o, last.stmts, last.world, {}, c);
    }
  }

  // ---------- 64-bit counters ----------

  /** The branches taken, as `md_fini` computes them from counters that have wrapped. */
  function TakenJccs(c: multiset<Counter>): uint64 {
    Wrap64(Wrap64((Wrap64(c[Jccs]) as int) - (Wrap64(c[JccsUntaken]) as int)) + Wrap64(c[IJccsUntaken]))
  }

  function TotalJccs(c: multiset<Counter>): uint64 {
    Wrap64(Wrap64(c[Jccs]) + Wrap64(c[IJccs]))
  }

  /** However often the counters have wrapped, the report is right modulo 2^64. */
  lemma ReportWraps(c: multiset<Counter>)
    ensures TakenJccs(c) == Wrap64(Totals(c).taken) && TotalJccs(c) == Wrap64(Totals(c).branches)
  {
    hide Wrap64;
    WrapBoth(c[Jccs], c[IJccs]);
    WrapSubtract(Wrap64(c[Jccs]), c[JccsUntaken]);
    var jccs: int, untaken: int := c[Jccs], c[JccsUntaken];
    WrapAdd(jccs, -untaken);
    WrapBoth(jccs - untaken, c[IJccsUntaken]);
  }

  lemma WrapBoth(a: int, b: int)
    ensures Wrap64(Wrap64(a) + Wrap64(b)) == Wrap64(a + b)
  {
    hide Wrap64;
    WrapAdd(a, Wrap64(b));
    WrapAdd(b, a);
  }

  /** Over any session the reported number of branches taken is the number the original blocks take, modulo 2^64. */
  lemma TakenIsExact<G(!new)>(m: Machine<G>, o: Options, runs: seq<Entered<G>>)
    requires IsMachine(m) && o.basic && forall r <- runs :: Ssa(r.stmts, {})
    ensures TakenJccs(Session(m, o, runs)) == Wrap64(ExpectedAll(m, runs).taken)
    ensures TotalJccs(Session(m, o, runs)) == Wrap64(ExpectedAll(m, runs).branches)
  {
    hide Session;
    hide ExpectedAll;
    hide TakenJccs;
    hide TotalJccs;
    hide Totals;
    SessionTotals(m, o, runs);
    ReportWraps(Session(m, o, runs));
  }
}
