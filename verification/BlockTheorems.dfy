/** Whole superblocks, and whole sessions of them. */
module BlockTheorems {
  import opened Wrappers
  import opened Vex
  import opened EventBuffer
  import opened Instrument
  import opened TraceCorrect

  // ---------- the code itself ----------

  /** The guest's statements in instrumented code. */
  function Erase(code: seq<OutStmt>): seq<Stmt> {
    if code == [] then [] else (if code[0].Guest? then [code[0].s] else []) + Erase(code[1..])
  }

  /** The statements that are not skipped. */
  function Live(stmts: seq<Stmt>): seq<Stmt> {
    if stmts == [] then [] else (if Skipped(stmts[0]) then [] else [stmts[0]]) + Live(stmts[1..])
  }

  lemma {:induction false} EraseAppend(a: seq<OutStmt>, b: seq<OutStmt>)
    ensures Erase(a + b) == Erase(a) + Erase(b)
    decreases |a|
  {
    if a == [] {
      assert a + b == b;
    } else {
      var first := if a[0].Guest? then [a[0].s] else [];
      assert (a + b)[0] == a[0] && (a + b)[1..] == a[1..] + b;
      EraseAppend(a[1..], b);
      assert first + (Erase(a[1..]) + Erase(b)) == first + Erase(a[1..]) + Erase(b);
    }
  }

  lemma {:induction false} EraseHelpers(calls: seq<Call>)
    ensures Erase(Helpers(calls)) == []
    decreases |calls|
  {
    if calls != [] {
      assert Helpers(calls)[1..] == Helpers(calls[1..]);
      EraseHelpers(calls[1..]);
    }
  }

  lemma {:induction false} EraseVerbatim(stmts: seq<Stmt>)
    ensures Erase(Verbatim(stmts)) == stmts
    decreases |stmts|
  {
    if stmts != [] {
      assert Verbatim(stmts)[1..] == Verbatim(stmts[1..]);
      EraseVerbatim(stmts[1..]);
    }
  }

  lemma {:induction false} EraseBody(o: Options, stmts: seq<Stmt>, pending: seq<Event>, at: Instr)
    requires |pending| <= N_EVENTS
    ensures Erase(Body(o, stmts, pending, at)) == Live(stmts)
    decreases |stmts|
  {
    hide Wrap;
    if stmts == [] {
      EraseHelpers(CountIf(o.basic, SBsCompleted) + Traces(pending));
    } else if Skipped(stmts[0]) {
      EraseBody(o, stmts[1..], pending, at);
    } else {
      var a := Wrap(o, stmts[0], pending, at);
      var guest, rest := [Guest(stmts[0])], Body(o, stmts[1..], a.pending, a.at);
      Append4(Helpers(a.before), guest, Helpers(a.after), rest);
      EraseAppend(Helpers(a.before), guest + Helpers(a.after) + rest);
      EraseAppend(guest + Helpers(a.after), rest);
      EraseAppend(guest, Helpers(a.after));
      EraseHelpers(a.before);
      EraseHelpers(a.after);
      EraseBody(o, stmts[1..], a.pending, a.at);
      assert guest[1..] == [];
    }
  }

  /** Without its helper calls, instrumented code is the original: the preamble as it was, then every statement that is
      neither null nor a no-op, in order. */
  lemma {:induction false} OnlyHelpersAdded(o: Options, stmts: seq<Stmt>)
    ensures var n := PreambleLength(stmts); Erase(Instrumented(o, stmts)) == stmts[..n] + Live(stmts[n..])
  {
    var n := PreambleLength(stmts);
    var pre, entry, body := Verbatim(stmts[..n]), Helpers(Entry(o)), Body(o, stmts[n..], [], Instr(0, 0));
    Parts(o, stmts);
    EraseVerbatim(stmts[..n]);
    EraseHelpers(Entry(o));
    EraseBody(o, stmts[n..], [], Instr(0, 0));
    hide Erase;
    hide Body;
    hide Live;
    hide Verbatim;
    hide Helpers;
    hide Instrumented;
    EraseThree(pre, entry, body, stmts[..n], Live(stmts[n..]));
  }

  lemma {:induction false} EraseThree(a: seq<OutStmt>, b: seq<OutStmt>, c: seq<OutStmt>, x: seq<Stmt>, z: seq<Stmt>)
    requires Erase(a) == x && Erase(b) == [] && Erase(c) == z
    ensures Erase(a + (b + c)) == x + z
  {
    hide Erase;
    EraseAppend(a, b + c);
    EraseAppend(b, c);
    assert [] + z == z;
  }

  lemma {:induction false} Parts(o: Options, stmts: seq<Stmt>)
    ensures var n := PreambleLength(stmts);
            Instrumented(o, stmts) == Verbatim(stmts[..n]) + (Helpers(Entry(o)) + Body(o, stmts[n..], [], Instr(0, 0)))
  {
    hide Body;
    hide Verbatim;
    hide Helpers;
  }

  // ---------- running it ----------

  lemma {:induction false} DirectEnding<G(!new)>(m: Machine<G>, o: Options, stmts: seq<Stmt>, w: World<G>, steps: nat,
      done: seq<Access>, open: seq<Seen>, counts: multiset<Counter>, at: Instr)
    ensures Direct(m, o, stmts, w, steps, done, open, counts, at).ending == Run(m, stmts, w, steps)
    decreases |stmts|
  {
    hide SeeAll;
    hide EventsOf;
    hide CountCalls;
    hide DetailCalls;
    hide UntakenCalls;
    if stmts == [] {
    } else if Skipped(stmts[0]) {
      DirectEnding(m, o, stmts[1..], w, steps, done, open, counts, at);
    } else {
      var s := stmts[0];
      var seen := SeeAll(open, EventsOf(s), w);
      DirectEnding(m, o, stmts[1..], m.exec(s, w), steps + 1, if IsBarrier(s) then done + Accesses(seen) else done,
                   if IsBarrier(s) then [] else seen,
                   counts + CountsIn(CountCalls(o, s, at)) + CountsIn(DetailCalls(s)) + CountsIn(UntakenCalls(o, s, at)),
                   NextInstr(s, at));
    }
  }

  lemma {:induction false} RunAppend<G(!new)>(m: Machine<G>, a: seq<Stmt>, b: seq<Stmt>, w: World<G>, steps: nat)
    ensures var first := Run(m, a, w, steps);
            Run(m, a + b, w, steps) == if first.exit.Some? then first else Run(m, b, first.world, first.steps)
    decreases |a|
  {
    if a == [] {
      assert a + b == b;
    } else {
      assert (a + b)[1..] == a[1..] + b;
      if Skipped(a[0]) {
        RunAppend(m, a[1..], b, w, steps);
      } else if !(a[0].Exit? && m.taken(a[0], w)) {
        RunAppend(m, a[1..], b, m.exec(a[0], w), steps + 1);
      }
    }
  }

  lemma {:induction false} ExecuteVerbatim<G(!new)>(m: Machine<G>, stmts: seq<Stmt>, rest: seq<OutStmt>, w: World<G>,
      steps: nat)
    ensures var first := Run(m, stmts, w, steps);
            Execute(m, Verbatim(stmts) + rest, w, steps, [], multiset{})
            == if first.exit.Some? then Recorded(first, [], multiset{})
               else Execute(m, rest, first.world, first.steps, [], multiset{})
    decreases |stmts|
  {
    var code := Verbatim(stmts) + rest;
    if stmts == [] {
      assert code == rest;
    } else {
      assert code[0] == Guest(stmts[0]) && code[1..] == Verbatim(stmts[1..]) + rest;
      if Skipped(stmts[0]) {
        ExecuteVerbatim(m, stmts[1..], rest, w, steps);
      } else if !(stmts[0].Exit? && m.taken(stmts[0], w)) {
        ExecuteVerbatim(m, stmts[1..], rest, m.exec(stmts[0], w), steps + 1);
      }
    }
  }

  lemma {:induction false} SsaSuffix(stmts: seq<Stmt>, n: nat, defined: set<nat>) returns (later: set<nat>)
    requires n <= |stmts| && Ssa(stmts, defined)
    ensures Ssa(stmts[n..], later)
    decreases n
  {
    if n == 0 {
      later := defined;
    } else {
      later := SsaSuffix(stmts[1..], n - 1, defined + Defines(stmts[0]));
      assert stmts[1..][n - 1..] == stmts[n..];
    }
  }

  /** What an observer of the original notes: nothing in the preamble, everything after it. */
  function Observed<G(!new)>(m: Machine<G>, o: Options, stmts: seq<Stmt>, w: World<G>): Recorded<G> {
    var n := PreambleLength(stmts);
    var pre := Run(m, stmts[..n], w, 0);
    if pre.exit.Some? then Recorded(pre, [], multiset{})
    else Direct(m, o, stmts[n..], pre.world, pre.steps, [], [], CountsIn(Entry(o)), Instr(0, 0))
  }

  /** On every machine and from every state: instrumented code ends as the original does, in the same guest state and
      at the same exit, having recorded exactly what the observer of the original notes. */
  lemma {:induction false} InstrumentationIsFaithful<G(!new)>(m: Machine<G>, o: Options, stmts: seq<Stmt>, w: World<G>, defined: set<nat>)
    requires IsMachine(m) && Ssa(stmts, defined)
    ensures Execute(m, Instrumented(o, stmts), w, 0, [], multiset{}) == Observed(m, o, stmts, w)
    ensures Observed(m, o, stmts, w).ending == Run(m, stmts, w, 0)
  {
    hide Body;
    hide Execute;
    hide Direct;
    hide Run;
    hide Verbatim;
    hide Helpers;
    hide CountsIn;
    hide Ssa;
    hide IsMachine;
    var n := PreambleLength(stmts);
    var pre := Run(m, stmts[..n], w, 0);
    var body := Body(o, stmts[n..], [], Instr(0, 0));
    Parts(o, stmts);
    ExecuteVerbatim(m, stmts[..n], Helpers(Entry(o)) + body, w, 0);
    assert stmts == stmts[..n] + stmts[n..];
    RunAppend(m, stmts[..n], stmts[n..], w, 0);
    if pre.exit.None? {
      EntryCounts(o);
      ExecuteCounts(m, Entry(o), body, pre.world, pre.steps, [], multiset{});
      assert multiset{} + CountsIn(Entry(o)) == CountsIn(Entry(o));
      var later := SsaSuffix(stmts, n, defined);
      NothingInStep([], pre.world);
      BodyIsDirect(m, o, stmts[n..], later, [], Instr(0, 0), pre.world, pre.steps, [], [], [], CountsIn(Entry(o)));
      DirectEnding(m, o, stmts[n..], pre.world, pre.steps, [], [], CountsIn(Entry(o)), Instr(0, 0));
    }
  }

  lemma EntryCounts(o: Options)
    ensures OnlyCounts(Entry(o))
    ensures CountsIn(Entry(o)) == if o.basic then multiset{SBsEntered} else multiset{}
  {
    CountIfCounts(o.basic, SBsEntered);
    CountsInAppend(CountIf(o.basic, SBsEntered), [TraceSuperblock]);
    assert [TraceSuperblock][1..] == [];
  }

  // ---------- counters ----------

  /** The guest's own branch is taken: the exit is, unless VEX inverted the condition to exit to the address behind the
      instruction. */
  predicate GuestTakes(s: Stmt, at: Instr, exitTaken: bool)
    requires s.Exit?
  {
    if s.dst == (at.addr + at.len) % 0x1_0000_0000_0000_0000 then !exitTaken else exitTaken
  }

  lemma NextIsBehind(at: Instr)
    ensures at.Next() == (at.addr + at.len) % 0x1_0000_0000_0000_0000
  {}

  /** Branches the guest takes, branches it meets, and instructions it starts in a run. */
  datatype Tally = Tally(taken: nat, branches: nat, instrs: nat)

  function TallyOf<G(!new)>(m: Machine<G>, stmts: seq<Stmt>, w: World<G>, at: Instr): Tally
    decreases |stmts|
  {
    if stmts == [] then Tally(0, 0, 0)
    else if Skipped(stmts[0]) then TallyOf(m, stmts[1..], w, at)
    else
      var s := stmts[0];
      var exits := s.Exit? && m.taken(s, w);
      var rest := if exits then Tally(0, 0, 0) else TallyOf(m, stmts[1..], m.exec(s, w), if s.IMark? then Instr(s.iaddr, s.len) else at);
      Tally(rest.taken + (if s.Exit? && GuestTakes(s, at, exits) then 1 else 0),
            rest.branches + (if s.Exit? then 1 else 0), rest.instrs + (if s.IMark? then 1 else 0))
  }

  lemma {:induction false} CountsInAppend(a: seq<Call>, b: seq<Call>)
    ensures CountsIn(a + b) == CountsIn(a) + CountsIn(b)
    decreases |a|
  {
    if a == [] {
      assert a + b == b;
    } else {
      assert (a + b)[1..] == a[1..] + b;
      CountsInAppend(a[1..], b);
    }
  }

  lemma CountIfCounts(basic: bool, c: Counter)
    ensures CountsIn(CountIf(basic, c)) == if basic then multiset{c} else multiset{}
  {
    assert [Count(c)][1..] == [];
  }

  /** What the calls before a statement count, with basic counts on. */
  lemma {:induction false} CountsBefore(o: Options, s: Stmt, at: Instr)
    requires o.basic
    ensures CountsIn(CountCalls(o, s, at))
            == multiset{IRStmts} + match s
                                   case IMark(addr, _) =>
                                     multiset{GuestInstrs} + (if addr in o.entries then multiset{FuncCalls} else multiset{})
                                   case Exit(dst, _) => multiset{if dst == at.Next() then IJccs else Jccs}
                                   case _ => multiset{}
  {
    hide CountsIn;
    hide Instr.Next;
    CountIfCounts(true, IRStmts);
    NoCounts();
    match s
    case IMark(addr, _) =>
      CountIfCounts(true, GuestInstrs);
      CountIfCounts(addr in o.entries, FuncCalls);
      CountsInAppend(CountIf(true, GuestInstrs), CountIf(addr in o.entries, FuncCalls));
      CountsInAppend(CountIf(true, IRStmts), CountIf(true, GuestInstrs) + CountIf(addr in o.entries, FuncCalls));
    case Exit(dst, _) =>
      var jcc := if dst == at.Next() then IJccs else Jccs;
      CountIfCounts(true, jcc);
      CountsInAppend(CountIf(true, IRStmts), CountIf(true, jcc));
    case _ =>
      CountsInAppend(CountIf(true, IRStmts), []);
  }

  lemma CountsUntaken(o: Options, s: Stmt, at: Instr)
    requires o.basic
    ensures CountsIn(UntakenCalls(o, s, at))
            == if s.Exit? then multiset{if s.dst == at.Next() then IJccsUntaken else JccsUntaken} else multiset{}
  {
    hide CountsIn;
    hide Instr.Next;
    NoCounts();
    if s.Exit? { CountIfCounts(true, if s.dst == at.Next() then IJccsUntaken else JccsUntaken); }
  }

  lemma NoCounts()
    ensures CountsIn([]) == multiset{}
  {}

  /** What `md_fini` reports: its totals, from the counters. */
  datatype Report = Report(entered: int, completed: int, irStmts: int, instrs: int, taken: int, branches: int) {
    function Plus(r: Report): Report {
      Report(entered + r.entered, completed + r.completed, irStmts + r.irStmts, instrs + r.instrs, taken + r.taken,
             branches + r.branches)
    }
  }

  function Totals(c: multiset<Counter>): Report {
    Report(c[SBsEntered], c[SBsCompleted], c[IRStmts], c[GuestInstrs],
           (c[Jccs] as int - c[JccsUntaken] as int) + c[IJccsUntaken], c[Jccs] + c[IJccs])
  }

  lemma TotalsAdd(a: multiset<Counter>, b: multiset<Counter>)
    ensures Totals(a + b) == Totals(a).Plus(Totals(b))
  {}

  lemma DetailTotals(s: Stmt)
    ensures Totals(CountsIn(DetailCalls(s))) == Report(0, 0, 0, 0, 0, 0)
  {
    DetailsOnly(s);
    OnlyDetails(DetailCalls(s));
    hide DetailCalls;
    hide CountsIn;
  }

  lemma DetailsOnly(s: Stmt)
    ensures forall c <- DetailCalls(s) :: c.Count? && c.c.Detail?
  {}

  lemma {:induction false} OnlyDetails(calls: seq<Call>)
    requires forall c <- calls :: c.Count? && c.c.Detail?
    ensures forall c <- CountsIn(calls) :: c.Detail?
  {
    if calls != [] {
      OnlyDetails(calls[1..]);
    }
  }

  lemma BeforeTotals(o: Options, s: Stmt, at: Instr)
    requires o.basic
    ensures Totals(CountsIn(CountCalls(o, s, at)))
            == Report(0, 0, 1, if s.IMark? then 1 else 0, if s.Exit? && s.dst != at.Next() then 1 else 0,
                      if s.Exit? then 1 else 0)
  {
    CountsBefore(o, s, at);
    hide CountsIn;
    hide CountCalls;
    hide Instr.Next;
  }

  /** Behind a branch that is not taken one count is taken back, or made up for if its condition was inverted. */
  lemma UntakenTotals(o: Options, s: Stmt, at: Instr)
    requires o.basic
    ensures Totals(CountsIn(UntakenCalls(o, s, at)))
            == Report(0, 0, 0, 0, if !s.Exit? then 0 else if s.dst == at.Next() then 1 else -1, 0)
  {
    CountsUntaken(o, s, at);
    hide CountsIn;
    hide UntakenCalls;
    hide Instr.Next;
  }

  lemma TotalsOfThree(a: multiset<Counter>, b: multiset<Counter>, c: multiset<Counter>)
    ensures Totals(a + b) == Totals(a).Plus(Totals(b))
    ensures Totals(a + b + c) == Totals(a).Plus(Totals(b)).Plus(Totals(c))
  {
    hide Totals;
    TotalsAdd(a, b);
    TotalsAdd(a + b, c);
  }

  /** The report of one statement. An exit that is taken skips the calls behind it. */
  lemma {:induction false} StatementTotals(o: Options, s: Stmt, at: Instr, exits: bool)
    requires o.basic && (exits ==> s.Exit?)
    ensures var before := CountsIn(CountCalls(o, s, at)) + CountsIn(DetailCalls(s));
            Totals(if exits then before else before + CountsIn(UntakenCalls(o, s, at)))
            == Report(0, 0, 1, if s.IMark? then 1 else 0, if s.Exit? && GuestTakes(s, at, exits) then 1 else 0,
                      if s.Exit? then 1 else 0)
  {
    hide CountsIn;
    hide DetailCalls;
    hide CountCalls;
    hide UntakenCalls;
    hide Instr.Next;
    hide Totals;
    hide Report.Plus;
    var a, b, c := CountsIn(CountCalls(o, s, at)), CountsIn(DetailCalls(s)), CountsIn(UntakenCalls(o, s, at));
    BeforeTotals(o, s, at);
    UntakenTotals(o, s, at);
    DetailTotals(s);
    TotalsOfThree(a, b, c);
    NextIsBehind(at);
    var inverted := s.Exit? && s.dst == at.Next();
    var taken, untaken := if s.Exit? && !inverted then 1 else 0, if !s.Exit? then 0 else if inverted then 1 else -1;
    AddUp(if s.IMark? then 1 else 0, taken, if s.Exit? then 1 else 0, untaken);
  }

  lemma AddUp(instrs: int, taken: int, branches: int, untaken: int)
    ensures var before := Report(0, 0, 1, instrs, taken, branches).Plus(Report(0, 0, 0, 0, 0, 0));
            && before == Report(0, 0, 1, instrs, taken, branches)
            && before.Plus(Report(0, 0, 0, 0, untaken, 0)) == Report(0, 0, 1, instrs, taken + untaken, branches)
  {}

  /** The report of a run from the first instruction mark on. */
  lemma {:induction false} DirectTotals<G(!new)>(m: Machine<G>, o: Options, stmts: seq<Stmt>, w: World<G>, steps: nat,
      done: seq<Access>, open: seq<Seen>, counts: multiset<Counter>, at: Instr)
    requires o.basic
    ensures var r := Direct(m, o, stmts, w, steps, done, open, counts, at);
            var t := TallyOf(m, stmts, w, at);
            Totals(r.counts) == Totals(counts).Plus(
              Report(0, if r.ending.exit.None? then 1 else 0, r.ending.steps - steps, t.instrs, t.taken, t.branches))
    decreases |stmts|
  {
    hide SeeAll;
    hide EventsOf;
    hide CountCalls;
    hide DetailCalls;
    hide UntakenCalls;
    hide CountsIn;
    hide Totals;
    hide GuestTakes;
    if stmts == [] {
      CompletedTotals(o, counts);
    } else if Skipped(stmts[0]) {
      DirectTotals(m, o, stmts[1..], w, steps, done, open, counts, at);
    } else {
      var s := stmts[0];
      var seen := SeeAll(open, EventsOf(s), w);
      var before := CountsIn(CountCalls(o, s, at)) + CountsIn(DetailCalls(s));
      var after := CountsIn(UntakenCalls(o, s, at));
      StatementTotals(o, s, at, s.Exit? && m.taken(s, w));
      AddThree(counts, CountsIn(CountCalls(o, s, at)), CountsIn(DetailCalls(s)), after);
      TotalsAdd(counts, before);
      TotalsAdd(counts, before + after);
      if !(s.Exit? && m.taken(s, w)) {
        DirectTotals(m, o, stmts[1..], m.exec(s, w), steps + 1, if IsBarrier(s) then done + Accesses(seen) else done,
                     if IsBarrier(s) then [] else seen,
                     counts + CountsIn(CountCalls(o, s, at)) + CountsIn(DetailCalls(s)) + after, NextInstr(s, at));
      }
    }
  }

  lemma AddThree(a: multiset<Counter>, b: multiset<Counter>, c: multiset<Counter>, d: multiset<Counter>)
    ensures a + b + c == a + (b + c) && a + b + c + d == a + (b + c + d)
  {}

  lemma {:induction false} CompletedTotals(o: Options, counts: multiset<Counter>)
    requires o.basic
    ensures Totals(counts + CountsIn(CountIf(o.basic, SBsCompleted))) == Totals(counts).Plus(Report(0, 1, 0, 0, 0, 0))
  {
    hide Totals;
    hide CountsIn;
    CountIfCounts(o.basic, SBsCompleted);
    OneCompleted();
    TotalsAdd(counts, multiset{SBsCompleted});
  }

  lemma OneCompleted()
    ensures Totals(multiset{SBsCompleted}) == Report(0, 1, 0, 0, 0, 0)
  {}

  // ---------- sessions ----------

  /** A superblock entered in some state. */
  datatype Entered<G> = Entered(stmts: seq<Stmt>, world: World<G>)

  /** The counters after running instrumented blocks one after the other. */
  function Session<G(!new)>(m: Machine<G>, o: Options, runs: seq<Entered<G>>): multiset<Counter> {
    if runs == [] then multiset{} else
    var last := runs[|runs| - 1];
    Session(m, o, runs[..|runs| - 1]) +
    Execute(m, Instrumented(o, last.stmts), last.world, 0, [], multiset{}).counts
  }

  /** The same totals, read off the original blocks: those that get past their preamble, those that end without an
      exit, the statements and branches after the preamble. */
  function Expected<G(!new)>(m: Machine<G>, run: Entered<G>): Report {
    var n := PreambleLength(run.stmts);
    var pre := Run(m, run.stmts[..n], run.world, 0);
    if pre.exit.Some? then Report(0, 0, 0, 0, 0, 0) else
    var whole := Run(m, run.stmts, run.world, 0);
    var t := TallyOf(m, run.stmts[n..], pre.world, Instr(0, 0));
    Report(1, if whole.exit.None? then 1 else 0, whole.steps - pre.steps, t.instrs, t.taken, t.branches)
  }

  function ExpectedAll<G(!new)>(m: Machine<G>, runs: seq<Entered<G>>): Report {
    if runs == [] then Report(0, 0, 0, 0, 0, 0)
    else ExpectedAll(m, runs[..|runs| - 1]).Plus(Expected(m, runs[|runs| - 1]))
  }

  lemma EntryTotals(o: Options)
    requires o.basic
    ensures Totals(CountsIn(Entry(o))) == Report(1, 0, 0, 0, 0, 0)
  {
    EntryCounts(o);
    hide CountsIn;
    hide Entry;
  }

  /** The report of what an observer counts in a block. */
  lemma {:induction false} ObservedTotals<G(!new)>(m: Machine<G>, o: Options, run: Entered<G>)
    requires o.basic && Observed(m, o, run.stmts, run.world).ending == Run(m, run.stmts, run.world, 0)
    ensures Totals(Observed(m, o, run.stmts, run.world).counts) == Expected(m, run)
  {
    hide Direct;
    hide Run;
    hide TallyOf;
    hide CountsIn;
    hide Totals;
    hide Entry;
    var n := PreambleLength(run.stmts);
    var pre := Run(m, run.stmts[..n], run.world, 0);
    if pre.exit.None? {
      EntryTotals(o);
      DirectTotals(m, o, run.stmts[n..], pre.world, pre.steps, [], [], CountsIn(Entry(o)), Instr(0, 0));
    } else {
      NothingTotals();
    }
  }

  lemma NothingTotals()
    ensures Totals(multiset{}) == Report(0, 0, 0, 0, 0, 0)
  {}

  lemma {:induction false} RunTotals<G(!new)>(m: Machine<G>, o: Options, run: Entered<G>)
    requires IsMachine(m) && o.basic && Ssa(run.stmts, {})
    ensures Totals(Execute(m, Instrumented(o, run.stmts), run.world, 0, [], multiset{}).counts) == Expected(m, run)
  {
    hide Execute;
    hide Instrumented;
    hide Observed;
    hide Expected;
    hide Run;
    hide Ssa;
    hide IsMachine;
    hide Totals;
    InstrumentationIsFaithful(m, o, run.stmts, run.world, {});
    ObservedTotals(m, o, run);
  }

  /** Over any session the report is the sum of what the original blocks do. */
  lemma {:induction false} SessionTotals<G(!new)>(m: Machine<G>, o: Options, runs: seq<Entered<G>>)
    requires IsMachine(m) && o.basic && forall r <- runs :: Ssa(r.stmts, {})
    ensures Totals(Session(m, o, runs)) == ExpectedAll(m, runs)
  {
    hide Execute;
    hide Instrumented;
    hide Expected;
    hide Ssa;
    hide IsMachine;
    if runs != [] {
      var last := runs[|runs| - 1];
      SessionTotals(m, o, runs[..|runs| - 1]);
      RunTotals(m, o, last);
      TotalsAdd(Session(m, o, runs[..|runs| - 1]),
                Execute(m, Instrumented(o, last.stmts), last.world, 0, [], multiset{}).counts);
    }
  }

  /** The runs that got past their preamble and then left by an exit. */
  function Exits<G(!new)>(m: Machine<G>, runs: seq<Entered<G>>): nat {
    if runs == [] then 0 else
    var last := runs[|runs| - 1];
    var n := PreambleLength(last.stmts);
    Exits(m, runs[..|runs| - 1]) +
    if Run(m, last.stmts[..n], last.world, 0).exit.None? && Run(m, last.stmts, last.world, 0).exit.Some? then 1 else 0
  }

  /** Blocks entered are blocks completed and blocks left by an exit. */
  lemma {:induction false} EnteredIsCompletedOrLeft<G(!new)>(m: Machine<G>, o: Options, runs: seq<Entered<G>>)
    requires IsMachine(m) && o.basic && forall r <- runs :: Ssa(r.stmts, {})
    ensures var c := Session(m, o, runs); c[SBsEntered] == c[SBsCompleted] + Exits(m, runs)
  {
    SessionTotals(m, o, runs);
    ExitsExpected(m, runs);
  }

  lemma {:induction false} ExitsExpected<G(!new)>(m: Machine<G>, runs: seq<Entered<G>>)
    ensures ExpectedAll(m, runs).entered == ExpectedAll(m, runs).completed + Exits(m, runs)
  {
    hide Run;
    hide TallyOf;
    if runs != [] {
      ExitsExpected(m, runs[..|runs| - 1]);
    }
  }
}
