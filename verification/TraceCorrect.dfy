/** Instrumented code does what the original does and records what a direct observer of the original would. */
module TraceCorrect {
  import opened Wrappers
  import opened Bytes
  import opened Vex
  import opened EventBuffer
  import opened Instrument

  // ---------- a direct observer ----------

  /** An access seen when its statement runs: the event and the address its operand had then. */
  datatype Seen = Seen(ev: Event, addr: uint64) {
    function Recorded(): Access { Access(ev.kind, addr, ev.size) }
  }

  /** A write right after a read of the same operand and size makes it a modify. */
  function See<G>(open: seq<Seen>, ev: Event, w: World<G>): (r: seq<Seen>)
    ensures r != []
  {
    if open != [] && Merges(open[|open| - 1].ev, ev)
    then open[..|open| - 1] + [open[|open| - 1].(ev := open[|open| - 1].ev.(kind := EventDm))]
    else open + [Seen(ev, Eval(ev.addr, w))]
  }

  function SeeAll<G>(open: seq<Seen>, evs: seq<Event>, w: World<G>): seq<Seen>
    decreases |evs|
  {
    if evs == [] then open else SeeAll(See(open, evs[0], w), evs[1..], w)
  }

  function Accesses(open: seq<Seen>): (r: seq<Access>)
    ensures |r| == |open|
  {
    seq(|open|, i requires 0 <= i < |open| => open[i].Recorded())
  }

  /** The counters a list of counting calls adds to. */
  function CountsIn(calls: seq<Call>): multiset<Counter> {
    if calls == [] then multiset{}
    else (if calls[0].Count? then multiset{calls[0].c} else multiset{}) + CountsIn(calls[1..])
  }

  /** Runs the original statements, noting each access as it happens. `open` holds what has been seen since the last
      barrier and can still grow into a modify; `done` is behind a barrier. */
  function Direct<G(!new)>(m: Machine<G>, o: Options, stmts: seq<Stmt>, w: World<G>, steps: nat, done: seq<Access>,
                           open: seq<Seen>, counts: multiset<Counter>, at: Instr): Recorded<G>
    decreases |stmts|
  {
    if stmts == [] then
      Recorded(Ending(w, None, steps), done + Accesses(open), counts + CountsIn(CountIf(o.basic, SBsCompleted)))
    else if Skipped(stmts[0]) then Direct(m, o, stmts[1..], w, steps, done, open, counts, at)
    else
      var s := stmts[0];
      var seen := SeeAll(open, EventsOf(s), w);
      var done' := if IsBarrier(s) then done + Accesses(seen) else done;
      var open' := if IsBarrier(s) then [] else seen;
      var counts' := counts + CountsIn(CountCalls(o, s, at)) + CountsIn(DetailCalls(s));
      if s.Exit? && m.taken(s, w) then Recorded(Ending(w, Some(s), steps + 1), done', counts')
      else Direct(m, o, stmts[1..], m.exec(s, w), steps + 1, done', open',
                  counts' + CountsIn(UntakenCalls(o, s, at)), NextInstr(s, at))
  }

  // ---------- calls ----------

  ghost predicate OnlyCounts(calls: seq<Call>) {
    forall c <- calls :: !c.Trace?
  }

  lemma {:induction false} ExecuteCounts<G(!new)>(m: Machine<G>, calls: seq<Call>, rest: seq<OutStmt>, w: World<G>,
                                                  steps: nat, trace: seq<Access>, counts: multiset<Counter>)
    requires OnlyCounts(calls)
    ensures Execute(m, Helpers(calls) + rest, w, steps, trace, counts)
            == Execute(m, rest, w, steps, trace, counts + CountsIn(calls))
    decreases |calls|
  {
    var code := Helpers(calls) + rest;
    if calls == [] {
      assert code == rest;
      assert counts + CountsIn(calls) == counts;
    } else {
      assert code[0] == Helper(calls[0]) && code[1..] == Helpers(calls[1..]) + rest;
      var first := if calls[0].Count? then multiset{calls[0].c} else multiset{};
      assert counts + multiset{} == counts;
      assert calls[0] in calls;
      ExecuteCounts(m, calls[1..], rest, w, steps, trace, counts + first);
      assert counts + first + CountsIn(calls[1..]) == counts + CountsIn(calls);
    }
  }

  lemma {:induction false} ExecuteTraces<G(!new)>(m: Machine<G>, evs: seq<Event>, rest: seq<OutStmt>, w: World<G>,
                                                  steps: nat, trace: seq<Access>, counts: multiset<Counter>)
    ensures Execute(m, Helpers(Traces(evs)) + rest, w, steps, trace, counts)
            == Execute(m, rest, w, steps, trace + ObserveAll(evs, w), counts)
    decreases |evs|
  {
    var code := Helpers(Traces(evs)) + rest;
    if evs == [] {
      assert code == rest;
      assert trace + ObserveAll(evs, w) == trace;
    } else {
      assert code[0] == Helper(Trace(evs[0])) && code[1..] == Helpers(Traces(evs[1..])) + rest;
      ExecuteTraces(m, evs[1..], rest, w, steps, trace + [Observe(evs[0], w)], counts);
      assert trace + [Observe(evs[0], w)] + ObserveAll(evs[1..], w) == trace + ObserveAll(evs, w);
    }
  }

  // ---------- what is recorded and what is still to be recorded ----------

  /** The trace so far with the pending events, looked up now, is what the observer has noted. */
  ghost predicate InStep<G>(trace: seq<Access>, pending: seq<Event>, w: World<G>, done: seq<Access>, open: seq<Seen>) {
    && trace + ObserveAll(pending, w) == done + Accesses(open)
    && (pending == [] <==> open == [])
    && (pending != [] ==> pending[|pending| - 1] == open[|open| - 1].ev)
  }

  lemma {:induction false} MergeKeepsStep<G>(trace: seq<Access>, pending: seq<Event>, w: World<G>, done: seq<Access>,
                                             open: seq<Seen>, ev: Event)
    requires InStep(trace, pending, w, done, open)
    ensures InStep(trace, Merge(pending, ev), w, done, See(open, ev, w))
  {
    var pending', open' := Merge(pending, ev), See(open, ev, w);
    var now, noted := trace + ObserveAll(pending, w), done + Accesses(open);
    if pending != [] && Merges(pending[|pending| - 1], ev) {
      assert now[|now| - 1] == noted[|noted| - 1];
      assert trace + ObserveAll(pending', w) == now[..|now| - 1] + [now[|now| - 1].(kind := EventDm)];
      assert done + Accesses(open') == noted[..|noted| - 1] + [noted[|noted| - 1].(kind := EventDm)];
    } else {
      assert trace + ObserveAll(pending', w) == now + [Observe(ev, w)];
      assert done + Accesses(open') == noted + [Observe(ev, w)];
    }
  }

  lemma {:induction false} MergeAllKeepsStep<G>(trace: seq<Access>, pending: seq<Event>, w: World<G>, done: seq<Access>,
                                                open: seq<Seen>, evs: seq<Event>)
    requires InStep(trace, pending, w, done, open)
    ensures InStep(trace, MergeAll(pending, evs), w, done, SeeAll(open, evs, w))
    decreases |evs|
  {
    hide InStep;
    hide Merge;
    hide See;
    if evs != [] {
      MergeKeepsStep(trace, pending, w, done, open, evs[0]);
      MergeAllKeepsStep(trace, Merge(pending, evs[0]), w, done, See(open, evs[0], w), evs[1..]);
    }
  }

  /** Emitting some of the list changes nothing. */
  lemma EmitKeepsStep<G>(trace: seq<Access>, emitted: seq<Event>, pending: seq<Event>, w: World<G>, done: seq<Access>,
                         open: seq<Seen>)
    requires InStep(trace, emitted + pending, w, done, open)
    requires pending != [] || emitted == []
    ensures InStep(trace + ObserveAll(emitted, w), pending, w, done, open)
  {
    assert ObserveAll(emitted + pending, w) == ObserveAll(emitted, w) + ObserveAll(pending, w);
    assert trace + (ObserveAll(emitted, w) + ObserveAll(pending, w))
           == trace + ObserveAll(emitted, w) + ObserveAll(pending, w);
  }

  // ---------- single assignment ----------

  ghost predicate AllKnown(evs: seq<Event>, defined: set<nat>) {
    forall e <- evs :: Known(e.addr, defined)
  }

  lemma {:induction false} MergeAllKnown(list: seq<Event>, evs: seq<Event>, defined: set<nat>)
    requires AllKnown(list, defined) && AllKnown(evs, defined)
    ensures AllKnown(MergeAll(list, evs), defined)
    decreases |evs|
  {
    if evs != [] {
      assert evs[0] in evs;
      MergeAllKnown(Merge(list, evs[0]), evs[1..], defined);
    }
  }

  /** Looking a known operand up after the statement finds what it found before. */
  lemma ExecKeepsKnown<G(!new)>(m: Machine<G>, s: Stmt, w: World<G>, evs: seq<Event>, defined: set<nat>)
    requires IsMachine(m) && AllKnown(evs, defined) && Defines(s) !! defined
    ensures ObserveAll(evs, m.exec(s, w)) == ObserveAll(evs, w)
  {
    forall i | 0 <= i < |evs|
      ensures Observe(evs[i], m.exec(s, w)) == Observe(evs[i], w)
    {
      var a := evs[i].addr;
      assert Known(a, defined);
      if a.Tmp? {
        assert Eval(Tmp(a.t), m.exec(s, w)) == Eval(Tmp(a.t), w);
      }
    }
  }

  // ---------- one statement ----------

  /** The calls before a statement: counts, then what the buffer gives up, then counts. */
  lemma ExecuteBefore<G(!new)>(m: Machine<G>, o: Options, s: Stmt, emitted: seq<Event>, rest: seq<OutStmt>, at: Instr,
                               w: World<G>, steps: nat, trace: seq<Access>, counts: multiset<Counter>)
    ensures Execute(m, Helpers(CountCalls(o, s, at) + Traces(emitted) + DetailCalls(s)) + rest, w, steps, trace, counts)
            == Execute(m, rest, w, steps, trace + ObserveAll(emitted, w),
                       counts + CountsIn(CountCalls(o, s, at)) + CountsIn(DetailCalls(s)))
  {
    var a, b, c := CountCalls(o, s, at), Traces(emitted), DetailCalls(s);
    assert Helpers(a + b + c) + rest == Helpers(a) + (Helpers(b) + (Helpers(c) + rest));
    CountsOnly(o, s, at);
    ExecuteCounts(m, a, Helpers(b) + (Helpers(c) + rest), w, steps, trace, counts);
    ExecuteTraces(m, emitted, Helpers(c) + rest, w, steps, trace, counts + CountsIn(a));
    ExecuteCounts(m, c, rest, w, steps, trace + ObserveAll(emitted, w), counts + CountsIn(a));
  }

  lemma CountsOnly(o: Options, s: Stmt, at: Instr)
    ensures OnlyCounts(CountCalls(o, s, at)) && OnlyCounts(DetailCalls(s)) && OnlyCounts(UntakenCalls(o, s, at))
  {}

  /** What the buffer does with a statement's events keeps the recorder in step with the observer. */
  lemma WrapKeepsStep<G>(s: Stmt, pending: seq<Event>, defined: set<nat>, w: World<G>, trace: seq<Access>,
                         done: seq<Access>, open: seq<Seen>)
    requires |pending| <= N_EVENTS && InStep(trace, pending, w, done, open)
    requires AllKnown(pending, defined) && AllKnown(EventsOf(s), defined)
    ensures var added := AddAll(pending, EventsOf(s));
            var seen := SeeAll(open, EventsOf(s), w);
            && InStep(trace + ObserveAll(added.emitted, w), added.pending, w, done, seen)
            && (trace + ObserveAll(added.emitted + added.pending, w) == done + Accesses(seen))
            && AllKnown(added.pending, defined)
  {
    var evs := EventsOf(s);
    var added := AddAll(pending, evs);
    AddAllRefines(pending, evs);
    MergeAllKeepsStep(trace, pending, w, done, open, evs);
    MergeAllKnown(pending, evs, defined);
    AddAllEmpty(pending, evs);
    EmitKeepsStep(trace, added.emitted, added.pending, w, done, SeeAll(open, evs, w));
    forall e | e in added.pending
      ensures Known(e.addr, defined)
    {
      assert e in added.emitted + added.pending;
    }
    hide EventsOf;
    hide AddAll;
  }

  lemma {:induction false} AddAllEmpty(pending: seq<Event>, evs: seq<Event>)
    requires |pending| <= N_EVENTS
    ensures AddAll(pending, evs).pending == [] ==> AddAll(pending, evs).emitted == []
    decreases |evs|
  {
    if evs != [] {
      AddAllRefines(Add(pending, evs[0]).pending, evs[1..]);
    }
  }

  lemma NothingInStep<G>(trace: seq<Access>, w: World<G>)
    ensures InStep(trace, [], w, trace, [])
  {}

  /** From the first instruction mark on: same ending, and the trace and counts of the direct observer. */
  lemma {:induction false} BodyIsDirect<G(!new)>(m: Machine<G>, o: Options, stmts: seq<Stmt>, defined: set<nat>,
      pending: seq<Event>, at: Instr, w: World<G>, steps: nat, trace: seq<Access>, done: seq<Access>, open: seq<Seen>,
      counts: multiset<Counter>)
    requires IsMachine(m) && Ssa(stmts, defined) && |pending| <= N_EVENTS && AllKnown(pending, defined)
    requires InStep(trace, pending, w, done, open)
    ensures Execute(m, Body(o, stmts, pending, at), w, steps, trace, counts)
            == Direct(m, o, stmts, w, steps, done, open, counts, at)
    decreases |stmts|
  {
    if stmts == [] {
      BodyEnd(m, o, pending, at, w, steps, trace, done, open, counts);
    } else if Skipped(stmts[0]) {
      BodyIsDirect(m, o, stmts[1..], defined + Defines(stmts[0]), pending, at, w, steps, trace, done, open, counts);
    } else {
      BodyStep(m, o, stmts, defined, pending, at, w, steps, trace, done, open, counts);
    }
  }

  lemma BodyEnd<G(!new)>(m: Machine<G>, o: Options, pending: seq<Event>, at: Instr, w: World<G>, steps: nat,
                         trace: seq<Access>, done: seq<Access>, open: seq<Seen>, counts: multiset<Counter>)
    requires |pending| <= N_EVENTS && InStep(trace, pending, w, done, open)
    ensures Execute(m, Body(o, [], pending, at), w, steps, trace, counts)
            == Direct(m, o, [], w, steps, done, open, counts, at)
  {
    var c := CountIf(o.basic, SBsCompleted);
    assert Helpers(c + Traces(pending)) == Helpers(c) + (Helpers(Traces(pending)) + []);
    ExecuteCounts(m, c, Helpers(Traces(pending)) + [], w, steps, trace, counts);
    ExecuteTraces(m, pending, [], w, steps, trace, counts + CountsIn(c));
  }

  /** One statement of instrumented code, all calls around it included. */
  lemma {:induction false} BodyUnfold<G(!new)>(m: Machine<G>, o: Options, stmts: seq<Stmt>, pending: seq<Event>, at: Instr, w: World<G>,
                            steps: nat, trace: seq<Access>, counts: multiset<Counter>)
    requires |pending| <= N_EVENTS && stmts != [] && !Skipped(stmts[0])
    ensures var s, a := stmts[0], Wrap(o, stmts[0], pending, at);
            var trace' := trace + ObserveAll(Emitted(s, pending), w);
            var counts' := counts + CountsIn(CountCalls(o, s, at)) + CountsIn(DetailCalls(s));
            Execute(m, Body(o, stmts, pending, at), w, steps, trace, counts)
            == if s.Exit? && m.taken(s, w) then Recorded(Ending(w, Some(s), steps + 1), trace', counts')
               else Execute(m, Body(o, stmts[1..], a.pending, a.at), m.exec(s, w), steps + 1, trace',
                            counts' + CountsIn(UntakenCalls(o, s, at)))
  {
    hide CountCalls;
    hide DetailCalls;
    hide UntakenCalls;
    hide CountsIn;
    hide AddAll;
    hide Execute;
    hide ObserveAll;
    hide Helpers;
    var s := stmts[0];
    var a := Wrap(o, s, pending, at);
    var rest := Body(o, stmts[1..], a.pending, a.at);
    var emitted := Emitted(s, pending);
    var code := [Guest(s)] + Helpers(a.after) + rest;
    var trace' := trace + ObserveAll(emitted, w);
    var counts' := counts + CountsIn(CountCalls(o, s, at)) + CountsIn(DetailCalls(s));
    Append4(Helpers(a.before), [Guest(s)], Helpers(a.after), rest);
    ExecuteBefore(m, o, s, emitted, code, at, w, steps, trace, counts);
    Append3([Guest(s)], Helpers(a.after), rest);
    ExecuteGuest(m, s, Helpers(a.after) + rest, w, steps, trace', counts');
    CountsOnly(o, s, at);
    ExecuteCounts(m, a.after, rest, m.exec(s, w), steps + 1, trace', counts');
  }

  lemma {:induction false} ExecuteGuest<G(!new)>(m: Machine<G>, s: Stmt, rest: seq<OutStmt>, w: World<G>, steps: nat,
                                                 trace: seq<Access>, counts: multiset<Counter>)
    requires !Skipped(s)
    ensures Execute(m, [Guest(s)] + rest, w, steps, trace, counts)
            == if s.Exit? && m.taken(s, w) then Recorded(Ending(w, Some(s), steps + 1), trace, counts)
               else Execute(m, rest, m.exec(s, w), steps + 1, trace, counts)
  {
    assert ([Guest(s)] + rest)[1..] == rest;
  }

  lemma Append3<T>(a: seq<T>, b: seq<T>, c: seq<T>)
    ensures a + b + c == a + (b + c)
  {}

  lemma Append4<T>(a: seq<T>, b: seq<T>, c: seq<T>, d: seq<T>)
    ensures a + b + c + d == a + (b + c + d)
  {}

  /** What the buffer gives up before a statement. */
  function Emitted(s: Stmt, pending: seq<Event>): seq<Event>
    requires |pending| <= N_EVENTS
  {
    var added := AddAll(pending, EventsOf(s));
    if IsBarrier(s) then added.emitted + added.pending else added.emitted
  }

  lemma {:induction false} BodyStep<G(!new)>(m: Machine<G>, o: Options, stmts: seq<Stmt>, defined: set<nat>,
      pending: seq<Event>, at: Instr, w: World<G>, steps: nat, trace: seq<Access>, done: seq<Access>, open: seq<Seen>,
      counts: multiset<Counter>)
    requires IsMachine(m) && Ssa(stmts, defined) && |pending| <= N_EVENTS && AllKnown(pending, defined)
    requires InStep(trace, pending, w, done, open) && stmts != [] && !Skipped(stmts[0])
    ensures Execute(m, Body(o, stmts, pending, at), w, steps, trace, counts)
            == Direct(m, o, stmts, w, steps, done, open, counts, at)
    decreases |stmts|, 0
  {
    hide CountCalls;
    hide DetailCalls;
    hide UntakenCalls;
    hide CountsIn;
    hide AddAll;
    hide EventsOf;
    hide SeeAll;
    hide Body;
    hide Execute;
    hide ObserveAll;
    var s := stmts[0];
    var a := Wrap(o, s, pending, at);
    var seen := SeeAll(open, EventsOf(s), w);
    var done' := if IsBarrier(s) then done + Accesses(seen) else done;
    var open' := if IsBarrier(s) then [] else seen;
    var trace' := trace + ObserveAll(Emitted(s, pending), w);
    var counts' := counts + CountsIn(CountCalls(o, s, at)) + CountsIn(DetailCalls(s));
    WrapKeepsStep(s, pending, defined, w, trace, done, open);
    BodyUnfold(m, o, stmts, pending, at, w, steps, trace, counts);
    if !(s.Exit? && m.taken(s, w)) {
      var w' := m.exec(s, w);
      NothingInStep(trace', w');
      StepForward(m, s, w, a.pending, defined, trace', done', open');
      BodyIsDirect(m, o, stmts[1..], defined + Defines(s), a.pending, a.at, w', steps + 1, trace', done', open',
                   counts' + CountsIn(UntakenCalls(o, s, at)));
    }
  }

  lemma StepForward<G(!new)>(m: Machine<G>, s: Stmt, w: World<G>, pending: seq<Event>, defined: set<nat>,
                             trace: seq<Access>, done: seq<Access>, open: seq<Seen>)
    requires IsMachine(m) && Defines(s) !! defined && AllKnown(pending, defined)
    requires InStep(trace, pending, w, done, open)
    ensures InStep(trace, pending, m.exec(s, w), done, open)
    ensures AllKnown(pending, defined + Defines(s))
  {
    ExecKeepsKnown(m, s, w, pending, defined);
  }
}
