/** The pass itself: a loop over the statements with the event buffer and the output block updated in place. Line
    numbers are those of memagrind/memadump/md_main.c. */
module InstrumentPass {
  import opened Bytes
  import opened Vex
  import opened EventBuffer
  import opened Instrument

  const MAX_DSIZE := 512

  /** `VG_MIN_INSTR_SZB`, `VG_MAX_INSTR_SZB` and `VG_CLREQ_SZB` of the 64-bit x86 target. */
  predicate InstrSize(n: nat) { 1 <= n <= 16 || n == 19 }

  /** What the assertions of the pass demand of a statement: sizes in range, and an instruction before an exit. */
  predicate Acceptable(o: Options, s: Stmt, at: Instr) {
    && (s.IMark? ==> InstrSize(s.len))
    && (s.Dirty? && !s.fx.NoEffect? ==> 1 <= s.size <= MAX_DSIZE)
    && (s.Exit? && o.basic ==> at.addr != 0)
  }

  ghost predicate AllAcceptable(o: Options, stmts: seq<Stmt>, at: Instr)
    decreases |stmts|
  {
    stmts == [] || (Acceptable(o, stmts[0], at) && AllAcceptable(o, stmts[1..], NextInstr(stmts[0], at)))
  }

  class Pass {
    const events: array<Event>
    var eventsUsed: nat
    var sbOut: seq<OutStmt>

    ghost predicate Valid()
      reads this
    {
      events.Length == N_EVENTS && eventsUsed <= N_EVENTS
    }

    /** The outstanding events, oldest first. */
    ghost function Pending(): seq<Event>
      reads this, events
      requires Valid()
    {
      events[..eventsUsed]
    }

    /** The buffer has taken `evs`, and the calls that made room for them are in the output. */
    twostate predicate Added(evs: seq<Event>)
      reads this, events
      requires old(Valid()) && Valid()
    {
      var r := AddAll(old(Pending()), evs);
      Pending() == r.pending && sbOut == old(sbOut) + Helpers(Traces(r.emitted))
    }

    constructor ()
      ensures Valid() && Pending() == [] && sbOut == [] && fresh(events)
    {
      events := new Event[N_EVENTS](_ => Event(EventIr, Const(0), 0));
      eventsUsed, sbOut := 0, [];
    }

    method AddHelper(call: Call)
      modifies `sbOut
      ensures sbOut == old(sbOut) + Helpers([call])
    {
      sbOut := sbOut + [Helper(call)];
    }

    /** `flushEvents`. */
    method FlushEvents()
      requires Valid()
      modifies `sbOut, `eventsUsed
      ensures Valid() && Pending() == []
      ensures sbOut == old(sbOut) + Helpers(Traces(old(Pending())))
    {
      for i := 0 to eventsUsed
        invariant sbOut == old(sbOut) + Helpers(Traces(events[..i]))
      {
        AddHelper(Trace(events[i]));
        assert Helpers(Traces(events[..i + 1])) == Helpers(Traces(events[..i])) + Helpers([Trace(events[i])]);
      }
      eventsUsed := 0;
    }

    /** `addEvent_Ir` and `addEvent_Dr`, and `addEvent_Dw` when nothing can be merged. */
    method Append(ev: Event)
      requires Valid()
      modifies `sbOut, `eventsUsed, events
      ensures Valid()
      ensures var r := if old(eventsUsed) == N_EVENTS then Buffered(old(Pending()), [ev])
                       else Buffered([], old(Pending()) + [ev]);
              Pending() == r.pending && sbOut == old(sbOut) + Helpers(Traces(r.emitted))
    {
      assert Helpers(Traces([])) == [];
      if eventsUsed == N_EVENTS { FlushEvents(); }
      events[eventsUsed] := ev;
      eventsUsed := eventsUsed + 1;
    }

    /** `addEvent_Ir`. */
    method AddEventIr(iaddr: uint64, isize: nat)
      requires Valid() && InstrSize(isize)
      modifies `sbOut, `eventsUsed, events
      ensures Valid() && Added([Event(EventIr, Const(iaddr), isize)])
    {
      AddOne(Pending(), Event(EventIr, Const(iaddr), isize));
      Append(Event(EventIr, Const(iaddr), isize));
    }

    /** `addEvent_Dr`. */
    method AddEventDr(daddr: Atom, dsize: nat)
      requires Valid() && 1 <= dsize <= MAX_DSIZE
      modifies `sbOut, `eventsUsed, events
      ensures Valid() && Added([Event(EventDr, daddr, dsize)])
    {
      AddOne(Pending(), Event(EventDr, daddr, dsize));
      Append(Event(EventDr, daddr, dsize));
    }

    /** `addEvent_Dw`. */
    method AddEventDw(daddr: Atom, dsize: nat)
      requires Valid() && 1 <= dsize <= MAX_DSIZE
      modifies `sbOut, `eventsUsed, events
      ensures Valid() && Added([Event(EventDw, daddr, dsize)])
    {
      var ev := Event(EventDw, daddr, dsize);
      AddOne(Pending(), ev);
      if eventsUsed > 0 && Merges(events[eventsUsed - 1], ev) {
        events[eventsUsed - 1] := events[eventsUsed - 1].(kind := EventDm);
        assert Helpers(Traces([])) == [];
        return;
      }
      Append(ev);
    }

    method AddHelpers(calls: seq<Call>)
      modifies `sbOut
      ensures sbOut == old(sbOut) + Helpers(calls)
    {
      for i := 0 to |calls|
        invariant sbOut == old(sbOut) + Helpers(calls[..i])
      {
        AddHelper(calls[i]);
        assert Helpers(calls[..i + 1]) == Helpers(calls[..i]) + Helpers([calls[i]]);
      }
      assert calls[..|calls|] == calls;
    }

    /** The events of one statement, as the cases of the switch add them. */
    method AddEvents(s: Stmt)
      requires Valid() && (s.IMark? ==> InstrSize(s.len))
      requires s.Dirty? && !s.fx.NoEffect? ==> 1 <= s.size <= MAX_DSIZE
      modifies `sbOut, `eventsUsed, events
      ensures Valid() && Added(EventsOf(s))
    {
      AddNothing(Pending());
      assert Added([]);
      hide Added;
      match s
      case IMark(addr, len) => AddEventIr(addr, len);
      case WrTmp(_, Load(addr, ty)) => AddEventDr(addr, SizeOf(ty));
      case Store(addr, ty, _) => AddEventDw(addr, SizeOf(ty));
      case Dirty(fx, addr, size, _, _) =>
        DirtyEvents(s);
        match fx {
          case NoEffect =>
          case Reads => AddEventDr(addr, size);
          case Writes => AddEventDw(addr, size);
          case Modifies => AddBoth(addr, size);
        }
      case CAS(addr, ty, double, _, _) => AddBoth(addr, if double then 2 * SizeOf(ty) else SizeOf(ty));
      case LL(addr, ty, _, _) => AddEventDr(addr, SizeOf(ty));
      case SC(addr, ty, _, _) => AddEventDw(addr, SizeOf(ty));
      case _ =>
    }

    method AddBoth(addr: Atom, size: nat)
      requires Valid() && 1 <= size <= MAX_DSIZE
      modifies `sbOut, `eventsUsed, events
      ensures Valid() && Added([Event(EventDr, addr, size), Event(EventDw, addr, size)])
    {
      AddTwo(Pending(), Event(EventDr, addr, size), Event(EventDw, addr, size));
      AddOne(Pending(), Event(EventDr, addr, size));
      AddEventDr(addr, size);
      AddOne(Pending(), Event(EventDw, addr, size));
      AddEventDw(addr, size);
    }

    /** The switch on one statement. */
    method WrapStatement(o: Options, s: Stmt, at: Instr) returns (next: Instr)
      requires Valid() && Acceptable(o, s, at)
      modifies `sbOut, `eventsUsed, events
      ensures Valid()
      ensures var a := Wrap(o, s, old(Pending()), at);
              && Pending() == a.pending && next == a.at
              && sbOut == old(sbOut) + (Helpers(a.before) + [Guest(s)] + Helpers(a.after))
      ensures next == NextInstr(s, at)
    {
      hide CountCalls;
      hide DetailCalls;
      hide UntakenCalls;
      hide AddAll;
      hide EventsOf;
      hide Helpers;
      ghost var added := AddAll(Pending(), EventsOf(s));
      Assemble(sbOut, CountCalls(o, s, at), added.emitted, if IsBarrier(s) then added.pending else [], DetailCalls(s),
               Guest(s), UntakenCalls(o, s, at));
      AddHelpers(CountCalls(o, s, at));
      AddEvents(s);
      if IsBarrier(s) { FlushEvents(); }
      AddHelpers(DetailCalls(s));
      sbOut := sbOut + [Guest(s)];
      AddHelpers(UntakenCalls(o, s, at));
      next := NextInstr(s, at);
    }

    /** `md_instrument`. The preamble, up to the first instruction mark, may hold no null statement. */
    method Instrument(o: Options, stmts: seq<Stmt>)
      requires Valid() && sbOut == []
      requires AllAcceptable(o, stmts[PreambleLength(stmts)..], Instr(0, 0))
      requires forall i :: 0 <= i < PreambleLength(stmts) ==> !stmts[i].Null?
      modifies this, events
      ensures Valid() && sbOut == Instrumented(o, stmts)
    {
      hide Body;
      hide Wrap;
      hide Helpers;
      hide Acceptable;
      var i := Preamble(stmts);
      AddHelpers(Entry(o));
      eventsUsed := 0;
      var at := Instr(0, 0);
      ghost var whole := Instrumented(o, stmts);
      PassStart(o, stmts, sbOut);
      while i < |stmts|
        invariant Valid() && i <= |stmts| && AllAcceptable(o, stmts[i..], at)
        invariant sbOut + Body(o, stmts[i..], Pending(), at) == whole
      {
        var s := stmts[i];
        BodyNext(o, stmts[i..], Pending(), at);
        assert stmts[i..][1..] == stmts[i + 1..];
        if !Skipped(s) {
          ghost var a := Wrap(o, s, Pending(), at);
          Join(sbOut, a, s, Body(o, stmts[i + 1..], a.pending, a.at));
          at := WrapStatement(o, s, at);
        }
        i := i + 1;
      }
      assert stmts[i..] == [];
      BodyLast(o, Pending(), at);
      AddHelpers(CountIf(o.basic, SBsCompleted));
      FlushEvents();
    }

    /** Lines 834-838. */
    method Preamble(stmts: seq<Stmt>) returns (i: nat)
      requires sbOut == []
      modifies `sbOut
      ensures i == PreambleLength(stmts) && sbOut == Verbatim(stmts[..i])
    {
      i := 0;
      while i < |stmts| && !stmts[i].IMark?
        invariant i <= PreambleLength(stmts)
        invariant sbOut == Verbatim(stmts[..i])
      {
        sbOut := sbOut + [Guest(stmts[i])];
        assert Verbatim(stmts[..i + 1]) == Verbatim(stmts[..i]) + [Guest(stmts[i])];
        i := i + 1;
      }
    }
  }

  lemma {:induction false} PassStart(o: Options, stmts: seq<Stmt>, out: seq<OutStmt>)
    requires out == Verbatim(stmts[..PreambleLength(stmts)]) + Helpers(Entry(o))
    ensures out + Body(o, stmts[PreambleLength(stmts)..], [], Instr(0, 0)) == Instrumented(o, stmts)
  {}

  lemma {:induction false} BodyNext(o: Options, stmts: seq<Stmt>, pending: seq<Event>, at: Instr)
    requires |pending| <= N_EVENTS && stmts != []
    ensures Body(o, stmts, pending, at)
            == if Skipped(stmts[0]) then Body(o, stmts[1..], pending, at)
               else var a := Wrap(o, stmts[0], pending, at);
                    Helpers(a.before) + [Guest(stmts[0])] + Helpers(a.after) + Body(o, stmts[1..], a.pending, a.at)
  {}

  lemma {:induction false} Join(out: seq<OutStmt>, a: Around, s: Stmt, rest: seq<OutStmt>)
    ensures out + (Helpers(a.before) + [Guest(s)] + Helpers(a.after) + rest)
            == out + (Helpers(a.before) + [Guest(s)] + Helpers(a.after)) + rest
  {}

  lemma {:induction false} BodyLast(o: Options, pending: seq<Event>, at: Instr)
    requires |pending| <= N_EVENTS
    ensures Body(o, [], pending, at) == Helpers(CountIf(o.basic, SBsCompleted)) + Helpers(Traces(pending))
  {}

  /** Calls added one group after the other are the calls of all groups. */
  lemma {:induction false} Assemble(out: seq<OutStmt>, a: seq<Call>, b: seq<Event>, c: seq<Event>, d: seq<Call>,
                                    guest: OutStmt, e: seq<Call>)
    ensures out + Helpers(a) + Helpers(Traces(b)) + Helpers(Traces(c)) + Helpers(d) + [guest] + Helpers(e)
            == out + (Helpers(a + Traces(b + c) + d) + [guest] + Helpers(e))
    ensures b + [] == b && Helpers(Traces([])) == []
  {
    assert Traces(b + c) == Traces(b) + Traces(c);
    assert Helpers(a + Traces(b + c) + d) == Helpers(a) + Helpers(Traces(b)) + Helpers(Traces(c)) + Helpers(d);
  }

  lemma {:induction false} AddNothing(pending: seq<Event>)
    requires |pending| <= N_EVENTS
    ensures AddAll(pending, []) == Buffered([], pending) && Helpers(Traces([])) == []
  {}

  lemma {:induction false} AddOne(pending: seq<Event>, ev: Event)
    requires |pending| <= N_EVENTS
    ensures AddAll(pending, [ev]) == Add(pending, ev)
  {
    AddNothing(Add(pending, ev).pending);
    assert [ev][1..] == [];
  }

  lemma {:induction false} AddTwo(pending: seq<Event>, a: Event, b: Event)
    requires |pending| <= N_EVENTS
    ensures var first := Add(pending, a);
            var second := Add(first.pending, b);
            && AddAll(pending, [a, b]) == Buffered(first.emitted + second.emitted, second.pending)
            && Helpers(Traces(first.emitted)) + Helpers(Traces(second.emitted))
               == Helpers(Traces(first.emitted + second.emitted))
  {
    AddOne(Add(pending, a).pending, b);
    assert [a, b][1..] == [b];
  }
}
