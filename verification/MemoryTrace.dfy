/** The trace of a block against the guest's memory: what its statements fetch, load and store, what a byte outside the
    trace can and cannot do. Line numbers are those of memagrind/memadump/md_main.c. */
module MemoryTrace {
  import opened Wrappers
  import opened Bytes
  import opened Vex
  import opened EventBuffer
  import opened Instrument
  import opened TraceCorrect
  import opened BlockTheorems

  /** One access of the guest. */
  datatype Touch = Fetch(addr: uint64, size: nat) | LoadAt(addr: uint64, size: nat) | StoreAt(addr: uint64, size: nat)

  /** What a statement accesses, told by its own operands. */
  function TouchesOf<G>(s: Stmt, w: World<G>): seq<Touch> {
    match s
    case IMark(iaddr, len) => [Fetch(iaddr, len)]
    case WrTmp(_, Load(addr, ty)) => [LoadAt(Eval(addr, w), SizeOf(ty))]
    case Store(addr, ty, _) => [StoreAt(Eval(addr, w), SizeOf(ty))]
    case Dirty(Reads, addr, size, _, _) => [LoadAt(Eval(addr, w), size)]
    case Dirty(Writes, addr, size, _, _) => [StoreAt(Eval(addr, w), size)]
    case Dirty(Modifies, addr, size, _, _) => [LoadAt(Eval(addr, w), size), StoreAt(Eval(addr, w), size)]
    case CAS(addr, ty, false, _, _) => [LoadAt(Eval(addr, w), SizeOf(ty)), StoreAt(Eval(addr, w), SizeOf(ty))]
    case CAS(addr, ty, true, _, _) => [LoadAt(Eval(addr, w), 2 * SizeOf(ty)), StoreAt(Eval(addr, w), 2 * SizeOf(ty))]
    case LL(addr, ty, _, _) => [LoadAt(Eval(addr, w), SizeOf(ty))]
    case SC(addr, ty, _, _) => [StoreAt(Eval(addr, w), SizeOf(ty))]
    case _ => []
  }

  /** What a run accesses, in order. */
  function Performed<G(!new)>(m: Machine<G>, stmts: seq<Stmt>, w: World<G>): seq<Touch>
    decreases |stmts|
  {
    if stmts == [] then []
    else if Skipped(stmts[0]) then Performed(m, stmts[1..], w)
    else
      var s := stmts[0];
      TouchesOf(s, w) + if s.Exit? && m.taken(s, w) then [] else Performed(m, stmts[1..], m.exec(s, w))
  }

  /** What a recorded access stands for; a modify is a load and then a store. */
  function Split(a: Access): seq<Touch> {
    match a.kind
    case EventIr => [Fetch(a.addr, a.size)]
    case EventDr => [LoadAt(a.addr, a.size)]
    case EventDw => [StoreAt(a.addr, a.size)]
    case EventDm => [LoadAt(a.addr, a.size), StoreAt(a.addr, a.size)]
  }

  function Unmerged(trace: seq<Access>): seq<Touch> {
    if trace == [] then [] else Unmerged(trace[..|trace| - 1]) + Split(trace[|trace| - 1])
  }

  lemma {:induction false} UnmergedAppend(a: seq<Access>, b: seq<Access>)
    ensures Unmerged(a + b) == Unmerged(a) + Unmerged(b)
    decreases |b|
  {
    if b == [] {
      assert a + b == a;
    } else {
      assert (a + b)[..|a + b| - 1] == a + b[..|b| - 1];
      UnmergedAppend(a, b[..|b| - 1]);
    }
  }

  /** The last access noted is of a place that its operand still names. */
  ghost predicate Current<G>(open: seq<Seen>, w: World<G>, defined: set<nat>) {
    open != [] ==>
      var last := open[|open| - 1]; last.addr == Eval(last.ev.addr, w) && Known(last.ev.addr, defined)
  }

  /** Noting an event adds its access, whether or not it is merged. */
  lemma {:induction false} SeeTouches<G>(open: seq<Seen>, ev: Event, w: World<G>, defined: set<nat>)
    requires Current(open, w, defined) && Known(ev.addr, defined) && !ev.kind.EventDm?
    ensures Unmerged(Accesses(See(open, ev, w))) == Unmerged(Accesses(open)) + Split(Observe(ev, w))
    ensures Current(See(open, ev, w), w, defined)
  {
    var after := See(open, ev, w);
    var n := |after| - 1;
    assert Accesses(after)[..n] == Accesses(open)[..n];
    if n < |open| {
      assert Accesses(open)[n] == open[n].Recorded() && Accesses(after)[n] == after[n].Recorded();
    } else {
      assert Accesses(open)[..n] == Accesses(open);
    }
  }

  function SplitAll<G>(evs: seq<Event>, w: World<G>): seq<Touch> {
    if evs == [] then [] else Split(Observe(evs[0], w)) + SplitAll(evs[1..], w)
  }

  lemma {:induction false} SeeAllTouches<G>(open: seq<Seen>, evs: seq<Event>, w: World<G>, defined: set<nat>)
    requires Current(open, w, defined) && forall e <- evs :: Known(e.addr, defined) && !e.kind.EventDm?
    ensures Unmerged(Accesses(SeeAll(open, evs, w))) == Unmerged(Accesses(open)) + SplitAll(evs, w)
    ensures Current(SeeAll(open, evs, w), w, defined)
    decreases |evs|
  {
    hide See;
    hide Unmerged;
    hide Split;
    hide Current;
    if evs != [] {
      SeeTouches(open, evs[0], w, defined);
      SeeAllTouches(See(open, evs[0], w), evs[1..], w, defined);
    }
  }

  lemma SplitFew<G>(a: Event, b: Event, w: World<G>)
    ensures SplitAll([], w) == []
    ensures SplitAll([a], w) == Split(Observe(a, w))
    ensures SplitAll([a, b], w) == Split(Observe(a, w)) + Split(Observe(b, w))
  {
    assert [a][1..] == [] && [a, b][1..] == [b];
    assert SplitAll([b], w) == Split(Observe(b, w)) + SplitAll([], w);
  }

  /** The events of a statement are what it accesses. */
  lemma {:induction false} EventsAreTouches<G>(s: Stmt, w: World<G>)
    ensures SplitAll(EventsOf(s), w) == TouchesOf(s, w)
    ensures forall e <- EventsOf(s) :: !e.kind.EventDm?
  {
    hide SplitAll;
    hide SizeOf;
    hide Eval;
    var none := Event(EventIr, Const(0), 0);
    SplitFew(none, none, w);
    match s
    case IMark(iaddr, len) =>
      SplitFew(Event(EventIr, Const(iaddr), len), none, w);
      ConstIs(iaddr, w);
    case WrTmp(_, Load(addr, ty)) => SplitFew(Event(EventDr, addr, SizeOf(ty)), none, w);
    case Store(addr, ty, _) => SplitFew(Event(EventDw, addr, SizeOf(ty)), none, w);
    case Dirty(_, addr, size, _, _) =>
      SplitFew(Event(EventDr, addr, size), Event(EventDw, addr, size), w);
      SplitFew(Event(EventDw, addr, size), none, w);
      DirtyEvents(s);
    case CAS(addr, ty, double, _, _) =>
      var size := if double then 2 * SizeOf(ty) else SizeOf(ty);
      SplitFew(Event(EventDr, addr, size), Event(EventDw, addr, size), w);
    case LL(addr, ty, _, _) => SplitFew(Event(EventDr, addr, SizeOf(ty)), none, w);
    case SC(addr, ty, _, _) => SplitFew(Event(EventDw, addr, SizeOf(ty)), none, w);
    case _ =>
  }

  lemma ConstIs<G>(value: uint64, w: World<G>)
    ensures Eval(Const(value), w) == value
  {}

  // ---------- runs ----------

  lemma NothingNoted<G>(w: World<G>, defined: set<nat>)
    ensures Current([], w, defined) && Unmerged(Accesses([])) == [] && Unmerged([]) == []
  {
    assert Accesses([]) == [];
  }

  lemma CurrentKeeps<G(!new)>(m: Machine<G>, s: Stmt, w: World<G>, open: seq<Seen>, defined: set<nat>)
    requires IsMachine(m) && Defines(s) !! defined && Current(open, w, defined)
    ensures Current(open, m.exec(s, w), defined + Defines(s))
  {
    if open != [] {
      var last := open[|open| - 1].ev.addr;
      if last.Tmp? { assert Eval(Tmp(last.t), m.exec(s, w)) == Eval(Tmp(last.t), w); }
    }
  }

  /** From the first instruction mark on: the trace, with its modifies taken apart, is what the run accesses. */
  lemma {:induction false} DirectTouches<G(!new)>(m: Machine<G>, o: Options, stmts: seq<Stmt>, defined: set<nat>,
      w: World<G>, steps: nat, done: seq<Access>, open: seq<Seen>, counts: multiset<Counter>, at: Instr)
    requires IsMachine(m) && Ssa(stmts, defined) && Current(open, w, defined)
    ensures Unmerged(Direct(m, o, stmts, w, steps, done, open, counts, at).trace)
            == Unmerged(done) + Unmerged(Accesses(open)) + Performed(m, stmts, w)
    decreases |stmts|
  {
    hide CountsIn;
    hide CountCalls;
    hide UntakenCalls;
    hide DetailCalls;
    hide SeeAll;
    hide EventsOf;
    hide TouchesOf;
    hide Unmerged;
    hide Current;
    hide IsMachine;
    if stmts == [] {
      UnmergedAppend(done, Accesses(open));
    } else if Skipped(stmts[0]) {
      assert defined + Defines(stmts[0]) == defined;
      DirectTouches(m, o, stmts[1..], defined + Defines(stmts[0]), w, steps, done, open, counts, at);
    } else {
      var s := stmts[0];
      var seen := SeeAll(open, EventsOf(s), w);
      EventsAreTouches(s, w);
      SeeAllTouches(open, EventsOf(s), w, defined);
      UnmergedAppend(done, Accesses(seen));
      NothingNoted(w, defined);
      assert Unmerged(done) + (Unmerged(Accesses(open)) + TouchesOf(s, w)) == Unmerged(done) + Unmerged(Accesses(open)) + TouchesOf(s, w);
      if !(s.Exit? && m.taken(s, w)) {
        var done', open' := if IsBarrier(s) then done + Accesses(seen) else done, if IsBarrier(s) then [] else seen;
        CurrentKeeps(m, s, w, open', defined);
        DirectTouches(m, o, stmts[1..], defined + Defines(s), m.exec(s, w), steps + 1, done', open',
                      counts + CountsIn(CountCalls(o, s, at)) + CountsIn(DetailCalls(s))
                      + CountsIn(UntakenCalls(o, s, at)), NextInstr(s, at));
      }
    }
  }

  /** What an instrumented block accesses behind its preamble, if the preamble does not leave it. */
  function PerformedIn<G(!new)>(m: Machine<G>, stmts: seq<Stmt>, w: World<G>): seq<Touch> {
    var n := PreambleLength(stmts);
    var pre := Run(m, stmts[..n], w, 0);
    if pre.exit.Some? then [] else Performed(m, stmts[n..], pre.world)
  }

  /** The trace of an instrumented block is every access of the run, in order and at the places its operands name. */
  lemma {:induction false} TraceIsPerformed<G(!new)>(m: Machine<G>, o: Options, stmts: seq<Stmt>, w: World<G>)
    requires IsMachine(m) && Ssa(stmts, {})
    ensures Unmerged(Execute(m, Instrumented(o, stmts), w, 0, [], multiset{}).trace) == PerformedIn(m, stmts, w)
  {
    hide Execute;
    hide Instrumented;
    hide Direct;
    hide Performed;
    hide Run;
    hide CountsIn;
    hide Ssa;
    hide IsMachine;
    hide Unmerged;
    hide Current;
    var n := PreambleLength(stmts);
    var pre := Run(m, stmts[..n], w, 0);
    InstrumentationIsFaithful(m, o, stmts, w, {});
    var later := SsaSuffix(stmts, n, {});
    NothingNoted(pre.world, later);
    if pre.exit.None? {
      DirectTouches(m, o, stmts[n..], later, pre.world, pre.steps, [], [], CountsIn(Entry(o)), Instr(0, 0));
    }
  }

  // ---------- memory ----------

  /** Byte `a` is one of the `size` bytes from `base` on; addresses wrap around. */
  predicate InRange(a: uint64, base: uint64, size: nat) { (a - base) % WORD < size }

  predicate Loads(t: Touch, a: uint64) { t.LoadAt? && InRange(a, t.addr, t.size) }

  predicate Stores(t: Touch, a: uint64) { t.StoreAt? && InRange(a, t.addr, t.size) }

  ghost predicate Loaded(ts: seq<Touch>, a: uint64) { exists t <- ts :: Loads(t, a) }

  ghost predicate Stored(ts: seq<Touch>, a: uint64) { exists t <- ts :: Stores(t, a) }

  /** A guest with a memory, and the rest of it. */
  datatype Memory<!G(!new), !R(!new)> = Memory(byteAt: (G, uint64) -> byte, rest: G -> R)

  /** A statement changes no byte of memory but those it stores. */
  ghost predicate StoresOnly<G(!new), R(!new)>(m: Machine<G>, mem: Memory<G, R>) {
    forall s: Stmt, w: World<G>, a: uint64 {:trigger mem.byteAt(m.exec(s, w).guest, a)} ::
      mem.byteAt(m.exec(s, w).guest, a) != mem.byteAt(w.guest, a) ==> Stored(TouchesOf(s, w), a)
  }

  lemma {:induction false} ChangedIsStored<G(!new), R(!new)>(m: Machine<G>, mem: Memory<G, R>, stmts: seq<Stmt>,
                                                             w: World<G>, steps: nat, a: uint64)
    requires StoresOnly(m, mem)
    requires mem.byteAt(Run(m, stmts, w, steps).world.guest, a) != mem.byteAt(w.guest, a)
    ensures Stored(Performed(m, stmts, w), a)
    decreases |stmts|
  {
    hide TouchesOf;
    if Skipped(stmts[0]) {
      ChangedIsStored(m, mem, stmts[1..], w, steps, a);
    } else {
      var next := m.exec(stmts[0], w);
      if mem.byteAt(next.guest, a) == mem.byteAt(w.guest, a) {
        ChangedIsStored(m, mem, stmts[1..], next, steps + 1, a);
      }
      StoredEither(TouchesOf(stmts[0], w), Performed(m, stmts[1..], next), a);
    }
  }

  lemma StoredEither(s: seq<Touch>, t: seq<Touch>, a: uint64)
    ensures Stored(s + t, a) <==> Stored(s, a) || Stored(t, a)
    ensures Loaded(s + t, a) <==> Loaded(s, a) || Loaded(t, a)
  {}

  /** Every byte of memory that differs after a run of instrumented code from what it was behind the preamble lies inside
      a recorded write or modify. */
  lemma {:induction false} WritesAreTraced<G(!new), R(!new)>(m: Machine<G>, mem: Memory<G, R>, o: Options,
                                                             stmts: seq<Stmt>, w: World<G>, a: uint64)
    requires IsMachine(m) && StoresOnly(m, mem) && Ssa(stmts, {})
    ensures var r := Execute(m, Instrumented(o, stmts), w, 0, [], multiset{});
            var pre := Run(m, stmts[..PreambleLength(stmts)], w, 0).world;
            mem.byteAt(r.ending.world.guest, a) != mem.byteAt(pre.guest, a) ==> TracedStore(r.trace, a)
  {
    hide Execute;
    hide Instrumented;
    hide Observed;
    hide Run;
    hide Performed;
    hide Ssa;
    hide IsMachine;
    hide StoresOnly;
    hide TracedStore;
    hide Stored;
    var n := PreambleLength(stmts);
    var pre := Run(m, stmts[..n], w, 0);
    var r := Execute(m, Instrumented(o, stmts), w, 0, [], multiset{});
    InstrumentationIsFaithful(m, o, stmts, w, {});
    TraceIsPerformed(m, o, stmts, w);
    RunAppend(m, stmts[..n], stmts[n..], w, 0);
    assert stmts[..n] + stmts[n..] == stmts;
    if mem.byteAt(r.ending.world.guest, a) != mem.byteAt(pre.world.guest, a) {
      ChangedIsStored(m, mem, stmts[n..], pre.world, pre.steps, a);
      StoredIsTraced(r.trace, a);
    }
  }

  /** A recorded write or modify covers the byte. */
  ghost predicate TracedStore(trace: seq<Access>, a: uint64) {
    exists x <- trace :: (x.kind.EventDw? || x.kind.EventDm?) && InRange(a, x.addr, x.size)
  }

  /** A recorded read or modify covers the byte. */
  ghost predicate TracedLoad(trace: seq<Access>, a: uint64) {
    exists x <- trace :: (x.kind.EventDr? || x.kind.EventDm?) && InRange(a, x.addr, x.size)
  }

  lemma {:induction false} StoredIsTraced(trace: seq<Access>, a: uint64)
    ensures Stored(Unmerged(trace), a) <==> TracedStore(trace, a)
    ensures Loaded(Unmerged(trace), a) <==> TracedLoad(trace, a)
    decreases |trace|
  {
    if trace != [] {
      var before, last := trace[..|trace| - 1], trace[|trace| - 1];
      StoredIsTraced(before, a);
      StoredEither(Unmerged(before), Split(last), a);
      SplitCovers(last, a);
      hide Split;
      hide Stored;
      hide Loaded;
      assert trace == before + [last];
    }
  }

  lemma SplitCovers(x: Access, a: uint64)
    ensures Stored(Split(x), a) <==> (x.kind.EventDw? || x.kind.EventDm?) && InRange(a, x.addr, x.size)
    ensures Loaded(Split(x), a) <==> (x.kind.EventDr? || x.kind.EventDm?) && InRange(a, x.addr, x.size)
  {
    if x.kind.EventDw? { assert Split(x)[0] in Split(x); }
    if x.kind.EventDr? { assert Split(x)[0] in Split(x); }
    if x.kind.EventDm? { assert Split(x)[0] in Split(x) && Split(x)[1] in Split(x); }
  }

  // ---------- bytes that are not read ----------

  /** The two worlds differ in the memory bytes `hidden` at most. */
  ghost predicate Alike<G(!new), R(!new)>(mem: Memory<G, R>, w: World<G>, w': World<G>, hidden: set<uint64>) {
    && w.temps == w'.temps && mem.rest(w.guest) == mem.rest(w'.guest)
    && forall a: uint64 :: a !in hidden ==> mem.byteAt(w.guest, a) == mem.byteAt(w'.guest, a)
  }

  ghost predicate NoneLoaded(ts: seq<Touch>, hidden: set<uint64>) {
    forall a <- hidden :: !Loaded(ts, a)
  }

  /** What a statement does depends on no byte of memory but those it loads. */
  ghost predicate LoadsOnly<G(!new), R(!new)>(m: Machine<G>, mem: Memory<G, R>) {
    forall s: Stmt, w: World<G>, w': World<G>, hidden: set<uint64> {:trigger m.exec(s, w), Alike(mem, w, w', hidden)} ::
      Alike(mem, w, w', hidden) && NoneLoaded(TouchesOf(s, w), hidden) ==>
        Alike(mem, m.exec(s, w), m.exec(s, w'), hidden) && m.taken(s, w) == m.taken(s, w')
  }

  lemma NoneLoadedEither(s: seq<Touch>, t: seq<Touch>, hidden: set<uint64>)
    ensures NoneLoaded(s + t, hidden) <==> NoneLoaded(s, hidden) && NoneLoaded(t, hidden)
  {
    forall a | a in hidden
      ensures Loaded(s + t, a) <==> Loaded(s, a) || Loaded(t, a)
    {
      StoredEither(s, t, a);
    }
    hide Loaded;
  }

  lemma {:induction false} SeeAllAlike<G>(open: seq<Seen>, evs: seq<Event>, w: World<G>, w': World<G>)
    requires w.temps == w'.temps
    ensures SeeAll(open, evs, w) == SeeAll(open, evs, w')
    decreases |evs|
  {
    if evs != [] { SeeAllAlike(See(open, evs[0], w), evs[1..], w, w'); }
  }

  lemma {:induction false} RunAlike<G(!new), R(!new)>(m: Machine<G>, mem: Memory<G, R>, stmts: seq<Stmt>, w: World<G>,
                                                      w': World<G>, steps: nat, hidden: set<uint64>)
    requires LoadsOnly(m, mem) && Alike(mem, w, w', hidden) && NoneLoaded(Performed(m, stmts, w), hidden)
    ensures var r, r' := Run(m, stmts, w, steps), Run(m, stmts, w', steps);
            r.exit == r'.exit && r.steps == r'.steps && Alike(mem, r.world, r'.world, hidden)
    decreases |stmts|
  {
    hide TouchesOf;
    hide Alike;
    hide NoneLoaded;
    if stmts == [] {
    } else if Skipped(stmts[0]) {
      RunAlike(m, mem, stmts[1..], w, w', steps, hidden);
    } else {
      var s := stmts[0];
      var next, next' := m.exec(s, w), m.exec(s, w');
      var exits := s.Exit? && m.taken(s, w);
      NoneLoadedEither(TouchesOf(s, w), if exits then [] else Performed(m, stmts[1..], next), hidden);
      if !exits { RunAlike(m, mem, stmts[1..], next, next', steps + 1, hidden); }
    }
  }

  lemma {:induction false} DirectAlike<G(!new), R(!new)>(m: Machine<G>, mem: Memory<G, R>, o: Options, stmts: seq<Stmt>,
      w: World<G>, w': World<G>, steps: nat, done: seq<Access>, open: seq<Seen>, counts: multiset<Counter>, at: Instr,
      hidden: set<uint64>)
    requires LoadsOnly(m, mem) && Alike(mem, w, w', hidden) && NoneLoaded(Performed(m, stmts, w), hidden)
    ensures var r := Direct(m, o, stmts, w, steps, done, open, counts, at);
            var r' := Direct(m, o, stmts, w', steps, done, open, counts, at);
            r.trace == r'.trace && r.counts == r'.counts
    decreases |stmts|
  {
    hide TouchesOf;
    hide NoneLoaded;
    hide CountsIn;
    hide CountCalls;
    hide UntakenCalls;
    hide DetailCalls;
    hide SeeAll;
    hide EventsOf;
    if stmts == [] {
    } else if Skipped(stmts[0]) {
      DirectAlike(m, mem, o, stmts[1..], w, w', steps, done, open, counts, at, hidden);
    } else {
      var s := stmts[0];
      var seen := SeeAll(open, EventsOf(s), w);
      var next, next' := m.exec(s, w), m.exec(s, w');
      var exits := s.Exit? && m.taken(s, w);
      SeeAllAlike(open, EventsOf(s), w, w');
      NoneLoadedEither(TouchesOf(s, w), if exits then [] else Performed(m, stmts[1..], next), hidden);
      hide Alike;
      if !exits {
        DirectAlike(m, mem, o, stmts[1..], next, next', steps + 1, if IsBarrier(s) then done + Accesses(seen) else done,
                    if IsBarrier(s) then [] else seen,
                    counts + CountsIn(CountCalls(o, s, at)) + CountsIn(DetailCalls(s)) + CountsIn(UntakenCalls(o, s, at)),
                    NextInstr(s, at), hidden);
      }
    }
  }

  /** Bytes of memory that no recorded read or modify covers, and the preamble does not load, change nothing: not the
      trace, not the counters, not the way out, and no other byte. */
  lemma {:induction false} ReadsAreTraced<G(!new), R(!new)>(m: Machine<G>, mem: Memory<G, R>, o: Options,
      stmts: seq<Stmt>, w: World<G>, w': World<G>, hidden: set<uint64>)
    requires IsMachine(m) && LoadsOnly(m, mem) && Ssa(stmts, {}) && Alike(mem, w, w', hidden)
    requires NoneLoaded(Performed(m, stmts[..PreambleLength(stmts)], w), hidden)
    requires forall a <- hidden :: !TracedLoad(Execute(m, Instrumented(o, stmts), w, 0, [], multiset{}).trace, a)
    ensures var r := Execute(m, Instrumented(o, stmts), w, 0, [], multiset{});
            var r' := Execute(m, Instrumented(o, stmts), w', 0, [], multiset{});
            && r.trace == r'.trace && r.counts == r'.counts && r.ending.exit == r'.ending.exit
            && Alike(mem, r.ending.world, r'.ending.world, hidden)
  {
    hide Execute;
    hide Instrumented;
    hide Direct;
    hide Run;
    hide Performed;
    hide Ssa;
    hide IsMachine;
    hide LoadsOnly;
    hide TracedLoad;
    hide Loaded;
    hide Alike;
    hide CountsIn;
    hide Unmerged;
    var n := PreambleLength(stmts);
    var pre, pre' := Run(m, stmts[..n], w, 0), Run(m, stmts[..n], w', 0);
    InstrumentationIsFaithful(m, o, stmts, w, {});
    InstrumentationIsFaithful(m, o, stmts, w', {});
    TraceIsPerformed(m, o, stmts, w);
    RunAlike(m, mem, stmts[..n], w, w', 0, hidden);
    assert stmts[..n] + stmts[n..] == stmts;
    RunAppend(m, stmts[..n], stmts[n..], w, 0);
    RunAppend(m, stmts[..n], stmts[n..], w', 0);
    if pre.exit.None? {
      var trace := Execute(m, Instrumented(o, stmts), w, 0, [], multiset{}).trace;
      forall a | a in hidden
        ensures !Loaded(Performed(m, stmts[n..], pre.world), a)
      {
        StoredIsTraced(trace, a);
      }
      RunAlike(m, mem, stmts[n..], pre.world, pre'.world, pre.steps, hidden);
      DirectAlike(m, mem, o, stmts[n..], pre.world, pre'.world, pre.steps, [], [], CountsIn(Entry(o)), Instr(0, 0), hidden);
    }
  }

  // ---------- instructions ----------

  /** The instruction marks run, in order. */
  function MarksRun<G(!new)>(m: Machine<G>, stmts: seq<Stmt>, w: World<G>): seq<Instr>
    decreases |stmts|
  {
    if stmts == [] then []
    else if Skipped(stmts[0]) then MarksRun(m, stmts[1..], w)
    else
      var s := stmts[0];
      var rest := if s.Exit? && m.taken(s, w) then [] else MarksRun(m, stmts[1..], m.exec(s, w));
      if s.IMark? then [Instr(s.iaddr, s.len)] + rest else rest
  }

  function Fetches(ts: seq<Touch>): seq<Instr> {
    if ts == [] then [] else (if ts[0].Fetch? then [Instr(ts[0].addr, ts[0].size)] else []) + Fetches(ts[1..])
  }

  lemma {:induction false} FetchesAppend(a: seq<Touch>, b: seq<Touch>)
    ensures Fetches(a + b) == Fetches(a) + Fetches(b)
    decreases |a|
  {
    if a == [] {
      assert a + b == b;
    } else {
      assert (a + b)[1..] == a[1..] + b;
      FetchesAppend(a[1..], b);
    }
  }

  lemma FetchesOfStatement<G>(s: Stmt, w: World<G>)
    ensures Fetches(TouchesOf(s, w)) == if s.IMark? then [Instr(s.iaddr, s.len)] else []
  {
    var ts := TouchesOf(s, w);
    if |ts| >= 1 { assert Fetches(ts[1..]) == []; }
  }

  /** The instructions fetched are the marks run. */
  lemma {:induction false} FetchesAreMarks<G(!new)>(m: Machine<G>, stmts: seq<Stmt>, w: World<G>)
    ensures Fetches(Performed(m, stmts, w)) == MarksRun(m, stmts, w)
    decreases |stmts|
  {
    hide TouchesOf;
    if stmts == [] {
    } else if Skipped(stmts[0]) {
      FetchesAreMarks(m, stmts[1..], w);
    } else {
      var s := stmts[0];
      var rest := if s.Exit? && m.taken(s, w) then [] else Performed(m, stmts[1..], m.exec(s, w));
      FetchesOfStatement(s, w);
      FetchesAppend(TouchesOf(s, w), rest);
      hide Fetches;
      FetchesNone();
      if !(s.Exit? && m.taken(s, w)) { FetchesAreMarks(m, stmts[1..], m.exec(s, w)); }
    }
  }

  lemma FetchesNone()
    ensures Fetches([]) == []
  {}

  /** The instruction reads of a trace, in order. */
  function InstrReads(trace: seq<Access>): seq<Instr> {
    if trace == [] then [] else
    var last := trace[|trace| - 1];
    InstrReads(trace[..|trace| - 1]) + if last.kind.EventIr? then [Instr(last.addr, last.size)] else []
  }

  lemma {:induction false} InstrReadsAreFetches(trace: seq<Access>)
    ensures InstrReads(trace) == Fetches(Unmerged(trace))
    decreases |trace|
  {
    if trace != [] {
      var before, last := trace[..|trace| - 1], trace[|trace| - 1];
      InstrReadsAreFetches(before);
      FetchesAppend(Unmerged(before), Split(last));
      SplitFetches(last);
      hide Fetches;
    }
  }

  lemma SplitFetches(x: Access)
    ensures Fetches(Split(x)) == if x.kind.EventIr? then [Instr(x.addr, x.size)] else []
  {
    if |Split(x)| >= 1 { assert Fetches(Split(x)[1..]) == []; }
  }

  /** The recorded instruction reads are the marks run behind the preamble, in order. */
  lemma InstructionsAreTraced<G(!new)>(m: Machine<G>, o: Options, stmts: seq<Stmt>, w: World<G>)
    requires IsMachine(m) && Ssa(stmts, {})
    ensures var n := PreambleLength(stmts);
            var pre := Run(m, stmts[..n], w, 0);
            InstrReads(Execute(m, Instrumented(o, stmts), w, 0, [], multiset{}).trace)
            == if pre.exit.Some? then [] else MarksRun(m, stmts[n..], pre.world)
  {
    hide Execute;
    hide Instrumented;
    hide Run;
    hide Performed;
    hide MarksRun;
    hide Ssa;
    hide IsMachine;
    hide InstrReads;
    hide Unmerged;
    var n := PreambleLength(stmts);
    InstrReadsAreFetches(Execute(m, Instrumented(o, stmts), w, 0, [], multiset{}).trace);
    TraceIsPerformed(m, o, stmts, w);
    FetchesAreMarks(m, stmts[n..], Run(m, stmts[..n], w, 0).world);
    FetchesNone();
  }

  lemma {:induction false} MarksAreCounted<G(!new)>(m: Machine<G>, stmts: seq<Stmt>, w: World<G>, at: Instr)
    ensures |MarksRun(m, stmts, w)| == TallyOf(m, stmts, w, at).instrs
    decreases |stmts|
  {
    hide GuestTakes;
    if stmts == [] {
    } else if Skipped(stmts[0]) {
      MarksAreCounted(m, stmts[1..], w, at);
    } else if !(stmts[0].Exit? && m.taken(stmts[0], w)) {
      MarksAreCounted(m, stmts[1..], m.exec(stmts[0], w), if stmts[0].IMark? then Instr(stmts[0].iaddr, stmts[0].len) else at);
    }
  }
}
