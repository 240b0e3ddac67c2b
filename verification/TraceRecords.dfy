/** What the records of a trace file say about a session of superblocks. Line numbers are those of
    memagrind/memadump/md_main.c. */
module TraceRecords {
  import opened Wrappers
  import opened Bytes
  import opened TraceFormat
  import opened Vex
  import opened Instrument
  import opened TraceCorrect
  import opened BlockTheorems
  import opened DetailCounts
  import opened MemoryTrace
  import opened InstrumentPass

  function KindOfEvent(kind: EventKind): Kind {
    match kind case EventIr => InstRead case EventDr => DataRead case EventDw => DataWrite case EventDm => DataModify
  }

  /** The record of an access; the size is passed as a machine word. */
  function RecordFor(a: Access): MemAccess {
    MemAccess(KindOfEvent(a.kind), a.addr, Wrap64(a.size))
  }

  function RecordsFor(trace: seq<Access>): (r: seq<MemAccess>)
    ensures |r| == |trace|
  {
    seq(|trace|, i requires 0 <= i < |trace| => RecordFor(trace[i]))
  }

  lemma RecordsForAppend(a: seq<Access>, b: seq<Access>)
    ensures RecordsFor(a + b) == RecordsFor(a) + RecordsFor(b)
  {}

  /** What the pass demands of a superblock. */
  ghost predicate Translatable(o: Options, stmts: seq<Stmt>) {
    && Ssa(stmts, {})
    && AllAcceptable(o, stmts[PreambleLength(stmts)..], Instr(0, 0))
    && forall i :: 0 <= i < PreambleLength(stmts) ==> !stmts[i].Null?
  }

  /** What happened in a session, block after block. */
  function ObservedIn<G(!new)>(m: Machine<G>, o: Options, runs: seq<Entered<G>>): seq<Access> {
    if runs == [] then [] else
    var last := runs[|runs| - 1];
    ObservedIn(m, o, runs[..|runs| - 1]) + Observed(m, o, last.stmts, last.world).trace
  }

  // ---------- records as accesses ----------

  /** What a record says happened. */
  function SplitRecord(r: MemAccess): seq<Touch> {
    match r.kind
    case InstRead => [Fetch(r.addr, r.size)]
    case DataRead => [LoadAt(r.addr, r.size)]
    case DataWrite => [StoreAt(r.addr, r.size)]
    case DataModify => [LoadAt(r.addr, r.size), StoreAt(r.addr, r.size)]
  }

  function UnmergedRecords(records: seq<MemAccess>): seq<Touch> {
    if records == [] then [] else UnmergedRecords(records[..|records| - 1]) + SplitRecord(records[|records| - 1])
  }

  /** Sizes that a machine word holds. */
  ghost predicate Small(ts: seq<Touch>) {
    forall t <- ts :: t.size < WORD
  }

  lemma {:induction false} RecordsAreAccesses(trace: seq<Access>)
    requires Small(Unmerged(trace))
    ensures UnmergedRecords(RecordsFor(trace)) == Unmerged(trace)
    decreases |trace|
  {
    if trace != [] {
      var before, last := trace[..|trace| - 1], trace[|trace| - 1];
      SmallParts(Unmerged(before), Split(last));
      RecordIsAccess(last);
      hide Small;
      hide Split;
      hide SplitRecord;
      hide RecordFor;
      RecordsAreAccesses(before);
      assert RecordsFor(trace)[..|trace| - 1] == RecordsFor(before);
      assert RecordsFor(trace)[|trace| - 1] == RecordFor(last);
    }
  }

  lemma SmallParts(s: seq<Touch>, t: seq<Touch>)
    ensures Small(s + t) <==> Small(s) && Small(t)
  {}

  lemma RecordIsAccess(a: Access)
    requires Small(Split(a))
    ensures SplitRecord(RecordFor(a)) == Split(a) && a.size < WORD
  {
    assert Split(a)[0] in Split(a);
  }

  // ---------- sessions ----------

  /** What a session accesses, block after block. */
  function PerformedBy<G(!new)>(m: Machine<G>, runs: seq<Entered<G>>): seq<Touch> {
    if runs == [] then [] else
    var last := runs[|runs| - 1];
    PerformedBy(m, runs[..|runs| - 1]) + PerformedIn(m, last.stmts, last.world)
  }

  lemma {:induction false} SmallRun<G(!new)>(m: Machine<G>, o: Options, stmts: seq<Stmt>, w: World<G>, at: Instr)
    requires AllAcceptable(o, stmts, at)
    ensures Small(Performed(m, stmts, w))
    decreases |stmts|
  {
    hide TouchesOf;
    if stmts == [] {
    } else if Skipped(stmts[0]) {
      SmallRun(m, o, stmts[1..], w, at);
    } else {
      var s := stmts[0];
      var exits := s.Exit? && m.taken(s, w);
      SmallStatement(o, s, w, at);
      SmallParts(TouchesOf(s, w), if exits then [] else Performed(m, stmts[1..], m.exec(s, w)));
      if !exits { SmallRun(m, o, stmts[1..], m.exec(s, w), NextInstr(s, at)); }
    }
  }

  lemma SmallStatement<G>(o: Options, s: Stmt, w: World<G>, at: Instr)
    requires Acceptable(o, s, at)
    ensures Small(TouchesOf(s, w))
  {}

  /** The accesses observed in a session are those it performs. */
  lemma {:induction false} SessionIsPerformed<G(!new)>(m: Machine<G>, o: Options, runs: seq<Entered<G>>)
    requires IsMachine(m) && forall r <- runs :: Translatable(o, r.stmts)
    ensures Unmerged(ObservedIn(m, o, runs)) == PerformedBy(m, runs) && Small(PerformedBy(m, runs))
  {
    hide Observed;
    hide Unmerged;
    hide PerformedIn;
    hide Small;
    if runs == [] {
      NoneIsSmall();
    } else {
      var before, last := runs[..|runs| - 1], runs[|runs| - 1];
      SessionIsPerformed(m, o, before);
      BlockIsPerformed(m, o, last);
      UnmergedAppend(ObservedIn(m, o, before), Observed(m, o, last.stmts, last.world).trace);
      SmallParts(PerformedBy(m, before), PerformedIn(m, last.stmts, last.world));
    }
  }

  lemma NoneIsSmall()
    ensures Small([]) && Unmerged([]) == []
  {}

  lemma {:induction false} BlockIsPerformed<G(!new)>(m: Machine<G>, o: Options, run: Entered<G>)
    requires IsMachine(m) && Translatable(o, run.stmts)
    ensures Unmerged(Observed(m, o, run.stmts, run.world).trace) == PerformedIn(m, run.stmts, run.world)
    ensures Small(PerformedIn(m, run.stmts, run.world))
  {
    hide Execute;
    hide Instrumented;
    hide Observed;
    hide Run;
    hide Performed;
    hide Ssa;
    hide IsMachine;
    hide Unmerged;
    hide AllAcceptable;
    hide Small;
    var n := PreambleLength(run.stmts);
    InstrumentationIsFaithful(m, o, run.stmts, run.world, {});
    TraceIsPerformed(m, o, run.stmts, run.world);
    SmallRun(m, o, run.stmts[n..], Run(m, run.stmts[..n], run.world, 0).world, Instr(0, 0));
    NoneIsSmall();
  }

  /** The records of a session, with modifies taken apart, are every fetch, load and store it performs, in order. */
  lemma RecordsArePerformed<G(!new)>(m: Machine<G>, o: Options, runs: seq<Entered<G>>)
    requires IsMachine(m) && forall r <- runs :: Translatable(o, r.stmts)
    ensures UnmergedRecords(RecordsFor(ObservedIn(m, o, runs))) == PerformedBy(m, runs)
  {
    hide ObservedIn;
    hide PerformedBy;
    hide Translatable;
    hide IsMachine;
    SessionIsPerformed(m, o, runs);
    RecordsAreAccesses(ObservedIn(m, o, runs));
  }

  // ---------- records against the counters ----------

  /** The bytes that a record loads, or stores. */
  function BytesIn(r: MemAccess, op: DetailOp): nat {
    match op
    case OpLoad => if r.kind.DataRead? || r.kind.DataModify? then r.size else 0
    case OpStore => if r.kind.DataWrite? || r.kind.DataModify? then r.size else 0
    case OpAlu => 0
  }

  function RecordedBytes(records: seq<MemAccess>, op: DetailOp): nat {
    if records == [] then 0
    else RecordedBytes(records[..|records| - 1], op) + BytesIn(records[|records| - 1], op)
  }

  function InstReads(records: seq<MemAccess>): nat {
    if records == [] then 0
    else InstReads(records[..|records| - 1]) + if records[|records| - 1].kind.InstRead? then 1 else 0
  }

  lemma RecordCounts(a: Access, op: DetailOp)
    requires a.size < WORD
    ensures BytesIn(RecordFor(a), op) == if Moves(a.kind, op) then a.size else 0
    ensures RecordFor(a).kind.InstRead? <==> a.kind.EventIr?
  {}

  lemma RecordsForLast(trace: seq<Access>)
    requires trace != []
    ensures var n := |trace| - 1;
            RecordsFor(trace)[..n] == RecordsFor(trace[..n]) && RecordsFor(trace)[n] == RecordFor(trace[n])
  {
    hide RecordFor;
  }

  lemma SmallLast(trace: seq<Access>)
    requires trace != [] && Small(Unmerged(trace))
    ensures Small(Unmerged(trace[..|trace| - 1])) && trace[|trace| - 1].size < WORD
  {
    SmallParts(Unmerged(trace[..|trace| - 1]), Split(trace[|trace| - 1]));
    RecordIsAccess(trace[|trace| - 1]);
  }

  lemma {:induction false} RecordedIsTraced(trace: seq<Access>, op: DetailOp)
    requires Small(Unmerged(trace))
    ensures RecordedBytes(RecordsFor(trace), op) == TracedBytes(trace, op)
    ensures InstReads(RecordsFor(trace)) == |InstrReads(trace)|
    decreases |trace|
  {
    hide RecordsFor;
    hide RecordFor;
    hide BytesIn;
    hide Moves;
    hide Small;
    hide Unmerged;
    if trace != [] {
      SmallLast(trace);
      RecordsForLast(trace);
      RecordCounts(trace[|trace| - 1], op);
      RecordedIsTraced(trace[..|trace| - 1], op);
    }
  }

  /** The bytes that the dirty helpers of a session declare. */
  function DirtyBytesBy<G(!new)>(m: Machine<G>, runs: seq<Entered<G>>, op: DetailOp): nat {
    if runs == [] then 0 else
    var last := runs[|runs| - 1];
    var n := PreambleLength(last.stmts);
    var pre := Run(m, last.stmts[..n], last.world, 0);
    DirtyBytesBy(m, runs[..|runs| - 1], op) + if pre.exit.Some? then 0 else DirtyBytes(m, last.stmts[n..], pre.world, op)
  }

  lemma {:induction false} SessionDetails<G(!new)>(m: Machine<G>, o: Options, runs: seq<Entered<G>>, op: DetailOp)
    requires IsMachine(m) && !op.OpAlu? && forall r <- runs :: Ssa(r.stmts, {})
    ensures TracedBytes(ObservedIn(m, o, runs), op) == CountedBytes(Session(m, o, runs), op) + DirtyBytesBy(m, runs, op)
  {
    hide Execute;
    hide Instrumented;
    hide Observed;
    hide Run;
    hide Ssa;
    hide IsMachine;
    hide CountedBytes;
    hide DirtyBytes;
    NothingCounted(op);
    if runs != [] {
      var before, last := runs[..|runs| - 1], runs[|runs| - 1];
      SessionDetails(m, o, before, op);
      InstrumentationIsFaithful(m, o, last.stmts, last.world, {});
      DetailsAreTraced(m, o, last.stmts, last.world, {}, op);
      TracedBytesAppend(ObservedIn(m, o, before), Observed(m, o, last.stmts, last.world).trace, op);
      CountedBytesAdd(Session(m, o, before), Execute(m, Instrumented(o, last.stmts), last.world, 0, [], multiset{}).counts, op);
    }
  }

  lemma {:induction false} InstrReadsAppend(a: seq<Access>, b: seq<Access>)
    ensures InstrReads(a + b) == InstrReads(a) + InstrReads(b)
    decreases |b|
  {
    if b == [] {
      assert a + b == a;
    } else {
      assert (a + b)[..|a + b| - 1] == a + b[..|b| - 1];
      InstrReadsAppend(a, b[..|b| - 1]);
    }
  }

  lemma {:induction false} SessionMarks<G(!new)>(m: Machine<G>, o: Options, runs: seq<Entered<G>>)
    requires IsMachine(m) && forall r <- runs :: Ssa(r.stmts, {})
    ensures |InstrReads(ObservedIn(m, o, runs))| == ExpectedAll(m, runs).instrs
  {
    hide Execute;
    hide Instrumented;
    hide Observed;
    hide Run;
    hide Ssa;
    hide IsMachine;
    hide MarksRun;
    hide TallyOf;
    if runs != [] {
      var before, last := runs[..|runs| - 1], runs[|runs| - 1];
      var n := PreambleLength(last.stmts);
      var pre := Run(m, last.stmts[..n], last.world, 0);
      SessionMarks(m, o, before);
      InstrumentationIsFaithful(m, o, last.stmts, last.world, {});
      InstructionsAreTraced(m, o, last.stmts, last.world);
      MarksAreCounted(m, last.stmts[n..], pre.world, Instr(0, 0));
      InstrReadsAppend(ObservedIn(m, o, before), Observed(m, o, last.stmts, last.world).trace);
    }
  }

  /** The records of a session against its counters: the bytes of the data records are those the detailed counts stand
      for and those of the dirty helpers, and there is an instruction record for every guest instruction counted. */
  lemma RecordsAreCounted<G(!new)>(m: Machine<G>, o: Options, runs: seq<Entered<G>>, op: DetailOp)
    requires IsMachine(m) && !op.OpAlu? && forall r <- runs :: Translatable(o, r.stmts)
    ensures RecordedBytes(RecordsFor(ObservedIn(m, o, runs)), op)
            == CountedBytes(Session(m, o, runs), op) + DirtyBytesBy(m, runs, op)
    ensures o.basic ==> InstReads(RecordsFor(ObservedIn(m, o, runs))) == Session(m, o, runs)[GuestInstrs]
  {
    SsaOfAll(o, runs);
    SessionIsPerformed(m, o, runs);
    hide ObservedIn;
    hide Session;
    hide ExpectedAll;
    hide DirtyBytesBy;
    hide CountedBytes;
    hide Translatable;
    hide IsMachine;
    hide Ssa;
    SessionDetails(m, o, runs, op);
    SessionMarks(m, o, runs);
    RecordedIsTraced(ObservedIn(m, o, runs), op);
    if o.basic { SessionTotals(m, o, runs); }
  }

  lemma SsaOfAll<G(!new)>(o: Options, runs: seq<Entered<G>>)
    requires forall r <- runs :: Translatable(o, r.stmts)
    ensures forall r <- runs :: Ssa(r.stmts, {})
  {}
}
