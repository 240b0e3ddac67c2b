/** From superblocks to the trace file: every block is instrumented, its code is run with its calls going into the log,
    and the file that is left reads back as what happened. */
module TraceSession {
  import opened Wrappers
  import opened Bytes
  import opened Lz4Format
  import opened TraceFormat
  import opened TraceLog
  import opened Vex
  import opened Instrument
  import opened TraceCorrect
  import opened BlockTheorems
  import opened DetailCounts
  import opened InstrumentPass
  import opened TraceRecords

  lemma NothingBefore(records: seq<MemAccess>)
    ensures [] + records == records
  {}

  /** The helper calls of one block, made one by one as its code runs. */
  method RunCode<G(!new)>(m: Machine<G>, code: seq<OutStmt>, w: World<G>, log: Log, counts0: multiset<Counter>)
    returns (ending: Ending<G>, counts: multiset<Counter>, ghost trace: seq<Access>)
    requires log.Valid() && log.outputOpen
    modifies log, log.memAccesses
    ensures log.Valid() && log.outputOpen
    ensures Execute(m, code, w, 0, [], counts0) == Recorded(ending, trace, counts)
    ensures log.Records() == old(log.Records()) + RecordsFor(trace)
  {
    hide Flatten;
    hide Holds;
    hide RecordsFor;
    var world, steps, i := w, 0, 0;
    counts, trace := counts0, [];
    ghost var whole := Execute(m, code, w, 0, [], counts0);
    assert code[0..] == code;
    NoRecords(log.Records());
    while i < |code|
      invariant 0 <= i <= |code| && log.Valid() && log.outputOpen
      invariant Execute(m, code[i..], world, steps, trace, counts) == whole
      invariant log.Records() == old(log.Records()) + RecordsFor(trace)
    {
      assert code[i..][1..] == code[i + 1..] && code[i..][0] == code[i];
      match code[i] {
        case Guest(s) =>
          if !Skipped(s) {
            if s.Exit? && m.taken(s, world) { return Ending(world, Some(s), steps + 1), counts, trace; }
            world, steps := m.exec(s, world), steps + 1;
          }
        case Helper(Trace(ev)) =>
          ghost var a := Observe(ev, world);
          OneRecord(old(log.Records()), trace, a);
          log.Trace(KindOfEvent(ev.kind), Eval(ev.addr, world), Wrap64(ev.size));
          trace := trace + [a];
        case Helper(Count(c)) => counts := counts + multiset{c};
        case Helper(TraceSuperblock) =>
      }
      i := i + 1;
    }
    assert code[i..] == [];
    ending := Ending(world, None, steps);
  }

  lemma NoRecords(before: seq<MemAccess>)
    ensures before == before + RecordsFor([])
  {}

  lemma OneRecord(before: seq<MemAccess>, trace: seq<Access>, a: Access)
    ensures before + RecordsFor(trace + [a]) == before + RecordsFor(trace) + [RecordFor(a)]
  {
    assert RecordsFor([a]) == [RecordFor(a)];
    RecordsForAppend(trace, [a]);
  }

  /** A superblock is instrumented and run. It ends as the original does, and the log gains what an observer of the
      original notes. */
  method RunBlock<G(!new)>(m: Machine<G>, o: Options, run: Entered<G>, log: Log)
    returns (ending: Ending<G>, counts: multiset<Counter>)
    requires IsMachine(m) && Translatable(o, run.stmts)
    requires log.Valid() && log.outputOpen
    modifies log, log.memAccesses
    ensures log.Valid() && log.outputOpen
    ensures ending == Run(m, run.stmts, run.world, 0)
    ensures counts == Execute(m, Instrumented(o, run.stmts), run.world, 0, [], multiset{}).counts
    ensures log.Records() == old(log.Records()) + RecordsFor(Observed(m, o, run.stmts, run.world).trace)
  {
    hide Execute;
    hide Instrumented;
    hide Observed;
    hide Run;
    hide Holds;
    hide Flatten;
    hide RecordsFor;
    InstrumentationIsFaithful(m, o, run.stmts, run.world, {});
    var pass := new Pass();
    pass.Instrument(o, run.stmts);
    ghost var trace;
    ending, counts, trace := RunCode(m, pass.sbOut, run.world, log, multiset{});
  }

  /** One more block. */
  lemma SessionStep<G(!new)>(m: Machine<G>, o: Options, runs: seq<Entered<G>>, i: nat, before: seq<MemAccess>)
    requires i < |runs|
    ensures Session(m, o, runs[..i + 1])
            == Session(m, o, runs[..i]) + Execute(m, Instrumented(o, runs[i].stmts), runs[i].world, 0, [], multiset{}).counts
    ensures before + RecordsFor(ObservedIn(m, o, runs[..i + 1]))
            == before + RecordsFor(ObservedIn(m, o, runs[..i]))
               + RecordsFor(Observed(m, o, runs[i].stmts, runs[i].world).trace)
  {
    hide Execute;
    hide Instrumented;
    hide Observed;
    hide RecordsFor;
    assert runs[..i + 1][..i] == runs[..i];
    RecordsForAppend(ObservedIn(m, o, runs[..i]), Observed(m, o, runs[i].stmts, runs[i].world).trace);
  }

  lemma SessionStart<G(!new)>(m: Machine<G>, o: Options, runs: seq<Entered<G>>, before: seq<MemAccess>)
    ensures Session(m, o, runs[..0]) == multiset{} && before == before + RecordsFor(ObservedIn(m, o, runs[..0]))
    ensures runs[..|runs|] == runs
  {
    NoRecords(before);
    assert runs[..0] == [];
  }

  /** A session of superblocks, each entered in the state it is found in. */
  method RunSession<G(!new)>(m: Machine<G>, o: Options, runs: seq<Entered<G>>, log: Log)
    returns (endings: seq<Ending<G>>, counts: multiset<Counter>)
    requires IsMachine(m) && forall r <- runs :: Translatable(o, r.stmts)
    requires log.Valid() && log.outputOpen
    modifies log, log.memAccesses
    ensures log.Valid() && log.outputOpen
    ensures |endings| == |runs|
    ensures forall i :: 0 <= i < |runs| ==> endings[i] == Run(m, runs[i].stmts, runs[i].world, 0)
    ensures counts == Session(m, o, runs)
    ensures log.Records() == old(log.Records()) + RecordsFor(ObservedIn(m, o, runs))
  {
    hide Execute;
    hide Instrumented;
    hide Observed;
    hide Run;
    hide Holds;
    hide Flatten;
    hide RecordsFor;
    hide Translatable;
    hide Session;
    hide ObservedIn;
    endings, counts := [], multiset{};
    SessionStart(m, o, runs, log.Records());
    for i := 0 to |runs|
      invariant log.Valid() && log.outputOpen && |endings| == i
      invariant forall k :: 0 <= k < i ==> endings[k] == Run(m, runs[k].stmts, runs[k].world, 0)
      invariant counts == Session(m, o, runs[..i])
      invariant log.Records() == old(log.Records()) + RecordsFor(ObservedIn(m, o, runs[..i]))
    {
      SessionStep(m, o, runs, i, old(log.Records()));
      var ending, more := RunBlock(m, o, runs[i], log);
      endings, counts := endings + [ending], counts + more;
    }
  }

  /** A whole run of the tool. The file it leaves reads back as every access of every block, in order. */
  method TraceProgram<G(!new)>(m: Machine<G>, o: Options, runs: seq<Entered<G>>, pieces: seq<seq<byte>>, ghost room: nat)
    returns (log: Log, counts: multiset<Counter>)
    requires IsMachine(m) && forall r <- runs :: Translatable(o, r.stmts)
    requires 0 !in Flatten(pieces) && CompressBound(MAX_DATA) <= room
    ensures fresh(log) && ReadTrace(log.output.file, room) == Some(RecordsFor(ObservedIn(m, o, runs)))
    ensures var records := RecordsFor(ObservedIn(m, o, runs));
            && UnmergedRecords(records) == PerformedBy(m, runs)
            && RecordedBytes(records, OpLoad) == CountedBytes(counts, OpLoad) + DirtyBytesBy(m, runs, OpLoad)
            && RecordedBytes(records, OpStore) == CountedBytes(counts, OpStore) + DirtyBytesBy(m, runs, OpStore)
            && (o.basic ==> InstReads(records) == counts[GuestInstrs])
    ensures log.output.totalCompressed == Wrap64(|log.output.file|)
  {
    hide Execute;
    hide UnmergedRecords;
    hide PerformedBy;
    hide RecordedBytes;
    hide CountedBytes;
    hide DirtyBytesBy;
    hide InstReads;
    hide Session;
    hide ObservedIn;
    hide ReadTrace;
    hide Holds;
    hide Flatten;
    hide RecordsFor;
    hide Translatable;
    hide CompressBound;
    log := new Log(pieces);
    var endings;
    endings, counts := RunSession(m, o, runs, log);
    RecordsArePerformed(m, o, runs);
    RecordsAreCounted(m, o, runs, OpLoad);
    RecordsAreCounted(m, o, runs, OpStore);
    NothingBefore(RecordsFor(ObservedIn(m, o, runs)));
    log.Finalize(room);
    log.Readable(room);
  }
}
