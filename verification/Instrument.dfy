/** `md_instrument`: a superblock with calls added that count, and that trace every access before each way out. */
module Instrument {
  import opened Wrappers
  import opened Bytes
  import opened Vex
  import opened EventBuffer

  // ---------- instrumented code ----------

  datatype DetailOp = OpLoad | OpStore | OpAlu

  datatype Counter =
    | SBsEntered | SBsCompleted | IRStmts | GuestInstrs | FuncCalls
    | Jccs | JccsUntaken | IJccs | IJccsUntaken
    | Detail(op: DetailOp, ty: TypeIndex)

  /** A call to one of the helpers. */
  datatype Call = Count(c: Counter) | TraceSuperblock | Trace(ev: Event)

  datatype OutStmt = Guest(s: Stmt) | Helper(call: Call)

  /** The tool's options: whether basic counts are on, and where the counted function is entered. */
  datatype Options = Options(basic: bool, entries: set<uint64>)

  function Traces(evs: seq<Event>): (r: seq<Call>)
    ensures |r| == |evs|
  {
    seq(|evs|, i requires 0 <= i < |evs| => Trace(evs[i]))
  }

  function Helpers(calls: seq<Call>): (r: seq<OutStmt>)
    ensures |r| == |calls|
  {
    seq(|calls|, i requires 0 <= i < |calls| => Helper(calls[i]))
  }

  /** The address and length of the instruction the pass is in. */
  datatype Instr = Instr(addr: uint64, len: nat) {
    /** Where execution goes on when no branch is taken. */
    function Next(): uint64 { (addr + len) % 0x1_0000_0000_0000_0000 }
  }

  function CountIf(basic: bool, c: Counter): seq<Call> {
    if basic then [Count(c)] else []
  }

  /** What the pass puts around one statement, and what it keeps. */
  datatype Around = Around(before: seq<Call>, after: seq<Call>, pending: seq<Event>, at: Instr)

  /** Calls that count the kinds of access and arithmetic of a statement. */
  function DetailCalls(s: Stmt): seq<Call> {
    match s
    case WrTmp(_, Load(_, ty)) => [Count(Detail(OpLoad, ty))]
    case WrTmp(_, Alu(ty, _)) => [Count(Detail(OpAlu, ty))]
    case Store(_, ty, _) => [Count(Detail(OpStore, ty))]
    case CAS(_, ty, double, _, _) =>
      if double
      then [Count(Detail(OpLoad, ty)), Count(Detail(OpLoad, ty)), Count(Detail(OpStore, ty)), Count(Detail(OpStore, ty))]
      else [Count(Detail(OpLoad, ty)), Count(Detail(OpStore, ty))]
    case LL(_, ty, _, _) => [Count(Detail(OpLoad, ty))]
    case SC(_, ty, _, _) => [Count(Detail(OpStore, ty))]
    case _ => []
  }

  /** Counts made before any event of the statement is traced. */
  function CountCalls(o: Options, s: Stmt, at: Instr): seq<Call> {
    CountIf(o.basic, IRStmts) +
    match s
    case IMark(addr, _) => CountIf(o.basic, GuestInstrs) + CountIf(o.basic && addr in o.entries, FuncCalls)
    case Exit(dst, _) => CountIf(o.basic, if dst == at.Next() then IJccs else Jccs)
    case _ => []
  }

  /** Counts made when an exit has not been taken. */
  function UntakenCalls(o: Options, s: Stmt, at: Instr): seq<Call> {
    match s
    case Exit(dst, _) => CountIf(o.basic, if dst == at.Next() then IJccsUntaken else JccsUntaken)
    case _ => []
  }

  function NextInstr(s: Stmt, at: Instr): Instr {
    match s case IMark(addr, len) => Instr(addr, len) case _ => at
  }

  function Wrap(o: Options, s: Stmt, pending: seq<Event>, at: Instr): (r: Around)
    requires |pending| <= N_EVENTS
    ensures |r.pending| <= N_EVENTS
  {
    var added := AddAll(pending, EventsOf(s));
    var emitted := if IsBarrier(s) then added.emitted + added.pending else added.emitted;
    Around(CountCalls(o, s, at) + Traces(emitted) + DetailCalls(s), UntakenCalls(o, s, at),
           if IsBarrier(s) then [] else added.pending, NextInstr(s, at))
  }

  predicate Skipped(s: Stmt) { s.Null? || s.NoOp? }

  /** The code for the statements from the first instruction mark on. */
  function Body(o: Options, stmts: seq<Stmt>, pending: seq<Event>, at: Instr): seq<OutStmt>
    requires |pending| <= N_EVENTS
    decreases |stmts|
  {
    if stmts == [] then Helpers(CountIf(o.basic, SBsCompleted) + Traces(pending))
    else if Skipped(stmts[0]) then Body(o, stmts[1..], pending, at)
    else
      var a := Wrap(o, stmts[0], pending, at);
      Helpers(a.before) + [Guest(stmts[0])] + Helpers(a.after) + Body(o, stmts[1..], a.pending, a.at)
  }

  /** How many statements come before the first instruction mark. */
  function PreambleLength(stmts: seq<Stmt>): (n: nat)
    ensures n <= |stmts|
    ensures n < |stmts| ==> stmts[n].IMark?
    ensures forall i :: 0 <= i < n ==> !stmts[i].IMark?
  {
    if stmts == [] || stmts[0].IMark? then 0 else 1 + PreambleLength(stmts[1..])
  }

  function Verbatim(stmts: seq<Stmt>): (r: seq<OutStmt>)
    ensures |r| == |stmts|
  {
    seq(|stmts|, i requires 0 <= i < |stmts| => Guest(stmts[i]))
  }

  function Entry(o: Options): seq<Call> {
    CountIf(o.basic, SBsEntered) + [TraceSuperblock]
  }

  /** The whole instrumented block. */
  function Instrumented(o: Options, stmts: seq<Stmt>): seq<OutStmt> {
    var n := PreambleLength(stmts);
    Verbatim(stmts[..n]) + Helpers(Entry(o)) + Body(o, stmts[n..], [], Instr(0, 0))
  }

  // ---------- running instrumented code ----------

  /** A run of instrumented code: how it ends for the guest, and what the helpers have recorded. */
  datatype Recorded<G> = Recorded(ending: Ending<G>, trace: seq<Access>, counts: multiset<Counter>)

  function Observe<G>(ev: Event, w: World<G>): Access {
    Access(ev.kind, Eval(ev.addr, w), ev.size)
  }

  function ObserveAll<G>(evs: seq<Event>, w: World<G>): (r: seq<Access>)
    ensures |r| == |evs|
  {
    seq(|evs|, i requires 0 <= i < |evs| => Observe(evs[i], w))
  }

  function Execute<G(!new)>(m: Machine<G>, code: seq<OutStmt>, w: World<G>, steps: nat, trace: seq<Access>,
                            counts: multiset<Counter>): Recorded<G>
    decreases |code|
  {
    if code == [] then Recorded(Ending(w, None, steps), trace, counts) else
    match code[0]
    case Guest(s) =>
      if Skipped(s) then Execute(m, code[1..], w, steps, trace, counts)
      else if s.Exit? && m.taken(s, w) then Recorded(Ending(w, Some(s), steps + 1), trace, counts)
      else Execute(m, code[1..], m.exec(s, w), steps + 1, trace, counts)
    case Helper(Trace(ev)) => Execute(m, code[1..], w, steps, trace + [Observe(ev, w)], counts)
    case Helper(Count(c)) => Execute(m, code[1..], w, steps, trace, counts + multiset{c})
    case Helper(TraceSuperblock) => Execute(m, code[1..], w, steps, trace, counts)
  }
}
