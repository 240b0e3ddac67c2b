/** Recording only inside chosen functions, on the thread that set monitoring up, and what the call-stack index then
    makes of the recorded calls. */
module FunctionMonitor {
  import opened Wrappers
  import opened Bytes
  import opened FuncTree

  /** `flags()->disable` and `monitor_func_entry_count`. */
  datatype Gate = Gate(disable: bool, count: nat)

  /** The gate after `__mema_function_entry`, which records the call when the gate is then open. */
  function AtEntry(monitored: set<uint64>, g: Gate, addr: uint64): Gate {
    if addr in monitored then Gate(if g.count == 0 then false else g.disable, g.count + 1) else g
  }

  /** The gate after `__mema_function_exit`. */
  function AtExit(monitored: set<uint64>, g: Gate, addr: uint64): Gate {
    if addr !in monitored then g else
    var count := if g.count > 0 then g.count - 1 else 0;
    Gate(if count == 0 then true else g.disable, count)
  }

  /** The library's state on that thread: the gate and the calls recorded so far. */
  class Monitor {
    const monitored: set<uint64>
    var disable: bool
    var entryCount: nat
    var recorded: seq<Record>

    function TheGate(): Gate
      reads this
    {
      Gate(disable, entryCount)
    }

    /** Monitoring starts disabled. */
    constructor (monitored: set<uint64>)
      ensures this.monitored == monitored && TheGate() == Gate(true, 0) && recorded == []
    {
      this.monitored := monitored;
      disable, entryCount, recorded := true, 0, [];
    }

    method FunctionEntry(addr: uint64)
      modifies this
      ensures TheGate() == AtEntry(monitored, old(TheGate()), addr)
      ensures recorded == if TheGate().disable then old(recorded) else old(recorded) + [FuncEnter(addr)]
    {
      var stash := disable;
      disable := true;
      if addr in monitored {
        if entryCount == 0 { stash := false; }
        entryCount := entryCount + 1;
      }
      disable := stash;
      if disable { return; }
      recorded := recorded + [FuncEnter(addr)];
    }

    method FunctionExit(addr: uint64)
      modifies this
      ensures TheGate() == AtExit(monitored, old(TheGate()), addr)
      ensures recorded == if TheGate().disable then old(recorded) else old(recorded) + [FuncExit(addr)]
    {
      var stash := disable;
      disable := true;
      if addr in monitored {
        if entryCount > 0 { entryCount := entryCount - 1; }
        if entryCount == 0 { stash := true; }
      }
      disable := stash;
      if disable { return; }
      recorded := recorded + [FuncExit(addr)];
    }
  }

  // ---------- whole runs ----------

  datatype Event = Call(addr: uint64) | Return

  /** A running program: its call stack, the gate, what has been recorded, and how many calls of monitored functions
      made from outside any other have returned. */
  datatype Program = Program(stack: seq<uint64>, gate: Gate, recorded: seq<Record>, finished: nat)

  const START := Program([], Gate(true, 0), [], 0)

  function Step(monitored: set<uint64>, p: Program, e: Event): Program
    requires e.Return? ==> p.stack != []
  {
    match e
    case Call(addr) =>
      var gate := AtEntry(monitored, p.gate, addr);
      Program(p.stack + [addr], gate, if gate.disable then p.recorded else p.recorded + [FuncEnter(addr)], p.finished)
    case Return =>
      var addr := p.stack[|p.stack| - 1];
      var gate := AtExit(monitored, p.gate, addr);
      Program(p.stack[..|p.stack| - 1], gate, if gate.disable then p.recorded else p.recorded + [FuncExit(addr)],
              if addr in monitored && gate.count == 0 then p.finished + 1 else p.finished)
  }

  /** The program after `events`; nothing when it returns from more calls than it made. */
  function Execution(monitored: set<uint64>, events: seq<Event>): Option<Program> {
    if events == [] then Some(START) else
    var before := Execution(monitored, events[..|events| - 1]);
    var e := events[|events| - 1];
    if before.None? || (e.Return? && before.value.stack == []) then None
    else Some(Step(monitored, before.value, e))
  }

  /** How many calls are monitored ones. */
  function MonitoredCalls(monitored: set<uint64>, stack: seq<uint64>): nat {
    if stack == [] then 0 else
    MonitoredCalls(monitored, stack[..|stack| - 1]) + (if stack[|stack| - 1] in monitored then 1 else 0)
  }

  /** How many calls there are from the outermost monitored one inwards. */
  function Inside(monitored: set<uint64>, stack: seq<uint64>): nat {
    if stack == [] then 0 else
    var before := Inside(monitored, stack[..|stack| - 1]);
    if before > 0 || stack[|stack| - 1] in monitored then before + 1 else 0
  }

  lemma {:induction false} InsideIffMonitored(monitored: set<uint64>, stack: seq<uint64>)
    ensures Inside(monitored, stack) > 0 <==> MonitoredCalls(monitored, stack) > 0
  {
    if stack != [] {
      InsideIffMonitored(monitored, stack[..|stack| - 1]);
    }
  }

  lemma {:induction false} Pushed(monitored: set<uint64>, stack: seq<uint64>, addr: uint64)
    ensures MonitoredCalls(monitored, stack + [addr])
            == MonitoredCalls(monitored, stack) + (if addr in monitored then 1 else 0)
    ensures Inside(monitored, stack + [addr])
            == if Inside(monitored, stack) > 0 || addr in monitored then Inside(monitored, stack) + 1 else 0
  {
    assert (stack + [addr])[..|stack|] == stack;
  }

  lemma {:induction false} RecordOne(recorded: seq<Record>, r: Record, frames: seq<Record>)
    requires Replay([], recorded) == Some(frames) && (r.FuncEnter? || (r.FuncExit? && frames != []))
    ensures Replay([], recorded + [r])
            == Some(if r.FuncEnter? then frames + [r] else frames[..|frames| - 1])
  {
    ReplayAppend([], recorded, [r]);
    assert [r][1..] == [];
  }

  /** The gate is open exactly inside a monitored call, and the recorded calls replay, without ever running out of
      frames, to the calls inside plus one for every monitored call that has returned. */
  ghost predicate Consistent(monitored: set<uint64>, p: Program) {
    && p.gate == Gate(MonitoredCalls(monitored, p.stack) == 0, MonitoredCalls(monitored, p.stack))
    && var frames := Replay([], p.recorded);
       frames.Some? && |frames.value| == p.finished + Inside(monitored, p.stack)
  }

  lemma {:induction false} CallKeeps(monitored: set<uint64>, p: Program, addr: uint64)
    requires Consistent(monitored, p)
    ensures Consistent(monitored, Step(monitored, p, Call(addr)))
  {
    hide MonitoredCalls;
    hide Inside;
    InsideIffMonitored(monitored, p.stack);
    Pushed(monitored, p.stack, addr);
    RecordOne(p.recorded, FuncEnter(addr), Replay([], p.recorded).value);
    hide Replay;
  }

  lemma {:induction false} ReturnKeeps(monitored: set<uint64>, p: Program)
    requires Consistent(monitored, p) && p.stack != []
    ensures Consistent(monitored, Step(monitored, p, Return))
  {
    hide MonitoredCalls;
    hide Inside;
    var init, addr := p.stack[..|p.stack| - 1], p.stack[|p.stack| - 1];
    assert p.stack == init + [addr];
    InsideIffMonitored(monitored, init);
    InsideIffMonitored(monitored, p.stack);
    Pushed(monitored, init, addr);
    if !Step(monitored, p, Return).gate.disable {
      RecordOne(p.recorded, FuncExit(addr), Replay([], p.recorded).value);
    }
    hide Replay;
  }

  lemma {:induction false} ExecutionIsConsistent(monitored: set<uint64>, events: seq<Event>)
    requires Execution(monitored, events).Some?
    ensures Consistent(monitored, Execution(monitored, events).value)
  {
    hide Consistent;
    if events == [] {
      assert Consistent(monitored, START) by { StartIsConsistent(monitored); }
    } else {
      var before := Execution(monitored, events[..|events| - 1]).value;
      ExecutionIsConsistent(monitored, events[..|events| - 1]);
      match events[|events| - 1]
      case Call(addr) => CallKeeps(monitored, before, addr);
      case Return => ReturnKeeps(monitored, before);
    }
  }

  lemma StartIsConsistent(monitored: set<uint64>)
    ensures Consistent(monitored, START)
  {}

  /** The call stack after `events`, whatever is monitored. */
  function StackOf(events: seq<Event>): Option<seq<uint64>> {
    if events == [] then Some([]) else
    var before := StackOf(events[..|events| - 1]);
    if before.None? then None else
    match events[|events| - 1]
    case Call(addr) => Some(before.value + [addr])
    case Return => if before.value == [] then None else Some(before.value[..|before.value| - 1])
  }

  /** What is recorded of a run, told by its call stack: a call that is monitored or made inside a monitored one, and a
      return to somewhere inside one. */
  function Noted(monitored: set<uint64>, events: seq<Event>): seq<Record> {
    if events == [] then [] else
    var init := events[..|events| - 1];
    var stack := StackOf(init);
    if stack.None? then [] else
    Noted(monitored, init) +
    match events[|events| - 1]
    case Call(addr) => if MonitoredCalls(monitored, stack.value + [addr]) > 0 then [FuncEnter(addr)] else []
    case Return =>
      if stack.value == [] then [] else
      var rest, addr := stack.value[..|stack.value| - 1], stack.value[|stack.value| - 1];
      if MonitoredCalls(monitored, rest) > 0 then [FuncExit(addr)] else []
  }

  lemma NotedStep(monitored: set<uint64>, p: Program, e: Event)
    requires p.gate == Gate(MonitoredCalls(monitored, p.stack) == 0, MonitoredCalls(monitored, p.stack))
    requires e.Return? ==> p.stack != []
    ensures Step(monitored, p, e).recorded
            == p.recorded +
               match e
               case Call(addr) => if MonitoredCalls(monitored, p.stack + [addr]) > 0 then [FuncEnter(addr)] else []
               case Return =>
                 if MonitoredCalls(monitored, p.stack[..|p.stack| - 1]) > 0 then [FuncExit(p.stack[|p.stack| - 1])] else []
  {
    hide MonitoredCalls;
    match e
    case Call(addr) => Pushed(monitored, p.stack, addr);
    case Return =>
      var rest, addr := p.stack[..|p.stack| - 1], p.stack[|p.stack| - 1];
      assert p.stack == rest + [addr];
      Pushed(monitored, rest, addr);
  }

  /** The record of any run is that. */
  lemma {:induction false} RecordedIsNoted(monitored: set<uint64>, events: seq<Event>)
    requires Execution(monitored, events).Some?
    ensures Execution(monitored, events).value.recorded == Noted(monitored, events)
  {
    hide MonitoredCalls;
    hide Step;
    if events != [] {
      var init, e := events[..|events| - 1], events[|events| - 1];
      RecordedIsNoted(monitored, init);
      GateFollowsStack(monitored, init);
      OutermostReturnOrRemain(monitored, init);
      NotedStep(monitored, Execution(monitored, init).value, e);
      hide Outermost;
      hide OutermostCalls;
    }
  }

  /** The calls of monitored functions that are made from outside any other. */
  function OutermostCalls(monitored: set<uint64>, events: seq<Event>): nat {
    if events == [] then 0 else
    var init, e := events[..|events| - 1], events[|events| - 1];
    var stack := StackOf(init);
    OutermostCalls(monitored, init)
    + (if e.Call? && e.addr in monitored && stack.Some? && MonitoredCalls(monitored, stack.value) == 0 then 1 else 0)
  }

  predicate CallsMonitored(monitored: set<uint64>, events: seq<Event>) {
    exists e <- events :: e.Call? && e.addr in monitored
  }

  /** The outermost monitored calls of a program so far: those that have returned, and one that may be on the stack. */
  function Outermost(monitored: set<uint64>, p: Program): nat {
    p.finished + (if MonitoredCalls(monitored, p.stack) > 0 then 1 else 0)
  }

  lemma StepCounts(monitored: set<uint64>, p: Program, e: Event)
    requires p.gate == Gate(MonitoredCalls(monitored, p.stack) == 0, MonitoredCalls(monitored, p.stack))
    requires e.Return? ==> p.stack != []
    ensures Outermost(monitored, Step(monitored, p, e))
            == Outermost(monitored, p)
               + (if e.Call? && e.addr in monitored && MonitoredCalls(monitored, p.stack) == 0 then 1 else 0)
  {
    hide MonitoredCalls;
    match e
    case Call(addr) => Pushed(monitored, p.stack, addr);
    case Return =>
      var rest, addr := p.stack[..|p.stack| - 1], p.stack[|p.stack| - 1];
      assert p.stack == rest + [addr];
      Pushed(monitored, rest, addr);
  }

  /** Every outermost monitored call has either returned or is still on the stack. */
  lemma {:induction false} OutermostReturnOrRemain(monitored: set<uint64>, events: seq<Event>)
    requires Execution(monitored, events).Some?
    ensures var p := Execution(monitored, events).value;
            StackOf(events) == Some(p.stack) && OutermostCalls(monitored, events) == Outermost(monitored, p)
  {
    hide MonitoredCalls;
    if events == [] {
      Nothing(monitored);
    } else {
      var init, e := events[..|events| - 1], events[|events| - 1];
      OutermostReturnOrRemain(monitored, init);
      GateFollowsStack(monitored, init);
      StepCounts(monitored, Execution(monitored, init).value, e);
      hide Outermost;
    }
  }

  lemma GateFollowsStack(monitored: set<uint64>, events: seq<Event>)
    requires Execution(monitored, events).Some?
    ensures var p := Execution(monitored, events).value;
            p.gate == Gate(MonitoredCalls(monitored, p.stack) == 0, MonitoredCalls(monitored, p.stack))
  {
    ExecutionIsConsistent(monitored, events);
  }

  lemma Nothing(monitored: set<uint64>)
    ensures MonitoredCalls(monitored, []) == 0
  {}

  lemma {:induction false} NoOutermostIfNone(monitored: set<uint64>, events: seq<Event>)
    requires StackOf(events).Some?
    ensures OutermostCalls(monitored, events) == 0 <==> !CallsMonitored(monitored, events)
    ensures !CallsMonitored(monitored, events) ==> MonitoredCalls(monitored, StackOf(events).value) == 0
  {
    hide MonitoredCalls;
    Nothing(monitored);
    if events != [] {
      var init, e := events[..|events| - 1], events[|events| - 1];
      var before := StackOf(init).value;
      assert events == init + [e];
      NoOutermostIfNone(monitored, init);
      match e
      case Call(addr) => Pushed(monitored, before, addr);
      case Return =>
        var rest, addr := before[..|before| - 1], before[|before| - 1];
        assert before == rest + [addr];
        Pushed(monitored, rest, addr);
    }
  }

  /** The return that closes the gate is not recorded, so each finished monitored call leaves its frame open for good:
      after a program has unwound, the replayed stack holds one frame for each outermost monitored call it made. */
  lemma {:induction false} FinishedCallsStayOpen(monitored: set<uint64>, events: seq<Event>)
    requires Execution(monitored, events).Some? && Execution(monitored, events).value.stack == []
    ensures var p := Execution(monitored, events).value;
            && Replay([], p.recorded).Some?
            && |Replay([], p.recorded).value| == p.finished == OutermostCalls(monitored, events)
            && (Replay([], p.recorded) == Some([]) <==> p.finished == 0)
  {
    ExecutionIsConsistent(monitored, events);
    OutermostReturnOrRemain(monitored, events);
  }

  /** After a program has unwound, what was recorded is balanced if and only if it called no monitored function. */
  lemma BalancedIffNothingMonitored(monitored: set<uint64>, events: seq<Event>)
    requires Execution(monitored, events).Some? && Execution(monitored, events).value.stack == []
    ensures Replay([], Execution(monitored, events).value.recorded) == Some([]) <==> !CallsMonitored(monitored, events)
  {
    FinishedCallsStayOpen(monitored, events);
    OutermostReturnOrRemain(monitored, events);
    NoOutermostIfNone(monitored, events);
  }

  /** One call of a monitored function, and its return: its entry is recorded, its exit is not. */
  lemma OneCallStaysOpen(monitored: set<uint64>, f: uint64)
    requires f in monitored
    ensures var p := Execution(monitored, [Call(f), Return]);
            && p.Some? && p.value.stack == [] && p.value.recorded == [FuncEnter(f)]
            && Replay([], p.value.recorded) == Some([FuncEnter(f)])
  {
    var one, two := [Call(f)], [Call(f), Return];
    assert one[..|one| - 1] == [] && two[..|two| - 1] == one && one[|one| - 1] == Call(f) && two[|two| - 1] == Return;
    assert Execution(monitored, []) == Some(START);
    assert Execution(monitored, one) == Some(Step(monitored, START, Call(f)));
    assert Step(monitored, START, Call(f)) == Program([f], Gate(false, 1), [FuncEnter(f)], 0);
    assert Execution(monitored, two) == Some(Program([], Gate(true, 0), [FuncEnter(f)], 1));
    assert Replay([FuncEnter(f)], []) == Some([FuncEnter(f)]);
  }
}
