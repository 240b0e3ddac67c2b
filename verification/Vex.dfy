/** Superblocks of flat VEX statements, and what running them means on any machine. */
module Vex {
  import opened Wrappers
  import opened Bytes

  /** A constant or a temporary: the only operands of flat code. */
  datatype Atom = Const(value: uint64) | Tmp(t: nat)

  /** An index into the table of types. */
  type TypeIndex = x: int | 0 <= x < 11

  /** The right-hand side of an assignment; `rest` stands for what the tool does not look at. */
  datatype Expr = Load(addr: Atom, ty: TypeIndex) | Alu(ty: TypeIndex, rest: nat) | Plain(rest: nat)

  datatype Effect = NoEffect | Reads | Writes | Modifies

  datatype Stmt =
    | Null
    | NoOp
    | Other(rest: nat)                                       // AbiHint, Put, PutI and MBE
    | IMark(iaddr: uint64, len: nat)
    | WrTmp(tmp: nat, data: Expr)
    | Store(addr: Atom, ty: TypeIndex, rest: nat)
    | Dirty(fx: Effect, addr: Atom, size: nat, tmps: set<nat>, rest: nat)
    | CAS(addr: Atom, ty: TypeIndex, double: bool, tmps: set<nat>, rest: nat)
    | LL(addr: Atom, ty: TypeIndex, tmp: nat, rest: nat)
    | SC(addr: Atom, ty: TypeIndex, tmp: nat, rest: nat)
    | Exit(dst: uint64, rest: nat)

  /** `sizeofIRType`. */
  function SizeOf(ty: TypeIndex): nat {
    [1, 1, 2, 4, 8, 16, 4, 8, 16, 16, 32][ty]
  }

  /** The temporaries a statement assigns. */
  function Defines(s: Stmt): set<nat> {
    match s
    case WrTmp(tmp, _) => {tmp}
    case Dirty(_, _, _, tmps, _) => tmps
    case CAS(_, _, _, tmps, _) => tmps
    case LL(_, _, tmp, _) => {tmp}
    case SC(_, _, tmp, _) => {tmp}
    case _ => {}
  }

  // ---------- machines ----------

  /** The guest's registers and memory, whatever they are, and the temporaries. */
  datatype World<G> = World(guest: G, temps: map<nat, uint64>)

  /** What each statement does, and whether an exit is taken. */
  datatype Machine<!G(!new)> = Machine(exec: (Stmt, World<G>) -> World<G>, taken: (Stmt, World<G>) -> bool)

  function Eval<G>(a: Atom, w: World<G>): uint64 {
    match a case Const(value) => value case Tmp(t) => if t in w.temps then w.temps[t] else 0
  }

  /** A statement changes no temporaries but those it assigns. */
  ghost predicate IsMachine<G(!new)>(m: Machine<G>) {
    forall s: Stmt, w: World<G>, t: nat {:trigger m.exec(s, w), Tmp(t)} ::
      t !in Defines(s) ==> Eval(Tmp(t), m.exec(s, w)) == Eval(Tmp(t), w)
  }

  /** Where a run ends: after the last statement, or at an exit that is taken. `steps` counts statements run. */
  datatype Ending<G> = Ending(world: World<G>, exit: Option<Stmt>, steps: nat)

  function Run<G(!new)>(m: Machine<G>, stmts: seq<Stmt>, w: World<G>, steps: nat): Ending<G>
    decreases |stmts|
  {
    if stmts == [] then Ending(w, None, steps)
    else if stmts[0].Null? || stmts[0].NoOp? then Run(m, stmts[1..], w, steps)
    else if stmts[0].Exit? && m.taken(stmts[0], w) then Ending(w, Some(stmts[0]), steps + 1)
    else Run(m, stmts[1..], m.exec(stmts[0], w), steps + 1)
  }

  // ---------- memory events ----------

  datatype EventKind = EventIr | EventDr | EventDw | EventDm

  /** An access whose address is still an operand. */
  datatype Event = Event(kind: EventKind, addr: Atom, size: nat)

  /** An access as the trace records it. */
  datatype Access = Access(kind: EventKind, addr: uint64, size: nat)

  /** The accesses a statement declares, in order. */
  function EventsOf(s: Stmt): seq<Event> {
    match s
    case IMark(addr, len) => [Event(EventIr, Const(addr), len)]
    case WrTmp(_, Load(addr, ty)) => [Event(EventDr, addr, SizeOf(ty))]
    case Store(addr, ty, _) => [Event(EventDw, addr, SizeOf(ty))]
    case Dirty(fx, addr, size, _, _) =>
      (if fx.Reads? || fx.Modifies? then [Event(EventDr, addr, size)] else []) +
      (if fx.Writes? || fx.Modifies? then [Event(EventDw, addr, size)] else [])
    case CAS(addr, ty, double, _, _) =>
      var size := if double then 2 * SizeOf(ty) else SizeOf(ty);
      [Event(EventDr, addr, size), Event(EventDw, addr, size)]
    case LL(addr, ty, _, _) => [Event(EventDr, addr, SizeOf(ty))]
    case SC(addr, ty, _, _) => [Event(EventDw, addr, SizeOf(ty))]
    case _ => []
  }

  lemma DirtyEvents(s: Stmt)
    requires s.Dirty?
    ensures EventsOf(s) == match s.fx
                           case NoEffect => []
                           case Reads => [Event(EventDr, s.addr, s.size)]
                           case Writes => [Event(EventDw, s.addr, s.size)]
                           case Modifies => [Event(EventDr, s.addr, s.size), Event(EventDw, s.addr, s.size)]
  {}

  /** Statements before which all events are flushed: exits and load-linked. */
  predicate IsBarrier(s: Stmt) { s.Exit? || s.LL? }

  /** Whether the temporaries in an operand are among `defined`. */
  predicate Known(a: Atom, defined: set<nat>) { a.Const? || a.t in defined }

  /** Flat code in single-assignment form: operands are assigned before they are used and never again. */
  ghost predicate Ssa(stmts: seq<Stmt>, defined: set<nat>)
    decreases |stmts|
  {
    stmts == [] ||
    (&& (forall e <- EventsOf(stmts[0]) :: Known(e.addr, defined))
     && Defines(stmts[0]) !! defined
     && Ssa(stmts[1..], defined + Defines(stmts[0])))
  }
}
