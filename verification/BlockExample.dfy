/** Two small superblocks and the code the pass makes of them. */
module BlockExample {
  import opened Vex
  import opened EventBuffer
  import opened Instrument
  import opened InstrumentPass

  const BASIC := Options(true, {0x1000})

  const MARK := IMark(0x1000, 3)
  const LOAD := WrTmp(0, Load(Const(0x2000), 4))
  const STORE := Store(Const(0x2000), 4, 0)
  const INVERTED := Exit(0x1003, 0)
  const BEYOND := Store(Const(0x3000), 3, 0)

  const FETCHED := Event(EventIr, Const(0x1000), 3)

  lemma CallsAre()
    ensures Helpers([]) == [] && Traces([]) == []
    ensures forall a :: Helpers([a]) == [Helper(a)]
    ensures forall a, b :: Helpers([a, b]) == [Helper(a), Helper(b)]
    ensures forall a, b, c :: Helpers([a, b, c]) == [Helper(a), Helper(b), Helper(c)]
    ensures forall a, b, c, d :: Helpers([a, b, c, d]) == [Helper(a), Helper(b), Helper(c), Helper(d)]
    ensures forall a, b :: Traces([a, b]) == [Trace(a), Trace(b)]
    ensures forall a :: Traces([a]) == [Trace(a)]
  {}

  lemma WrapMark()
    ensures Wrap(BASIC, MARK, [], Instr(0, 0))
            == Around([Count(IRStmts), Count(GuestInstrs), Count(FuncCalls)], [], [FETCHED], Instr(0x1000, 3))
  {
    CallsAre();
    AddOne([], FETCHED);
  }

  lemma WrapLoad()
    ensures Wrap(BASIC, LOAD, [FETCHED], Instr(0x1000, 3))
            == Around([Count(IRStmts), Count(Detail(OpLoad, 4))], [], [FETCHED, Event(EventDr, Const(0x2000), 8)],
                      Instr(0x1000, 3))
  {
    CallsAre();
    AddOne([FETCHED], Event(EventDr, Const(0x2000), 8));
  }

  /** The store makes a modify of the load. */
  lemma WrapStore()
    ensures Wrap(BASIC, STORE, [FETCHED, Event(EventDr, Const(0x2000), 8)], Instr(0x1000, 3))
            == Around([Count(IRStmts), Count(Detail(OpStore, 4))], [], [FETCHED, Event(EventDm, Const(0x2000), 8)],
                      Instr(0x1000, 3))
  {
    CallsAre();
    AddOne([FETCHED, Event(EventDr, Const(0x2000), 8)], Event(EventDw, Const(0x2000), 8));
  }

  /** The exit to the next instruction is an inverted branch, and everything pending is traced before it. */
  lemma WrapExit()
    ensures Wrap(BASIC, INVERTED, [FETCHED, Event(EventDm, Const(0x2000), 8)], Instr(0x1000, 3))
            == Around([Count(IRStmts), Count(IJccs), Trace(FETCHED), Trace(Event(EventDm, Const(0x2000), 8))],
                      [Count(IJccsUntaken)], [], Instr(0x1000, 3))
  {
    CallsAre();
    AddNothing([FETCHED, Event(EventDm, Const(0x2000), 8)]);
    assert [] + [FETCHED, Event(EventDm, Const(0x2000), 8)] == [FETCHED, Event(EventDm, Const(0x2000), 8)];
  }

  lemma WrapBeyond()
    ensures Wrap(BASIC, BEYOND, [], Instr(0x1000, 3))
            == Around([Count(IRStmts), Count(Detail(OpStore, 3))], [], [Event(EventDw, Const(0x3000), 4)],
                      Instr(0x1000, 3))
  {
    CallsAre();
    AddOne([], Event(EventDw, Const(0x3000), 4));
  }

  const BLOCK: seq<Stmt> := [Other(7), MARK, LOAD, STORE, INVERTED, BEYOND]

  const MODIFIED := Event(EventDm, Const(0x2000), 8)
  const WRITTEN := Event(EventDw, Const(0x3000), 4)
  const AT := Instr(0x1000, 3)

  const MARK_CODE := [Helper(Count(IRStmts)), Helper(Count(GuestInstrs)), Helper(Count(FuncCalls)), Guest(MARK)]
  const LOAD_CODE := [Helper(Count(IRStmts)), Helper(Count(Detail(OpLoad, 4))), Guest(LOAD)]
  const STORE_CODE := [Helper(Count(IRStmts)), Helper(Count(Detail(OpStore, 4))), Guest(STORE)]
  const EXIT_CODE := [Helper(Count(IRStmts)), Helper(Count(IJccs)), Helper(Trace(FETCHED)), Helper(Trace(MODIFIED)),
                      Guest(INVERTED), Helper(Count(IJccsUntaken))]
  const BEYOND_CODE := [Helper(Count(IRStmts)), Helper(Count(Detail(OpStore, 3))), Guest(BEYOND)]
  const END_CODE := [Helper(Count(SBsCompleted)), Helper(Trace(WRITTEN))]

  lemma BodyOf(s: Stmt, rest: seq<Stmt>, pending: seq<Event>, at: Instr, a: Around, code: seq<OutStmt>)
    requires |pending| <= N_EVENTS && !Skipped(s) && a == Wrap(BASIC, s, pending, at)
    requires code == Helpers(a.before) + [Guest(s)] + Helpers(a.after)
    ensures Body(BASIC, [s] + rest, pending, at) == code + Body(BASIC, rest, a.pending, a.at)
  {
    assert ([s] + rest)[1..] == rest;
  }

  lemma EndOfBlock()
    ensures Body(BASIC, [], [WRITTEN], AT) == END_CODE
  {
    CallsAre();
    assert [Count(SBsCompleted)] + [Trace(WRITTEN)] == [Count(SBsCompleted), Trace(WRITTEN)];
  }

  lemma BeyondOfBlock()
    ensures Body(BASIC, [BEYOND], [], AT) == BEYOND_CODE + END_CODE
  {
    EndOfBlock();
    WrapBeyond();
    CallsAre();
    hide Wrap;
    BodyOf(BEYOND, [], [], AT, Wrap(BASIC, BEYOND, [], AT), BEYOND_CODE);
    assert [BEYOND] + [] == [BEYOND];
  }

  lemma ExitOfBlock()
    ensures Body(BASIC, [INVERTED, BEYOND], [FETCHED, MODIFIED], AT) == EXIT_CODE + (BEYOND_CODE + END_CODE)
  {
    BeyondOfBlock();
    WrapExit();
    CallsAre();
    hide Wrap;
    BodyOf(INVERTED, [BEYOND], [FETCHED, MODIFIED], AT, Wrap(BASIC, INVERTED, [FETCHED, MODIFIED], AT), EXIT_CODE);
    assert [INVERTED] + [BEYOND] == [INVERTED, BEYOND];
  }

  lemma StoreOfBlock()
    ensures Body(BASIC, [STORE, INVERTED, BEYOND], [FETCHED, Event(EventDr, Const(0x2000), 8)], AT)
            == STORE_CODE + (EXIT_CODE + (BEYOND_CODE + END_CODE))
  {
    ExitOfBlock();
    WrapStore();
    CallsAre();
    hide Wrap;
    var pending := [FETCHED, Event(EventDr, Const(0x2000), 8)];
    BodyOf(STORE, [INVERTED, BEYOND], pending, AT, Wrap(BASIC, STORE, pending, AT), STORE_CODE);
    assert [STORE] + [INVERTED, BEYOND] == [STORE, INVERTED, BEYOND];
  }

  lemma LoadOfBlock()
    ensures Body(BASIC, [LOAD, STORE, INVERTED, BEYOND], [FETCHED], AT)
            == LOAD_CODE + (STORE_CODE + (EXIT_CODE + (BEYOND_CODE + END_CODE)))
  {
    StoreOfBlock();
    WrapLoad();
    CallsAre();
    hide Wrap;
    BodyOf(LOAD, [STORE, INVERTED, BEYOND], [FETCHED], AT, Wrap(BASIC, LOAD, [FETCHED], AT), LOAD_CODE);
    assert [LOAD] + [STORE, INVERTED, BEYOND] == [LOAD, STORE, INVERTED, BEYOND];
  }

  lemma MarkOfBlock()
    ensures Body(BASIC, [MARK, LOAD, STORE, INVERTED, BEYOND], [], Instr(0, 0))
            == MARK_CODE + (LOAD_CODE + (STORE_CODE + (EXIT_CODE + (BEYOND_CODE + END_CODE))))
  {
    LoadOfBlock();
    WrapMark();
    CallsAre();
    hide Wrap;
    BodyOf(MARK, [LOAD, STORE, INVERTED, BEYOND], [], Instr(0, 0), Wrap(BASIC, MARK, [], Instr(0, 0)), MARK_CODE);
    assert [MARK] + [LOAD, STORE, INVERTED, BEYOND] == [MARK, LOAD, STORE, INVERTED, BEYOND];
  }

  /** The preamble, then counts, traces and statements in the order the pass puts them. */
  lemma CodeOfBlock()
    ensures Instrumented(BASIC, BLOCK)
            == [Guest(Other(7)), Helper(Count(SBsEntered)), Helper(TraceSuperblock)]
               + (MARK_CODE + (LOAD_CODE + (STORE_CODE + (EXIT_CODE + (BEYOND_CODE + END_CODE)))))
  {
    MarkOfBlock();
    CallsAre();
    hide Body;
    assert PreambleLength(BLOCK) == 1 && BLOCK[1..] == [MARK, LOAD, STORE, INVERTED, BEYOND];
    assert Verbatim(BLOCK[..1]) == [Guest(Other(7))];
    assert [Count(SBsEntered)] + [TraceSuperblock] == [Count(SBsEntered), TraceSuperblock];
  }

  /** A conditional store behind its load is not merged with it: the load is traced at once. */
  lemma LinkedStaysApart(addr: Atom, ty: TypeIndex, t: nat, u: nat, rest: nat, at: Instr)
    ensures var load := Wrap(BASIC, LL(addr, ty, t, rest), [], at);
            && load.before == [Count(IRStmts), Trace(Event(EventDr, addr, SizeOf(ty))), Count(Detail(OpLoad, ty))]
            && load.pending == []
            && Wrap(BASIC, SC(addr, ty, u, rest), load.pending, at).pending == [Event(EventDw, addr, SizeOf(ty))]
  {
    CallsAre();
    AddOne([], Event(EventDr, addr, SizeOf(ty)));
    AddOne([], Event(EventDw, addr, SizeOf(ty)));
  }
}
