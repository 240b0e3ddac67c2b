/** The four-slot buffer of memory events, against an unbounded list that merges as it grows. */
module EventBuffer {
  import opened Vex

  const N_EVENTS := 4

  // ---------- the unbounded list ----------

  /** Whether a write that follows `last` is the other half of a modify. */
  predicate Merges(last: Event, ev: Event) {
    ev.kind.EventDw? && last.kind.EventDr? && last.size == ev.size && last.addr == ev.addr
  }

  /** Adds an event to a list of any length. */
  function Merge(list: seq<Event>, ev: Event): (r: seq<Event>)
    ensures r != []
  {
    if list != [] && Merges(list[|list| - 1], ev)
    then list[..|list| - 1] + [list[|list| - 1].(kind := EventDm)]
    else list + [ev]
  }

  function MergeAll(list: seq<Event>, evs: seq<Event>): seq<Event>
    decreases |evs|
  {
    if evs == [] then list else MergeAll(Merge(list, evs[0]), evs[1..])
  }

  // ---------- the buffer ----------

  /** What adding an event emits, and what stays buffered. */
  datatype Buffered = Buffered(emitted: seq<Event>, pending: seq<Event>)

  /** `addEvent_Ir`, `addEvent_Dr` and `addEvent_Dw`: merge, or flush a full buffer and append. */
  function Add(pending: seq<Event>, ev: Event): (r: Buffered)
    requires |pending| <= N_EVENTS
    ensures 0 < |r.pending| <= N_EVENTS
  {
    if pending != [] && Merges(pending[|pending| - 1], ev) then Buffered([], Merge(pending, ev))
    else if |pending| == N_EVENTS then Buffered(pending, [ev])
    else Buffered([], pending + [ev])
  }

  function AddAll(pending: seq<Event>, evs: seq<Event>): (r: Buffered)
    requires |pending| <= N_EVENTS
    ensures |r.pending| <= N_EVENTS
    decreases |evs|
  {
    if evs == [] then Buffered([], pending) else
    var first := Add(pending, evs[0]);
    var rest := AddAll(first.pending, evs[1..]);
    Buffered(first.emitted + rest.emitted, rest.pending)
  }

  /** Only the end of a list matters to what is added next. */
  lemma {:induction false} MergeTail(a: seq<Event>, b: seq<Event>, ev: Event)
    requires b != [] || a == []
    ensures Merge(a + b, ev) == a + Merge(b, ev)
  {
    if a + b != [] {
      assert (a + b)[|a + b| - 1] == b[|b| - 1];
    }
  }

  lemma {:induction false} MergeAllTail(a: seq<Event>, b: seq<Event>, evs: seq<Event>)
    requires b != [] || a == []
    ensures MergeAll(a + b, evs) == a + MergeAll(b, evs)
    decreases |evs|
  {
    if evs != [] {
      MergeTail(a, b, evs[0]);
      MergeAllTail(a, Merge(b, evs[0]), evs[1..]);
    }
  }

  lemma {:induction false} AddRefines(pending: seq<Event>, ev: Event)
    requires |pending| <= N_EVENTS
    ensures var r := Add(pending, ev); r.emitted + r.pending == Merge(pending, ev)
  {}

  /** Wherever the full buffer happens to be flushed, what it emits and keeps is what the unbounded list holds. */
  lemma {:induction false} AddAllRefines(pending: seq<Event>, evs: seq<Event>)
    requires |pending| <= N_EVENTS
    ensures var r := AddAll(pending, evs);
            && r.emitted + r.pending == MergeAll(pending, evs)
            && (r.pending == [] <==> pending == [] && evs == [])
    decreases |evs|
  {
    hide Merge;
    if evs != [] {
      var first := Add(pending, evs[0]);
      AddRefines(pending, evs[0]);
      AddAllRefines(first.pending, evs[1..]);
      var rest := AddAll(first.pending, evs[1..]);
      MergeAllTail(first.emitted, first.pending, evs[1..]);
      hide Add;
      assert first.emitted + rest.emitted + rest.pending == first.emitted + (rest.emitted + rest.pending);
    }
  }

  /** A read and a write of the same place, added together, always become one modify. */
  lemma {:induction false} ReadThenWrite(list: seq<Event>, addr: Atom, size: nat)
    ensures MergeAll(list, [Event(EventDr, addr, size), Event(EventDw, addr, size)])
            == list + [Event(EventDm, addr, size)]
  {
    var read, write := Event(EventDr, addr, size), Event(EventDw, addr, size);
    assert Merge(list, read) == list + [read];
    assert (list + [read])[..|list|] == list;
    assert Merge(list + [read], write) == list + [Event(EventDm, addr, size)];
    hide Merge;
    assert [read, write][1..] == [write];
    MergeAllOne(Merge(list, read), write);
  }

  /** So a compare-and-swap, doubleword or not, and a helper that modifies, are one modify whatever is pending. */
  lemma SwapsAreModifies(list: seq<Event>, s: Stmt)
    requires s.CAS? || (s.Dirty? && s.fx.Modifies?)
    ensures MergeAll(list, EventsOf(s))
            == list + [Event(EventDm, s.addr, if s.Dirty? then s.size else if s.double then 2 * SizeOf(s.ty) else SizeOf(s.ty))]
  {
    hide MergeAll;
    if s.Dirty? {
      DirtyEvents(s);
      ReadThenWrite(list, s.addr, s.size);
    } else {
      ReadThenWrite(list, s.addr, if s.double then 2 * SizeOf(s.ty) else SizeOf(s.ty));
    }
  }

  lemma {:induction false} MergeAllOne(list: seq<Event>, ev: Event)
    ensures MergeAll(list, [ev]) == Merge(list, ev)
  {
    assert [ev][1..] == [];
  }

  // ---------- sequences of additions and flushes ----------

  /** What happens to the list during instrumentation. */
  datatype Op = AddOp(ev: Event) | FlushOp

  /** Every event the buffer emits for `ops`, including what is left at the end. */
  function EmittedBounded(pending: seq<Event>, ops: seq<Op>): seq<Event>
    requires |pending| <= N_EVENTS
    decreases |ops|
  {
    if ops == [] then pending else
    match ops[0]
    case AddOp(ev) => var r := Add(pending, ev); r.emitted + EmittedBounded(r.pending, ops[1..])
    case FlushOp => pending + EmittedBounded([], ops[1..])
  }

  /** The same with a list that has no bound and starts anew only at flushes. */
  function EmittedUnbounded(list: seq<Event>, ops: seq<Op>): seq<Event>
    decreases |ops|
  {
    if ops == [] then list else
    match ops[0]
    case AddOp(ev) => EmittedUnbounded(Merge(list, ev), ops[1..])
    case FlushOp => list + EmittedUnbounded([], ops[1..])
  }

  lemma {:induction false} UnboundedTail(a: seq<Event>, b: seq<Event>, ops: seq<Op>)
    requires b != [] || a == []
    ensures EmittedUnbounded(a + b, ops) == a + EmittedUnbounded(b, ops)
    decreases |ops|
  {
    if ops != [] {
      match ops[0]
      case AddOp(ev) =>
        MergeTail(a, b, ev);
        UnboundedTail(a, Merge(b, ev), ops[1..]);
      case FlushOp =>
        assert a + b + EmittedUnbounded([], ops[1..]) == a + (b + EmittedUnbounded([], ops[1..]));
    }
  }

  /** Four slots are enough: the same calls in the same order, for every sequence of additions and flushes. */
  lemma {:induction false} BoundedIsUnbounded(pending: seq<Event>, ops: seq<Op>)
    requires |pending| <= N_EVENTS
    ensures EmittedBounded(pending, ops) == EmittedUnbounded(pending, ops)
    decreases |ops|
  {
    if ops != [] {
      match ops[0]
      case AddOp(ev) =>
        var r := Add(pending, ev);
        AddRefines(pending, ev);
        BoundedIsUnbounded(r.pending, ops[1..]);
        UnboundedTail(r.emitted, r.pending, ops[1..]);
      case FlushOp =>
        BoundedIsUnbounded([], ops[1..]);
    }
  }
}
