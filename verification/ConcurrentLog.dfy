/** The run-time library's log: threads that fill buffers of their own and append frames to one file under a lock. */
module ConcurrentLog {
  import opened Wrappers
  import opened Bytes
  import opened Lz4Format
  import opened Lz4Compress
  import opened TraceFormat

  /** The bytes of one `MemAccess`. */
  type Record = r: seq<byte> | |r| == 56 witness seq(56, _ => 0)

  type Thread = nat

  /** Where a thread stands in `__mema_empty_buffer`; outside of it, it is recording. */
  datatype Stage =
    | Recording
    | Ready(payload: seq<byte>)           // compressed, waiting for the lock
    | Locked(payload: seq<byte>)
    | LengthWritten(payload: seq<byte>)
    | PayloadWritten(payload: seq<byte>)  // still holding the lock
    | Released                            // buffer about to be reset

  /** A thread's buffer, its stage, and every record it has been given. */
  datatype Local = Local(buffer: seq<Record>, stage: Stage, given: seq<Record>)

  /** A frame that is wholly written, with its owner and the records it stands for. */
  datatype Frame = Frame(owner: Thread, records: seq<Record>, payload: seq<byte>)

  /** The file, the lock, the totals of bytes written and of bytes that they stand for, and the threads. */
  datatype State = State(file: seq<byte>, holder: Option<Thread>, total: nat, plain: nat, locals: map<Thread, Local>,
                         frames: seq<Frame>)

  /** The settings of a process: whether it compresses, and what the file starts with. */
  datatype Config = Config(compression: bool, header: seq<byte>)

  /** What a flush writes for some data. */
  ghost predicate PayloadFor(c: Config, data: seq<byte>, payload: seq<byte>) {
    if c.compression then Packed(data, payload) else payload == data
  }

  function Data(records: seq<Record>): (bytes: seq<byte>)
    ensures |bytes| == 56 * |records|
  {
    if records == [] then [] else records[0] + Data(records[1..])
  }

  // ---------- steps ----------

  datatype Step =
    | SetUp(t: Thread)
    | Access(t: Thread, r: Record)
    | Prepare(t: Thread, payload: seq<byte>)
    | Acquire(t: Thread)
    | WriteLength(t: Thread)
    | WritePayload(t: Thread)
    | Release(t: Thread)
    | Reset(t: Thread)

  function Become(s: State, t: Thread, l: Local): State {
    s.(locals := s.locals[t := l])
  }

  /** The step may happen: the thread has been set up, unless it is being set up, and stands at the right stage. A
      full buffer is flushed before anything else is recorded; any buffer may be flushed, as at the end of a thread. */
  ghost predicate Enabled(c: Config, s: State, step: Step) {
    if step.SetUp? then step.t !in s.locals else
    && step.t in s.locals
    && var l := s.locals[step.t];
       match step
       case Access(_, _) => l.stage.Recording? && |l.buffer| < CAPACITY - 1
       case Prepare(_, payload) => l.stage.Recording? && PayloadFor(c, Data(l.buffer), payload)
       case Acquire(_) => l.stage.Ready? && s.holder.None?
       case WriteLength(_) => l.stage.Locked?
       case WritePayload(_) => l.stage.LengthWritten?
       case Release(_) => l.stage.PayloadWritten?
       case Reset(_) => l.stage.Released?
  }

  ghost function Next(c: Config, s: State, step: Step): State
    requires Enabled(c, s, step)
  {
    if step.SetUp? then Become(s, step.t, Local([], Recording, [])) else
    var t, l := step.t, s.locals[step.t];
    match step
    case Access(_, r) => Become(s, t, l.(buffer := l.buffer + [r], given := l.given + [r]))
    case Prepare(_, payload) => Become(s, t, l.(stage := Ready(payload)))
    case Acquire(_) => Become(s, t, l.(stage := Locked(l.stage.payload))).(holder := Some(t))
    case WriteLength(_) =>
      Become(s, t, l.(stage := LengthWritten(l.stage.payload))).(file := s.file + LittleEndian(|l.stage.payload|, 8))
    case WritePayload(_) =>
      Become(s, t, l.(stage := PayloadWritten(l.stage.payload)))
        .(file := s.file + l.stage.payload, frames := s.frames + [Frame(t, l.buffer, l.stage.payload)])
    case Release(_) =>
      Become(s, t, l.(stage := Released))
        .(holder := None, total := if c.compression then s.total + 8 + |l.stage.payload| else s.total,
          plain := if c.compression then s.plain + 8 + |Data(l.buffer)| else s.plain)
    case Reset(_) => Become(s, t, l.(buffer := [], stage := Recording))
  }

  /** After the header has been written, before any thread is set up. */
  function Start(c: Config): State {
    State(c.header, None, |c.header|, |c.header|, map[], [])
  }

  /** The state after a schedule of steps, if every one of them can happen. */
  ghost predicate Leads(c: Config, s: State, steps: seq<Step>, last: State)
    decreases |steps|
  {
    if steps == [] then s == last
    else Enabled(c, s, steps[0]) && Leads(c, Next(c, s, steps[0]), steps[1..], last)
  }

  // ---------- what every schedule keeps ----------

  function Payloads(frames: seq<Frame>): (r: seq<seq<byte>>)
    ensures |r| == |frames|
  {
    seq(|frames|, i requires 0 <= i < |frames| => frames[i].payload)
  }

  /** The records of one thread's frames, in file order. */
  function Written(frames: seq<Frame>, t: Thread): seq<Record> {
    if frames == [] then [] else
    var last := frames[|frames| - 1];
    Written(frames[..|frames| - 1], t) + (if last.owner == t then last.records else [])
  }

  /** What the holder of the lock has written of its frame so far. */
  function Partial(s: State): seq<byte> {
    if s.holder.Some? && s.holder.value in s.locals && s.locals[s.holder.value].stage.LengthWritten?
    then LittleEndian(|s.locals[s.holder.value].stage.payload|, 8) else []
  }

  predicate Holds(stage: Stage) { stage.Locked? || stage.LengthWritten? || stage.PayloadWritten? }

  /** A thread's own buffer and frames account for all its records. */
  ghost predicate Accounted(c: Config, s: State, t: Thread)
    requires t in s.locals
  {
    var l := s.locals[t];
    && |l.buffer| <= CAPACITY - 1
    && (Holds(l.stage) <==> s.holder == Some(t))
    && (l.stage.Ready? || Holds(l.stage) ==> PayloadFor(c, Data(l.buffer), l.stage.payload))
    && l.given == Written(s.frames, t) + (if l.stage.PayloadWritten? || l.stage.Released? then [] else l.buffer)
  }

  ghost predicate FramesFit(c: Config, frames: seq<Frame>) {
    forall f <- frames :: PayloadFor(c, Data(f.records), f.payload) && |f.records| <= CAPACITY - 1
  }

  /** The bytes the running total still lacks: the frame of a holder that has not let go yet. */
  function Uncounted(s: State): nat {
    if s.holder.Some? && s.holder.value in s.locals && s.locals[s.holder.value].stage.PayloadWritten?
    then 8 + |s.locals[s.holder.value].stage.payload| else 0
  }

  function UncountedPlain(s: State): nat {
    if s.holder.Some? && s.holder.value in s.locals && s.locals[s.holder.value].stage.PayloadWritten?
    then 8 + 56 * |s.locals[s.holder.value].buffer| else 0
  }

  /** The bytes that frames stand for: their length fields and records. */
  function PlainBytes(frames: seq<Frame>): nat {
    if frames == [] then 0 else
    PlainBytes(frames[..|frames| - 1]) + 8 + 56 * |frames[|frames| - 1].records|
  }

  /** The file is the header, whole frames, and at most the start of the holder's frame. */
  ghost predicate FileInv(c: Config, s: State) {
    && s.file == c.header + FramesBytes(Payloads(s.frames)) + Partial(s)
    && FramesFit(c, s.frames)
    && (s.holder.Some? ==> s.holder.value in s.locals)
    && (forall f <- s.frames :: f.owner in s.locals)
  }

  /** The totals count every frame but one whose writer still holds the lock. */
  ghost predicate TotalsInv(c: Config, s: State) {
    c.compression ==>
      && s.total + Uncounted(s) == |c.header| + |FramesBytes(Payloads(s.frames))|
      && s.plain + UncountedPlain(s) == |c.header| + PlainBytes(s.frames)
  }

  ghost predicate Inv(c: Config, s: State) {
    && FileInv(c, s)
    && TotalsInv(c, s)
    && forall t <- s.locals :: Accounted(c, s, t)
  }

  lemma InvStart(c: Config)
    ensures Inv(c, Start(c))
  {
    assert c.header + FramesBytes([]) + [] == c.header;
  }

  lemma {:induction false} PayloadsAppend(frames: seq<Frame>, f: Frame)
    ensures FramesBytes(Payloads(frames + [f])) == FramesBytes(Payloads(frames)) + FrameBytes(f.payload)
  {
    assert Payloads(frames + [f]) == Payloads(frames) + [f.payload];
    FramesBytesAppend(Payloads(frames), f.payload);
  }

  lemma {:induction false} WrittenAppend(frames: seq<Frame>, f: Frame, t: Thread)
    ensures Written(frames + [f], t) == Written(frames, t) + (if f.owner == t then f.records else [])
  {
    assert (frames + [f])[..|frames|] == frames;
  }

  lemma {:induction false} NothingWritten(frames: seq<Frame>, t: Thread)
    requires forall f <- frames :: f.owner != t
    ensures Written(frames, t) == []
  {
    if frames != [] {
      NothingWritten(frames[..|frames| - 1], t);
    }
  }

  lemma {:induction false} PlainAppend(frames: seq<Frame>, f: Frame)
    ensures PlainBytes(frames + [f]) == PlainBytes(frames) + 8 + 56 * |f.records|
  {
    assert (frames + [f])[..|frames|] == frames;
  }

  lemma {:induction false} TotalsStep(c: Config, s: State, step: Step)
    requires Inv(c, s) && Enabled(c, s, step)
    ensures TotalsInv(c, Next(c, s, step))
  {
    hide FramesBytes;
    hide PlainBytes;
    hide LittleEndian;
    hide PayloadFor;
    hide Written;
    hide Payloads;
    if !step.SetUp? {
      var l := s.locals[step.t];
      assert Accounted(c, s, step.t);
      assert s.holder.Some? ==> Accounted(c, s, s.holder.value);
      if step.WritePayload? {
        var f := Frame(step.t, l.buffer, l.stage.payload);
        PayloadsAppend(s.frames, f);
        PlainAppend(s.frames, f);
      }
    }
  }

  lemma {:induction false} FileStep(c: Config, s: State, step: Step)
    requires Inv(c, s) && Enabled(c, s, step)
    ensures FileInv(c, Next(c, s, step))
  {
    hide FramesBytes;
    hide LittleEndian;
    hide PayloadFor;
    hide Written;
    hide TotalsInv;
    var next := Next(c, s, step);
    if step.SetUp? {
    } else {
      var l := s.locals[step.t];
      assert Accounted(c, s, step.t);
      assert s.holder.Some? ==> Accounted(c, s, s.holder.value);
      if step.WritePayload? {
        var f := Frame(step.t, l.buffer, l.stage.payload);
        PayloadsAppend(s.frames, f);
        var head, body := c.header, FramesBytes(Payloads(s.frames));
        assert head + body + LittleEndian(|l.stage.payload|, 8) + l.stage.payload
               == head + (body + FrameBytes(l.stage.payload)) + [];
      } else if step.WriteLength? {
        assert s.file == c.header + FramesBytes(Payloads(s.frames));
      }
    }
  }

  lemma {:induction false} ThreadStep(c: Config, s: State, step: Step, t: Thread)
    requires Inv(c, s) && Enabled(c, s, step) && t in Next(c, s, step).locals
    ensures Accounted(c, Next(c, s, step), t)
  {
    hide PayloadFor;
    hide FileInv;
    hide TotalsInv;
    hide Written;
    hide FramesBytes;
    if t !in s.locals {
      OwnersKnown(c, s);
      NothingWritten(s.frames, t);
      assert Written(s.frames, t) + [] == [];
    } else if step.SetUp? {
      assert Accounted(c, s, t);
    } else {
      assert Accounted(c, s, t) && Accounted(c, s, step.t);
      if step.WritePayload? {
        var l := s.locals[step.t];
        WrittenAppend(s.frames, Frame(step.t, l.buffer, l.stage.payload), t);
      }
    }
  }

  lemma OwnersKnown(c: Config, s: State)
    requires FileInv(c, s)
    ensures forall f <- s.frames :: f.owner in s.locals
    ensures s.holder.Some? ==> s.holder.value in s.locals
  {}

  /** Every step of every thread keeps the invariant. */
  lemma {:induction false} InvStep(c: Config, s: State, step: Step)
    requires Inv(c, s) && Enabled(c, s, step)
    ensures Inv(c, Next(c, s, step))
  {
    hide FileInv;
    hide TotalsInv;
    hide Accounted;
    FileStep(c, s, step);
    TotalsStep(c, s, step);
    forall t | t in Next(c, s, step).locals
      ensures Accounted(c, Next(c, s, step), t)
    {
      ThreadStep(c, s, step, t);
    }
  }

  /** So it holds after every schedule. */
  lemma {:induction false} InvAlways(c: Config, s: State, steps: seq<Step>, last: State)
    requires Inv(c, s) && Leads(c, s, steps, last)
    ensures Inv(c, last)
    decreases |steps|
  {
    hide Inv;
    hide Enabled;
    hide Next;
    if steps != [] {
      InvStep(c, s, steps[0]);
      InvAlways(c, Next(c, s, steps[0]), steps[1..], last);
    }
  }

  // ---------- reading the file back ----------

  /** The data of a payload: unpacked, or as it stands. */
  function DataOf(c: Config, payload: seq<byte>, room: nat): Option<seq<byte>> {
    if c.compression then Unpack(payload, room) else Some(payload)
  }

  /** Cuts data into records. */
  function RecordsIn(data: seq<byte>): Option<seq<Record>> {
    if data == [] then Some([]) else if |data| < 56 then None else
    var rest := RecordsIn(data[56..]);
    if rest.None? then None else Some([data[..56]] + rest.value)
  }

  lemma {:induction false} RecordsInData(records: seq<Record>)
    ensures RecordsIn(Data(records)) == Some(records)
  {
    if records != [] {
      RecordsInData(records[1..]);
      assert Data(records)[..56] == records[0] && Data(records)[56..] == Data(records[1..]);
      assert [records[0]] + records[1..] == records;
    }
  }

  /** The records of one thread, decoded from the payloads that are its own. */
  function DecodeOwn(c: Config, payloads: seq<seq<byte>>, owners: seq<Thread>, t: Thread, room: nat): Option<seq<Record>>
    requires |payloads| == |owners|
  {
    if payloads == [] then Some([]) else
    var n := |payloads| - 1;
    var before := DecodeOwn(c, payloads[..n], owners[..n], t, room);
    if before.None? || owners[n] != t then before else
    var data := DataOf(c, payloads[n], room);
    var records := if data.None? then None else RecordsIn(data.value);
    if records.None? then None else Some(before.value + records.value)
  }

  function Owners(frames: seq<Frame>): (r: seq<Thread>)
    ensures |r| == |frames|
  {
    seq(|frames|, i requires 0 <= i < |frames| => frames[i].owner)
  }

  lemma PayloadDecodes(c: Config, records: seq<Record>, payload: seq<byte>, room: nat)
    requires PayloadFor(c, Data(records), payload) && |records| <= CAPACITY - 1 && CompressBound(MAX_DATA) <= room
    ensures DataOf(c, payload, room) == Some(Data(records)) && RecordsIn(Data(records)) == Some(records)
    ensures |payload| <= CompressBound(CompressBound(MAX_DATA))
  {
    hide Unpack;
    hide Data;
    hide RecordsIn;
    hide Packed;
    RecordsInData(records);
    var n := |Data(records)|;
    BoundGrows(n, MAX_DATA);
    BoundGrows(CompressBound(n), CompressBound(MAX_DATA));
    assert n <= CompressBound(CompressBound(n));
    hide CompressBound;
    if c.compression { UnpackPacked(Data(records), payload, room); }
  }

  lemma {:induction false} DecodeLast(c: Config, frames: seq<Frame>, t: Thread, room: nat)
    requires frames != []
    ensures var n := |frames| - 1;
            var before := DecodeOwn(c, Payloads(frames[..n]), Owners(frames[..n]), t, room);
            var data := DataOf(c, frames[n].payload, room);
            var records := if data.None? then None else RecordsIn(data.value);
            DecodeOwn(c, Payloads(frames), Owners(frames), t, room)
            == if before.None? || frames[n].owner != t then before
               else if records.None? then None else Some(before.value + records.value)
    ensures Payloads(frames) == Payloads(frames[..|frames| - 1]) + [frames[|frames| - 1].payload]
  {
    hide DataOf;
    hide RecordsIn;
    var n := |frames| - 1;
    assert Payloads(frames)[..n] == Payloads(frames[..n]) && Owners(frames)[..n] == Owners(frames[..n]);
  }

  lemma {:induction false} OwnFramesDecode(c: Config, frames: seq<Frame>, t: Thread, room: nat)
    requires FramesFit(c, frames) && CompressBound(MAX_DATA) <= room
    ensures DecodeOwn(c, Payloads(frames), Owners(frames), t, room) == Some(Written(frames, t))
    ensures forall p <- Payloads(frames) :: |p| <= CompressBound(CompressBound(MAX_DATA))
  {
    hide DataOf;
    hide RecordsIn;
    hide PayloadFor;
    hide CompressBound;
    hide Payloads;
    hide Owners;
    if frames != [] {
      var n := |frames| - 1;
      hide DecodeOwn;
      assert frames[n] in frames;
      PayloadDecodes(c, frames[n].records, frames[n].payload, room);
      OwnFramesDecode(c, frames[..n], t, room);
      DecodeLast(c, frames, t, room);
      assert Written(frames[..n], t) + [] == Written(frames[..n], t);
    }
  }

  /** The records a thread makes in a schedule, in order. */
  function AccessedBy(steps: seq<Step>, t: Thread): seq<Record>
    decreases |steps|
  {
    if steps == [] then []
    else (if steps[0].Access? && steps[0].t == t then [steps[0].r] else []) + AccessedBy(steps[1..], t)
  }

  /** What a thread has been given is what it has made since. */
  lemma {:induction false} GivenIsAccessed(c: Config, s: State, steps: seq<Step>, last: State, t: Thread)
    requires Leads(c, s, steps, last)
    ensures t in s.locals || AccessedBy(steps, t) != [] ==> t in last.locals
    ensures t in last.locals ==>
              last.locals[t].given == (if t in s.locals then s.locals[t].given else []) + AccessedBy(steps, t)
    decreases |steps|
  {
    hide Next;
    hide Enabled;
    if steps == [] {
      if t in s.locals { assert s.locals[t].given + [] == s.locals[t].given; }
    } else {
      var next := Next(c, s, steps[0]);
      GivenIsAccessed(c, next, steps[1..], last, t);
      GivenStep(c, s, steps[0], t);
      var own := if steps[0].Access? && steps[0].t == t then [steps[0].r] else [];
      Regroup(if t in s.locals then s.locals[t].given else [], own, AccessedBy(steps[1..], t));
    }
  }

  lemma Regroup(a: seq<Record>, b: seq<Record>, c: seq<Record>)
    ensures a + b + c == a + (b + c)
  {}

  lemma GivenStep(c: Config, s: State, step: Step, t: Thread)
    requires Enabled(c, s, step)
    ensures var next := Next(c, s, step);
            && (t in s.locals ==> t in next.locals) && (step.Access? && step.t == t ==> t in s.locals)
            && (t in next.locals ==>
                  next.locals[t].given == (if t in s.locals then s.locals[t].given else [])
                                          + (if step.Access? && step.t == t then [step.r] else []))
  {}

  /** Without compression the totals stay those of the header. */
  lemma {:induction false} TotalsStay(c: Config, s: State, steps: seq<Step>, last: State)
    requires Leads(c, s, steps, last) && !c.compression
    ensures last.total == s.total && last.plain == s.plain
    decreases |steps|
  {
    if steps != [] { TotalsStay(c, Next(c, s, steps[0]), steps[1..], last); }
  }

  /** After any schedule from the start, whenever the lock is free: the file is the header and whole frames, the total
      is its length, and each thread's decoded frames followed by what is in its buffer are its records in order. */
  lemma {:induction false} FileIsWholeFrames(c: Config, steps: seq<Step>, s: State, room: nat)
    requires Leads(c, Start(c), steps, s) && s.holder.None? && CompressBound(MAX_DATA) <= room
    ensures s.file == c.header + FramesBytes(Payloads(s.frames))
    ensures SplitFrames(s.file[|c.header|..]) == Some(Payloads(s.frames))
    ensures c.compression ==> s.total == |s.file| && s.plain == |c.header| + PlainBytes(s.frames)
    ensures forall t <- s.locals ::
              var own := DecodeOwn(c, Payloads(s.frames), Owners(s.frames), t, room);
              && own.Some?
              && AccessedBy(steps, t) == own.value + (if s.locals[t].stage.Released? then [] else s.locals[t].buffer)
              && s.locals[t].given == AccessedBy(steps, t)
  {
    hide SplitFrames;
    hide DecodeOwn;
    hide FramesFit;
    hide FramesBytes;
    hide CompressBound;
    InvStart(c);
    InvAlways(c, Start(c), steps, s);
    var body := FramesBytes(Payloads(s.frames));
    assert c.header + body + [] == c.header + body;
    assert s.file[|c.header|..] == body;
    OwnFramesDecode(c, s.frames, 0, room);
    PayloadsFit();
    SplitFramesRoundTrip(Payloads(s.frames));
    forall t | t in s.locals
      ensures DecodeOwn(c, Payloads(s.frames), Owners(s.frames), t, room) == Some(Written(s.frames, t))
      ensures s.locals[t].given == AccessedBy(steps, t)
    {
      OwnFramesDecode(c, s.frames, t, room);
      GivenIsAccessed(c, Start(c), steps, s, t);
    }
  }

  lemma PayloadsFit()
    ensures CompressBound(CompressBound(MAX_DATA)) < Range(8)
  {
    RangeOfEight();
  }
}
