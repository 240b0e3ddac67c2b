/** The trace file: records as bytes, frames of twice-compressed records, header, and the reader that undoes it all. */
module TraceFormat {
  import opened Wrappers
  import opened Bytes
  import opened Lz4Format
  import opened Lz4Search
  import opened Lz4Compress
  import opened Lz4Decode
  import opened Lz4RoundTrip

  // ---------- records ----------

  datatype Kind = InstRead | DataRead | DataWrite | DataModify

  /** The fields of `MemAccess` that the Valgrind tool fills in. */
  datatype MemAccess = MemAccess(kind: Kind, addr: uint64, size: uint64)

  const RECORD_SIZE := 56

  /** `mem_accesses_bufsize` of both writers: ten megabytes of records. */
  const CAPACITY := 187245

  /** The most bytes a flush holds: 56 for each slot but the last. */
  const MAX_DATA := 10485664

  function KindCode(kind: Kind): nat {
    match kind case InstRead => 0 case DataRead => 1 case DataWrite => 2 case DataModify => 3
  }

  function KindOf(code: nat): Option<Kind> {
    match code case 0 => Some(InstRead) case 1 => Some(DataRead) case 2 => Some(DataWrite) case 3 => Some(DataModify)
    case _ => None
  }

  /** The 56 bytes of the C structure: the type, padding and unused fields that stay zero, address, size. */
  function RecordBytes(r: MemAccess): (bytes: seq<byte>)
    ensures |bytes| == RECORD_SIZE
  {
    LittleEndian(KindCode(r.kind), 4) + seq(36, _ => 0) + LittleEndian(r.addr, 8) + LittleEndian(r.size, 8)
  }

  function RecordOf(bytes: seq<byte>): Option<MemAccess>
    requires |bytes| == RECORD_SIZE
  {
    var kind := KindOf(FromLittleEndian(bytes[..4]));
    var addr, size := FromLittleEndian(bytes[40..48]), FromLittleEndian(bytes[48..]);
    if kind.None? || addr >= 0x1_0000_0000_0000_0000 || size >= 0x1_0000_0000_0000_0000 then None
    else Some(MemAccess(kind.value, addr, size))
  }

  function RecordsBytes(rs: seq<MemAccess>): (bytes: seq<byte>)
    ensures |bytes| == 56 * |rs|
  {
    if rs == [] then [] else RecordBytes(rs[0]) + RecordsBytes(rs[1..])
  }

  function RecordsOf(bytes: seq<byte>): Option<seq<MemAccess>> {
    if bytes == [] then Some([])
    else if |bytes| < RECORD_SIZE then None
    else
      var first, rest := RecordOf(bytes[..RECORD_SIZE]), RecordsOf(bytes[RECORD_SIZE..]);
      if first.None? || rest.None? then None else Some([first.value] + rest.value)
  }

  lemma RecordRoundTrip(r: MemAccess)
    ensures RecordOf(RecordBytes(r)) == Some(r)
  {
    hide LittleEndian;
    hide FromLittleEndian;
    RangeOfEight();
    LittleEndianRoundTrip(KindCode(r.kind), 4);
    LittleEndianRoundTrip(r.addr, 8);
    LittleEndianRoundTrip(r.size, 8);
    var bytes := RecordBytes(r);
    assert bytes[..4] == LittleEndian(KindCode(r.kind), 4);
    assert bytes[40..48] == LittleEndian(r.addr, 8);
    assert bytes[48..] == LittleEndian(r.size, 8);
  }

  lemma {:induction false} RecordsRoundTrip(rs: seq<MemAccess>)
    ensures RecordsOf(RecordsBytes(rs)) == Some(rs)
  {
    hide RecordBytes;
    hide RecordOf;
    if rs != [] {
      RecordRoundTrip(rs[0]);
      RecordsRoundTrip(rs[1..]);
      assert RecordsBytes(rs)[..RECORD_SIZE] == RecordBytes(rs[0]);
      assert RecordsBytes(rs)[RECORD_SIZE..] == RecordsBytes(rs[1..]);
      assert [rs[0]] + rs[1..] == rs;
    }
  }

  // ---------- frames ----------

  /** The bytes of `data` after two rounds of compression. */
  ghost predicate Packed(data: seq<byte>, payload: seq<byte>) {
    exists mid :: IsCompressed(data, mid) && IsCompressed(mid, payload)
  }

  /** `bytes` is what `LZ4_compress` makes of `data`. */
  ghost predicate IsCompressed(data: seq<byte>, bytes: seq<byte>) {
    exists ss :: Compressed(WidthFor(|data|), data, ss, bytes)
  }

  lemma CompressedOnce(data: seq<byte>, a: seq<byte>, b: seq<byte>)
    requires IsCompressed(data, a) && IsCompressed(data, b)
    ensures a == b
  {
    hide Compressed;
    var ss, ss' :| Compressed(WidthFor(|data|), data, ss, a) && Compressed(WidthFor(|data|), data, ss', b);
    OutputIsDetermined(WidthFor(|data|), data, ss, a, ss', b);
  }

  /** There is one payload for any data. */
  lemma PackedOnce(data: seq<byte>, a: seq<byte>, b: seq<byte>)
    requires Packed(data, a) && Packed(data, b)
    ensures a == b
  {
    hide IsCompressed;
    var mid, mid' :| IsCompressed(data, mid) && IsCompressed(mid, a) && IsCompressed(data, mid') && IsCompressed(mid', b);
    CompressedOnce(data, mid, mid');
    CompressedOnce(mid, a, b);
  }

  /** Two rounds of decompression into buffers of `room` bytes. */
  function Unpack(payload: seq<byte>, room: nat): Option<seq<byte>> {
    var first := Decode(Unknown, payload, room);
    if !first.Decoded? || !first.exact then None else
    var second := Decode(Unknown, first.out, room);
    if !second.Decoded? || !second.exact then None else Some(second.out)
  }

  lemma CompressedDecodes(data: seq<byte>, bytes: seq<byte>, room: nat)
    requires IsCompressed(data, bytes) && |data| <= room
    ensures Decode(Unknown, bytes, room) == Decoded(|bytes|, data, true)
    ensures 0 < |bytes| <= CompressBound(|data|)
  {
    hide Greedy;
    hide Decode;
    var ss :| Compressed(WidthFor(|data|), data, ss, bytes);
    WorstCase(data, ss, bytes);
    EncodedDecodes(data, ss, bytes, room);
  }

  lemma UnpackPacked(data: seq<byte>, payload: seq<byte>, room: nat)
    requires Packed(data, payload) && CompressBound(|data|) <= room
    ensures Unpack(payload, room) == Some(data)
    ensures |payload| <= CompressBound(CompressBound(|data|))
  {
    hide IsCompressed;
    hide Decode;
    var mid :| IsCompressed(data, mid) && IsCompressed(mid, payload);
    CompressedDecodes(data, mid, room);
    CompressedDecodes(mid, payload, room);
  }

  function FrameBytes(payload: seq<byte>): seq<byte> {
    LittleEndian(|payload|, 8) + payload
  }

  function FramesBytes(payloads: seq<seq<byte>>): seq<byte> {
    if payloads == [] then [] else FrameBytes(payloads[0]) + FramesBytes(payloads[1..])
  }

  /** Splits a file body by the eight-byte lengths; nothing when it ends inside a frame. */
  function SplitFrames(body: seq<byte>): Option<seq<seq<byte>>>
    decreases |body|
  {
    if body == [] then Some([])
    else if |body| < 8 then None
    else
      var size := FromLittleEndian(body[..8]);
      if 8 + size > |body| then None
      else
        var rest := SplitFrames(body[8 + size..]);
        if rest.None? then None else Some([body[8..8 + size]] + rest.value)
  }

  lemma SplitFirstFrame(p: seq<byte>, tail: seq<byte>)
    requires |p| < Range(8)
    ensures var rest := SplitFrames(tail);
            SplitFrames(FrameBytes(p) + tail) == if rest.None? then None else Some([p] + rest.value)
  {
    hide LittleEndian;
    hide FromLittleEndian;
    hide Range;
    LittleEndianRoundTrip(|p|, 8);
    var body := FrameBytes(p) + tail;
    assert body[..8] == LittleEndian(|p|, 8);
    assert body[8..8 + |p|] == p;
    assert body[8 + |p|..] == tail;
  }

  lemma {:induction false} SplitFramesRoundTrip(payloads: seq<seq<byte>>)
    requires forall p <- payloads :: |p| < Range(8)
    ensures SplitFrames(FramesBytes(payloads)) == Some(payloads)
  {
    hide FrameBytes;
    hide Range;
    if payloads != [] {
      SplitFirstFrame(payloads[0], FramesBytes(payloads[1..]));
      SplitFramesRoundTrip(payloads[1..]);
      assert [payloads[0]] + payloads[1..] == payloads;
    }
  }

  lemma {:induction false} FramesBytesAppend(payloads: seq<seq<byte>>, p: seq<byte>)
    ensures FramesBytes(payloads + [p]) == FramesBytes(payloads) + FrameBytes(p)
  {
    hide FrameBytes;
    if payloads == [] {
      assert [p][1..] == [];
    } else {
      FramesBytesAppend(payloads[1..], p);
      assert (payloads + [p])[1..] == payloads[1..] + [p];
    }
  }

  // ---------- the whole file ----------

  const MAGIC: seq<byte> := [77, 69, 77, 65, 67, 67, 69, 83] // "MEMACCES"

  function HeaderBytes(maps: seq<byte>): seq<byte> {
    MAGIC + maps + [0]
  }

  /** What follows the first zero byte. */
  function AfterZero(bytes: seq<byte>): Option<seq<byte>> {
    if bytes == [] then None else if bytes[0] == 0 then Some(bytes[1..]) else AfterZero(bytes[1..])
  }

  /** The records of every payload, one after the other. */
  function ReadPayloads(payloads: seq<seq<byte>>, room: nat): Option<seq<MemAccess>> {
    if payloads == [] then Some([]) else
    var data := Unpack(payloads[0], room);
    if data.None? then None else
    var first, rest := RecordsOf(data.value), ReadPayloads(payloads[1..], room);
    if first.None? || rest.None? then None else Some(first.value + rest.value)
  }

  /** Reads a trace file: magic bytes, memory map up to a zero byte, frames up to the end. */
  function ReadTrace(file: seq<byte>, room: nat): Option<seq<MemAccess>> {
    if |file| < 8 || file[..8] != MAGIC then None else
    var body := AfterZero(file[8..]);
    if body.None? then None else
    var payloads := SplitFrames(body.value);
    if payloads.None? then None else ReadPayloads(payloads.value, room)
  }

  function Flatten<T>(chunks: seq<seq<T>>): seq<T> {
    if chunks == [] then [] else chunks[0] + Flatten(chunks[1..])
  }

  lemma {:induction false} FlattenAppend<T>(chunks: seq<seq<T>>, chunk: seq<T>)
    ensures Flatten(chunks + [chunk]) == Flatten(chunks) + chunk
  {
    if chunks == [] {
      assert [chunk][1..] == [];
    } else {
      FlattenAppend(chunks[1..], chunk);
      assert (chunks + [chunk])[1..] == chunks[1..] + [chunk];
    }
  }

  /** The payload of one frame, for at most `limit` bytes of records. */
  ghost predicate IsPayload(chunk: seq<MemAccess>, payload: seq<byte>, limit: nat) {
    Packed(RecordsBytes(chunk), payload) && 56 * |chunk| <= limit
  }

  /** Payload by payload, the records of `chunks`. */
  ghost predicate PayloadsOf(chunks: seq<seq<MemAccess>>, payloads: seq<seq<byte>>, limit: nat) {
    |chunks| == |payloads| && forall i :: 0 <= i < |chunks| ==> IsPayload(chunks[i], payloads[i], limit)
  }

  /** There is one file for any records flushed in the same way. */
  lemma PayloadsOnce(chunks: seq<seq<MemAccess>>, a: seq<seq<byte>>, b: seq<seq<byte>>, limit: nat)
    requires PayloadsOf(chunks, a, limit) && PayloadsOf(chunks, b, limit)
    ensures a == b
  {
    hide Packed;
    forall i | 0 <= i < |chunks|
      ensures a[i] == b[i]
    {
      assert IsPayload(chunks[i], a[i], limit) && IsPayload(chunks[i], b[i], limit);
      PackedOnce(RecordsBytes(chunks[i]), a[i], b[i]);
    }
  }

  lemma {:induction false} AfterZeroOf(maps: seq<byte>, body: seq<byte>)
    requires 0 !in maps
    ensures AfterZero(maps + [0] + body) == Some(body)
  {
    if maps == [] {
      assert ([0] + body)[1..] == body;
    } else {
      AfterZeroOf(maps[1..], body);
      assert (maps + [0] + body)[1..] == maps[1..] + [0] + body;
    }
  }

  lemma BoundGrows(n: nat, limit: nat)
    requires n <= limit
    ensures CompressBound(n) <= CompressBound(limit)
  {}

  lemma {:induction false} ReadPayloadsOf(chunks: seq<seq<MemAccess>>, payloads: seq<seq<byte>>, limit: nat, room: nat)
    requires PayloadsOf(chunks, payloads, limit) && CompressBound(limit) <= room
    ensures ReadPayloads(payloads, room) == Some(Flatten(chunks))
    ensures forall p <- payloads :: |p| <= CompressBound(CompressBound(limit))
  {
    hide Packed;
    hide Unpack;
    hide RecordsOf;
    hide CompressBound;
    if chunks != [] {
      var data := RecordsBytes(chunks[0]);
      BoundGrows(|data|, limit);
      BoundGrows(CompressBound(|data|), CompressBound(limit));
      UnpackPacked(data, payloads[0], room);
      RecordsRoundTrip(chunks[0]);
      ReadPayloadsOf(chunks[1..], payloads[1..], limit, room);
    }
  }

  /** A file of header and frames reads back as the records of all its payloads, in order. */
  lemma ReadTraceOf(maps: seq<byte>, chunks: seq<seq<MemAccess>>, payloads: seq<seq<byte>>, limit: nat, room: nat)
    requires 0 !in maps && PayloadsOf(chunks, payloads, limit) && CompressBound(limit) <= room
    requires CompressBound(CompressBound(limit)) < 0x8000_0000
    ensures ReadTrace(HeaderBytes(maps) + FramesBytes(payloads), room) == Some(Flatten(chunks))
  {
    hide FramesBytes;
    hide ReadPayloads;
    hide SplitFrames;
    hide PayloadsOf;
    hide CompressBound;
    var file := HeaderBytes(maps) + FramesBytes(payloads);
    assert file[..8] == MAGIC && file[8..] == maps + [0] + FramesBytes(payloads);
    AfterZeroOf(maps, FramesBytes(payloads));
    ReadPayloadsOf(chunks, payloads, limit, room);
    RangeOfEight();
    hide Range;
    SplitFramesRoundTrip(payloads);
  }
}
