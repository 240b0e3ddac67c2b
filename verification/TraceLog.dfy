/** The Valgrind tool's trace log: a record buffer that is compressed twice into a framed file when it is full. */
module TraceLog {
  import opened Wrappers
  import opened Bytes
  import opened Lz4Format
  import opened Lz4Compress
  import opened Lz4RoundTrip
  import opened TraceFormat

  lemma WrapsToItself(n: nat)
    requires n < 0x1_0000_0000_0000_0000
    ensures Wrap64(n) == n
  {}

  lemma FlattenEmpty()
    ensures Flatten<byte>([]) == []
  {}

  /** The file with these payloads in its frames. */
  function FileOf(maps: seq<byte>, payloads: seq<seq<byte>>): seq<byte> {
    HeaderBytes(maps) + FramesBytes(payloads)
  }

  /** The bytes that file stands for: the header, and each frame's length field and records. */
  function PlainSize(maps: seq<byte>, chunks: seq<seq<MemAccess>>): nat {
    |HeaderBytes(maps)| + 8 * |chunks| + 56 * |Flatten(chunks)|
  }

  /** What has been written: the file, and the two running totals. */
  datatype Output = Output(file: seq<byte>, totalCompressed: nat, totalUncompressed: nat)

  /** `out` holds the header and a frame for each chunk of records; its totals count every byte written and every
      byte that the frames stand for. */
  ghost predicate Holds(out: Output, maps: seq<byte>, chunks: seq<seq<MemAccess>>, payloads: seq<seq<byte>>) {
    && PayloadsOf(chunks, payloads, MAX_DATA)
    && out.file == FileOf(maps, payloads)
    && out.totalCompressed == Wrap64(|out.file|)
    && out.totalUncompressed == Wrap64(PlainSize(maps, chunks))
  }

  lemma HoldsHeader(maps: seq<byte>)
    ensures var total := Wrap64(|HeaderBytes(maps)|); Holds(Output(HeaderBytes(maps), total, total), maps, [], [])
  {
    assert FileOf(maps, []) == HeaderBytes(maps);
  }

  lemma PayloadsOfAppend(chunks: seq<seq<MemAccess>>, payloads: seq<seq<byte>>, chunk: seq<MemAccess>,
                         payload: seq<byte>)
    requires PayloadsOf(chunks, payloads, MAX_DATA)
    requires IsPayload(chunk, payload, MAX_DATA)
    ensures PayloadsOf(chunks + [chunk], payloads + [payload], MAX_DATA)
  {
    hide IsPayload;
    forall i | 0 <= i < |chunks + [chunk]|
      ensures IsPayload((chunks + [chunk])[i], (payloads + [payload])[i], MAX_DATA)
    {
      if i < |chunks| {
        assert (chunks + [chunk])[i] == chunks[i] && (payloads + [payload])[i] == payloads[i];
      }
    }
  }

  lemma Reassociate(a: seq<byte>, b: seq<byte>, c: seq<byte>, d: seq<byte>)
    ensures a + (b + (c + d)) == (a + b) + c + d
  {}

  lemma FileGrows(maps: seq<byte>, payloads: seq<seq<byte>>, payload: seq<byte>)
    ensures FileOf(maps, payloads + [payload]) == FileOf(maps, payloads) + LittleEndian(|payload|, 8) + payload
  {
    hide HeaderBytes;
    hide FramesBytes;
    hide LittleEndian;
    FramesBytesAppend(payloads, payload);
    Reassociate(HeaderBytes(maps), FramesBytes(payloads), LittleEndian(|payload|, 8), payload);
  }

  lemma PlainSizeGrows(maps: seq<byte>, chunks: seq<seq<MemAccess>>, chunk: seq<MemAccess>)
    ensures PlainSize(maps, chunks + [chunk]) == PlainSize(maps, chunks) + (8 + 56 * |chunk|)
  {
    hide HeaderBytes;
    hide Flatten;
    FlattenAppend(chunks, chunk);
  }

  lemma HoldsFrame(out: Output, maps: seq<byte>, chunks: seq<seq<MemAccess>>, payloads: seq<seq<byte>>,
                   chunk: seq<MemAccess>, payload: seq<byte>)
    requires Holds(out, maps, chunks, payloads)
    requires IsPayload(chunk, payload, MAX_DATA)
    ensures Holds(Output(out.file + LittleEndian(|payload|, 8) + payload,
                         Wrap64(out.totalCompressed + (8 + |payload|)),
                         Wrap64(out.totalUncompressed + (8 + |RecordsBytes(chunk)|))),
                  maps, chunks + [chunk], payloads + [payload])
  {
    hide FileOf;
    hide PlainSize;
    hide PayloadsOf;
    hide Wrap64;
    hide RecordsBytes;
    hide LittleEndian;
    hide IsPayload;
    PayloadsOfAppend(chunks, payloads, chunk, payload);
    FileGrows(maps, payloads, payload);
    PlainSizeGrows(maps, chunks, chunk);
    WrapAdd(|out.file|, 8 + |payload|);
    WrapAdd(PlainSize(maps, chunks), 8 + |RecordsBytes(chunk)|);
  }

  class Log {
    const memAccesses: array<MemAccess>
    var nextFree: nat          // next_free_mem_access - first_mem_access
    var outputOpen: bool       // outputfile_fd != -1
    var output: Output

    ghost const maps: seq<byte>
    ghost var chunks: seq<seq<MemAccess>>
    ghost var payloads: seq<seq<byte>>

    /** The state between calls: at least two slots of the buffer are free. */
    ghost predicate Valid()
      reads this
    {
      && memAccesses.Length == CAPACITY
      && nextFree < CAPACITY - 1
      && Holds(output, maps, chunks, payloads)
    }

    /** The records in the file and then those still in the buffer. */
    ghost function Records(): seq<MemAccess>
      reads this, memAccesses
      requires nextFree <= memAccesses.Length
    {
      Flatten(chunks) + memAccesses[..nextFree]
    }

    /** `md_post_clo_init` and `__mema_write_header`: opens the output and writes the magic bytes and the maps, which
        are read in pieces. */
    constructor (pieces: seq<seq<byte>>)
      ensures Valid() && outputOpen && Records() == [] && chunks == [] && nextFree == 0
      ensures fresh(memAccesses) && maps == Flatten(pieces)
    {
      memAccesses := new MemAccess[CAPACITY](_ => MemAccess(InstRead, 0, 0));
      nextFree, outputOpen := 0, true;
      maps, chunks, payloads := Flatten(pieces), [], [];
      var written, total := WriteHeader(pieces);
      output := Output(written, total, total);
      HoldsHeader(Flatten(pieces));
    }

    static method WriteHeader(pieces: seq<seq<byte>>) returns (written: seq<byte>, total: nat)
      ensures written == HeaderBytes(Flatten(pieces)) && total == Wrap64(|written|)
    {
      hide Wrap64;
      hide Flatten;
      written, total := MAGIC, 8;
      WrapsToItself(8);
      assert Flatten<byte>([]) == [] by { FlattenEmpty(); }
      assert pieces[..0] == [];
      for i := 0 to |pieces|
        invariant written == MAGIC + Flatten(pieces[..i]) && total == Wrap64(|written|)
      {
        FlattenAppend(pieces[..i], pieces[i]);
        assert pieces[..i + 1] == pieces[..i] + [pieces[i]];
        WrapAdd(|written|, |pieces[i]|);
        written, total := written + pieces[i], Wrap64(total + |pieces[i]|);
      }
      assert pieces[..|pieces|] == pieces;
      WrapAdd(|written|, 1);
      written, total := written + [0], Wrap64(total + 1);
    }

    /** The two rounds of compression. */
    static method Pack(data: seq<byte>) returns (payload: seq<byte>)
      requires |data| <= MAX_DATA
      ensures Packed(data, payload)
    {
      hide Compressed;
      BoundGrows(|data|, MAX_DATA);
      var compressed := new byte[CompressBound(|data|)];
      var size;
      ghost var ss, ss1;
      size, ss := Compress(data, compressed);
      ghost var mid := compressed[..size];
      BoundGrows(size, CompressBound(MAX_DATA));
      var compressed1 := new byte[CompressBound(size)];
      var size1;
      size1, ss1 := Compress(compressed[..size], compressed1);
      payload := compressed1[..size1];
      assert IsCompressed(data, mid) && IsCompressed(mid, payload);
    }

    /** `__mema_empty_buffer`: one frame with everything in the buffer; the buffer is dropped when nothing is open. */
    method EmptyBuffer()
      requires memAccesses.Length == CAPACITY && nextFree <= CAPACITY - 1 && Holds(output, maps, chunks, payloads)
      modifies this
      ensures Valid() && nextFree == 0 && outputOpen == old(outputOpen)
      ensures Records() == if outputOpen then old(Records()) else old(Flatten(chunks))
      ensures chunks == old(chunks) + (if outputOpen then [old(memAccesses[..nextFree])] else [])
    {
      hide Holds;
      hide Flatten;
      hide LittleEndian;
      hide Wrap64;
      hide RecordsBytes;
      hide Packed;
      if !outputOpen {
        nextFree := 0;
        NothingBuffered();
        return;
      }
      var records := memAccesses[..nextFree];
      var data := RecordsBytes(records);
      var payload := Pack(data);
      HoldsFrame(output, maps, chunks, payloads, records, payload);
      FlattenAppend(chunks, records);
      chunks, payloads := chunks + [records], payloads + [payload];
      output := Output(output.file + LittleEndian(|payload|, 8) + payload,
                       Wrap64(output.totalCompressed + (8 + |payload|)),
                       Wrap64(output.totalUncompressed + (8 + |data|)));
      nextFree := 0;
      NothingBuffered();
    }

    lemma NothingBuffered()
      requires nextFree == 0
      ensures Records() == Flatten(chunks)
    {
      assert memAccesses[..0] == [];
    }

    /** `trace_instr`, `trace_load`, `trace_store` and `trace_modify`: one record, and a flush when it fills the last
        slot but one. */
    method Trace(kind: Kind, addr: uint64, size: uint64)
      requires Valid() && outputOpen
      modifies this, memAccesses
      ensures Valid() && outputOpen
      ensures Records() == old(Records()) + [MemAccess(kind, addr, size)]
      ensures nextFree == if old(nextFree) == CAPACITY - 2 then 0 else old(nextFree) + 1
      ensures chunks == old(chunks) + if old(nextFree) == CAPACITY - 2
                                      then [old(memAccesses[..nextFree]) + [MemAccess(kind, addr, size)]] else []
    {
      memAccesses[nextFree] := MemAccess(kind, addr, size);
      nextFree := nextFree + 1;
      assert memAccesses[..nextFree] == old(memAccesses[..nextFree]) + [MemAccess(kind, addr, size)];
      if nextFree == CAPACITY - 1 { EmptyBuffer(); }
    }

    /** At any time the file reads back as the records flushed so far, unless the maps hold a byte that ends them early. */
    lemma Readable(room: nat)
      requires Valid() && CompressBound(MAX_DATA) <= room
      ensures 0 !in maps ==> ReadTrace(output.file, room) == Some(Flatten(chunks))
      ensures output.totalCompressed == Wrap64(|output.file|)
    {
      hide Flatten;
      hide ReadTrace;
      hide Wrap64;
      hide HeaderBytes;
      hide FramesBytes;
      hide PayloadsOf;
      if 0 !in maps { ReadTraceOf(maps, chunks, payloads, MAX_DATA, room); }
    }

    /** `__mema_finalize`: flushes what is left. The file then reads back as every record traced, in order. */
    method Finalize(ghost room: nat)
      requires Valid() && outputOpen && CompressBound(MAX_DATA) <= room
      modifies this
      ensures Valid() && Records() == old(Records())
      ensures chunks == old(chunks) + [old(memAccesses[..nextFree])]
      ensures 0 !in maps ==> ReadTrace(output.file, room) == Some(old(Records()))
    {
      hide Flatten;
      hide ReadTrace;
      hide Holds;
      EmptyBuffer();
      NothingBuffered();
      Readable(room);
    }
  }
}
