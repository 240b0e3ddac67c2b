/** The bytes of the trace file: of one record, of the header, and of the file that a program without accesses leaves. */
module TraceExample {
  import opened Wrappers
  import opened Bytes
  import opened Lz4Format
  import opened Lz4Search
  import opened Lz4Compress
  import opened TraceFormat
  import opened TraceLog

  lemma {:induction false} DigitAt(n: nat, width: nat, i: nat)
    requires i < width
    ensures LittleEndian(n, width)[i] == n / Range(i) % 256
    decreases i
  {
    if i > 0 {
      DigitAt(n / 256, width - 1, i - 1);
      Nested(n, Range(i - 1));
    } else {
      assert Range(0) == 1;
    }
  }

  lemma Nested(n: nat, c: nat)
    requires c > 0
    ensures n / 256 / c == n / (256 * c)
  {
    var q, r := n / 256, n % 256;
    var q', r' := q / c, q % c;
    assert n == (q' * c + r') * 256 + r == q' * (256 * c) + (r' * 256 + r);
    assert 0 <= r' * 256 + r < 256 * c;
    Quotient(n, q', r' * 256 + r, 256 * c);
  }

  /** The layout of a record: type in byte 0, address from byte 40, size from byte 48, lowest byte first, and zeros. */
  lemma RecordLayout(r: MemAccess, i: nat)
    requires i < 56
    ensures RecordBytes(r)[i]
            == if i == 0 then (match r.kind case InstRead => 0 case DataRead => 1 case DataWrite => 2 case DataModify => 3)
               else if i < 40 then 0
               else if i < 48 then r.addr / Range(i - 40) % 256
               else r.size / Range(i - 48) % 256
  {
    hide LittleEndian;
    if i < 4 {
      DigitAt(KindCode(r.kind), 4, i);
      if i > 0 { SmallDigits(KindCode(r.kind), i); }
    } else if 40 <= i < 48 {
      DigitAt(r.addr, 8, i - 40);
    } else if i >= 48 {
      DigitAt(r.size, 8, i - 48);
    }
  }

  lemma SmallDigits(n: nat, i: nat)
    requires n < 4 && 0 < i
    ensures n / Range(i) % 256 == 0
  {
    assert Range(i) == 256 * Range(i - 1) >= 256;
    Quotient(n, 0, n, Range(i));
  }

  /** The buffer holds the records that fit into ten megabytes, and a flush all of them but one. */
  lemma BufferIsTenMegabytes()
    ensures 56 * CAPACITY <= 10 * 1024 * 1024 < 56 * (CAPACITY + 1)
    ensures MAX_DATA == 56 * (CAPACITY - 1)
  {}

  /** A source of at most twelve bytes is all literals. */
  lemma ShortIsLiterals(source: seq<byte>, bytes: seq<byte>)
    requires |source| < MINLENGTH && IsCompressed(source, bytes)
    ensures bytes == [16 * |source|] + source
  {
    var ss :| Compressed(WidthFor(|source|), source, ss, bytes);
    assert source[0..] == source;
  }

  /** The payload of no records. */
  lemma NothingPacked(payload: seq<byte>)
    requires Packed([], payload)
    ensures payload == [16, 0]
  {
    hide IsCompressed;
    var mid :| IsCompressed([], mid) && IsCompressed(mid, payload);
    ShortIsLiterals([], mid);
    assert mid == [0];
    ShortIsLiterals([0], payload);
  }

  lemma FrameOfTwo()
    ensures FrameBytes([16, 0]) == [2, 0, 0, 0, 0, 0, 0, 0, 16, 0]
  {
    forall i | 0 <= i < 8
      ensures LittleEndian(2, 8)[i] == if i == 0 then 2 else 0
    {
      DigitAt(2, 8, i);
      if i > 0 { SmallDigits(2, i); } else { assert Range(0) == 1; }
    }
  }

  lemma FileOfNothing(maps: seq<byte>, payloads: seq<seq<byte>>)
    requires PayloadsOf([[]], payloads, MAX_DATA)
    ensures FileOf(maps, payloads)
            == ['M' as int, 'E' as int, 'M' as int, 'A' as int, 'C' as int, 'C' as int, 'E' as int, 'S' as int]
               + maps + [0] + [2, 0, 0, 0, 0, 0, 0, 0, 16, 0]
  {
    assert IsPayload([], payloads[0], MAX_DATA);
    assert RecordsBytes([]) == [];
    NothingPacked(payloads[0]);
    FrameOfTwo();
    assert payloads == [[16, 0]];
    assert payloads[1..] == [] && FramesBytes([]) == [];
    hide FrameBytes;
  }

  /** A program that accesses nothing leaves "MEMACCES", its memory map, a zero byte and one frame of two bytes. */
  method TraceNothing(pieces: seq<seq<byte>>) returns (log: Log)
    ensures fresh(log)
    ensures log.output.file
            == ['M' as int, 'E' as int, 'M' as int, 'A' as int, 'C' as int, 'C' as int, 'E' as int, 'S' as int]
               + Flatten(pieces) + [0] + [2, 0, 0, 0, 0, 0, 0, 0, 16, 0]
  {
    hide Flatten;
    log := new Log(pieces);
    assert log.memAccesses[..0] == [];
    log.Finalize(CompressBound(MAX_DATA));
    FileOfNothing(Flatten(pieces), log.payloads);
  }
}
