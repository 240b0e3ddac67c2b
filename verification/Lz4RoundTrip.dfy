/** Decoding undoes encoding: for every legal block, and so for whatever the compressors write. */
module Lz4RoundTrip {
  import opened Bytes
  import opened Lz4Format
  import opened Lz4Word
  import opened Lz4Search
  import opened Lz4Compress
  import opened Lz4Decode

  /** `part` stands in `src` at `ip`. */
  ghost predicate At(src: seq<byte>, ip: nat, part: seq<byte>) {
    ip + |part| <= |src| && src[ip..ip + |part|] == part
  }

  lemma AtSplit(src: seq<byte>, ip: nat, a: seq<byte>, b: seq<byte>)
    requires At(src, ip, a + b)
    ensures At(src, ip, a) && At(src, ip + |a|, b)
  {
    assert src[ip..ip + |a + b|][..|a|] == a;
    assert src[ip..ip + |a + b|][|a|..] == b;
  }

  lemma {:induction false} ReadRunOf(src: seq<byte>, ip: nat, n: nat)
    requires At(src, ip, Run255(n))
    ensures ReadRun(src, ip) == Length(n, ip + |Run255(n)|, true)
    decreases n
  {
    if n >= 255 {
      AtSplit(src, ip, [255], Run255(n - 255));
      ReadRunOf(src, ip + 1, n - 255);
      assert src[ip..ip + 1] == [255];
    } else {
      assert src[ip..ip + 1] == [n];
    }
  }

  /** Reading a length undoes writing it. */
  lemma ReadLengthOf(src: seq<byte>, ip: nat, n: nat)
    requires At(src, ip, LengthTail(n))
    ensures ReadLength(src, Nibble(n), ip) == Length(n, ip + |LengthTail(n)|, true)
  {
    if n >= 15 { ReadRunOf(src, ip, n - 15); }
  }

  lemma ReadOffsetOf(src: seq<byte>, ip: nat, offset: nat)
    requires offset <= MAX_DISTANCE && At(src, ip, LittleEndian(offset, 2))
    ensures A16(src, ip) == offset
  {
    assert LittleEndian(offset, 2) == [offset % 256] + LittleEndian(offset / 256, 1);
    assert LittleEndian(offset / 256, 1) == [offset / 256];
    assert src[ip] == src[ip..ip + 2][0] && src[ip + 1] == src[ip..ip + 2][1];
  }

  /** Reading a match undoes writing its offset and its length. */
  lemma ParseMatchOf(d: Decoder, src: seq<byte>, s: Sequence, from: nat, to: nat, pos: nat, cap: nat)
    requires At(src, to, LittleEndian(s.offset, 2)) && At(src, to + 2, LengthTail(s.extra)) && from <= to
    requires s.offset <= MAX_DISTANCE && s.offset <= pos && pos + s.MatchLength() <= cap
    ensures ParseMatch(d, src, Nibble(s.extra), from, to, pos, cap)
            == Literals(from, to, s.offset, s.MatchLength(), to + 2 + |LengthTail(s.extra)|)
  {
    hide A16;
    hide LengthTail;
    hide ReadLength;
    hide LittleEndian;
    ReadOffsetOf(src, to, s.offset);
    ReadLengthOf(src, to + 2, s.extra);
  }

  /** Where the parts of `HeadBytes` stand. */
  lemma HeadAt(src: seq<byte>, ip: nat, literals: seq<byte>, low: nat)
    requires low <= 15 && At(src, ip, HeadBytes(literals, low))
    ensures src[ip] / 16 == Nibble(|literals|) && src[ip] % 16 == low
    ensures var from := ip + 1 + |LengthTail(|literals|)|;
            At(src, from, literals) && from + |literals| == ip + |HeadBytes(literals, low)|
            && ReadLength(src, src[ip] / 16, ip + 1) == Length(|literals|, from, true)
  {
    hide LengthTail;
    hide ReadLength;
    var token, tail := [16 * Nibble(|literals|) + low], LengthTail(|literals|);
    AtSplit(src, ip, token + tail, literals);
    AtSplit(src, ip, token, tail);
    assert src[ip] == src[ip..ip + 1][0];
    ReadLengthOf(src, ip + 1, |literals|);
  }

  lemma ParseSequence(d: Decoder, src: seq<byte>, ip: nat, s: Sequence, size: nat, cap: nat)
    requires At(src, ip, SequenceBytes(s)) && ip + |SequenceBytes(s)| + 6 <= |src|
    requires s.offset <= MAX_DISTANCE && s.offset <= size + |s.literals|
    requires size + |s.literals| + COPYLENGTH <= cap && size + s.Length() <= cap
    ensures var to := ip + |HeadBytes(s.literals, 0)|;
            && to <= |src| && At(src, to - |s.literals|, s.literals)
            && Parse(d, src, ip, size, cap)
               == Literals(to - |s.literals|, to, s.offset, s.MatchLength(), ip + |SequenceBytes(s)|)
  {
    hide LengthTail;
    hide ReadLength;
    hide LittleEndian;
    hide ParseMatch;
    hide ParseLast;
    hide At;
    var head := HeadBytes(s.literals, Nibble(s.extra));
    AtSplit(src, ip, head + LittleEndian(s.offset, 2), LengthTail(s.extra));
    AtSplit(src, ip, head, LittleEndian(s.offset, 2));
    HeadAt(src, ip, s.literals, Nibble(s.extra));
    var to := ip + |head|;
    ParseMatchOf(d, src, s, to - |s.literals|, to, size + |s.literals|, cap);
  }

  lemma ParseLastOf(d: Decoder, src: seq<byte>, ip: nat, last: seq<byte>, size: nat, cap: nat)
    requires At(src, ip, HeadBytes(last, 0)) && ip + |HeadBytes(last, 0)| == |src|
    requires if d.Known? then size + |last| == cap else size + |last| <= cap
    ensures Parse(d, src, ip, size, cap) == Last(|src| - |last|, |src|)
    ensures src[|src| - |last|..] == last
  {
    hide ReadLength;
    HeadAt(src, ip, last, 0);
    assert src[|src| - |last|..] == src[|src| - |last|..|src|];
  }

  /** The last literals after a match are at least five. */
  lemma {:induction false} EndOfLegal(pos: nat, ss: seq<Sequence>, total: nat)
    requires ss != [] && Legal(pos, ss, total)
    ensures End(pos, ss) <= total - LASTLITERALS
    decreases |ss|
  {
    if |ss| > 1 {
      EndOfLegal(pos + ss[0].Length(), ss[1..], total);
    } else {
      assert End(pos + ss[0].Length(), ss[1..]) == pos + ss[0].Length();
    }
  }

  lemma BlockSplit(ss: seq<Sequence>, last: seq<byte>)
    ensures ss == [] ==> BlockBytes(ss, last) == HeadBytes(last, 0)
    ensures ss != [] ==> BlockBytes(ss, last) == SequenceBytes(ss[0]) + BlockBytes(ss[1..], last)
    ensures |BlockBytes(ss, last)| >= 1 + |last|
  {
    hide SequenceBytes;
  }

  lemma RunSequence(d: Decoder, src: seq<byte>, ip: nat, s: Sequence, out: seq<byte>, cap: nat)
    requires At(src, ip, SequenceBytes(s)) && ip + |SequenceBytes(s)| + 6 <= |src|
    requires 1 <= s.offset <= MAX_DISTANCE && s.offset <= |out| + |s.literals|
    requires |out| + |s.literals| + COPYLENGTH <= cap && |out| + s.Length() < cap
    ensures Run(d, src, ip, out, true, cap)
            == Run(d, src, ip + |SequenceBytes(s)|, CopyMatch(out + s.literals, s.offset, s.MatchLength()), true, cap)
  {
    hide SequenceBytes;
    hide HeadBytes;
    hide Parse;
    hide CopyMatch;
    ParseSequence(d, src, ip, s, |out|, cap);
  }

  lemma RunLast(d: Decoder, src: seq<byte>, ip: nat, last: seq<byte>, out: seq<byte>, cap: nat)
    requires At(src, ip, HeadBytes(last, 0)) && ip + |HeadBytes(last, 0)| == |src|
    requires if d.Known? then |out| + |last| == cap else |out| + |last| <= cap
    ensures Run(d, src, ip, out, true, cap) == Decoded(|src|, out + last, true)
  {
    hide HeadBytes;
    hide Parse;
    ParseLastOf(d, src, ip, last, |out|, cap);
  }

  /** Every legal block decodes to its expansion: exactly by the decoder told the size, with any room by the other. */
  lemma {:induction false} RunOf(d: Decoder, src: seq<byte>, ip: nat, ss: seq<Sequence>, last: seq<byte>, total: nat,
                                 out: seq<byte>, cap: nat)
    requires At(src, ip, BlockBytes(ss, last)) && ip + |BlockBytes(ss, last)| == |src|
    requires total == End(|out|, ss) + |last| && Legal(|out|, ss, total)
    requires if d.Known? then total == cap else total <= cap
    ensures Run(d, src, ip, out, true, cap) == Decoded(|src|, Expand(out, ss, total) + last, true)
    decreases |ss|
  {
    hide SequenceBytes;
    hide HeadBytes;
    hide BlockBytes;
    hide Run;
    hide CopyMatch;
    BlockSplit(ss, last);
    if ss == [] {
      RunLast(d, src, ip, last, out, cap);
    } else {
      var s := ss[0];
      EndOfLegal(|out|, ss, total);
      BlockSplit(ss[1..], last);
      AtSplit(src, ip, SequenceBytes(s), BlockBytes(ss[1..], last));
      RunSequence(d, src, ip, s, out, cap);
      var text := CopyMatch(out + s.literals, s.offset, s.MatchLength());
      RunOf(d, src, ip + |SequenceBytes(s)|, ss[1..], last, total, text, cap);
    }
  }

  /** Both decoders give the source back and read the whole block. */
  lemma EncodedDecodes(source: seq<byte>, ss: seq<Sequence>, bytes: seq<byte>, cap: nat)
    requires Encodes(source, ss, bytes) && |source| <= cap
    ensures Decode(Known, bytes, |source|) == Decoded(|bytes|, source, true)
    ensures Decode(Unknown, bytes, cap) == Decoded(|bytes|, source, true)
  {
    hide Run;
    hide Expand;
    hide Covers;
    hide Legal;
    var end := End(0, ss);
    CoversExpands(source, 0, ss);
    assert source[..0] == [] && source[..end] + source[end..] == source;
    RunOf(Known, bytes, 0, ss, source[end..], |source|, [], |source|);
    RunOf(Unknown, bytes, 0, ss, source[end..], |source|, [], cap);
  }

  /** No block of a source is longer than `LZ4_compressBound`. */
  lemma WorstCase(source: seq<byte>, ss: seq<Sequence>, bytes: seq<byte>)
    requires Encodes(source, ss, bytes)
    ensures 0 < |bytes| <= CompressBound(|source|)
  {
    EncodedSize(0, ss);
    TailLength(|source| - End(0, ss));
    hide SequencesBytes;
  }

  /** The bound is sixteen bytes more than the source, and one more for each 255. */
  lemma BoundGrowsBy(n: nat)
    ensures n < 255 ==> CompressBound(n) == n + 16
    ensures CompressBound(n + 255) == CompressBound(n) + 256
  {}

  /** Every offset that two bytes hold is used. */
  lemma OffsetsFillTwoBytes()
    ensures MAX_DISTANCE + 1 == Range(2)
  {
    assert Range(1) == 256 * Range(0);
  }

  /** 16-bit entries keep every position the search can store exactly up to one byte above the limit in use. */
  lemma SixteenBitPositions(isize: nat)
    requires isize >= MFLIMIT
    ensures (forall p :: 0 <= p <= isize - MFLIMIT ==> U16.Truncate(p) == p) <==> isize <= LIMIT_64K
  {
    if isize > LIMIT_64K {
      assert U16.Truncate(isize - MFLIMIT) < isize - MFLIMIT;
    }
  }

  /** The other compressor is used only where 16-bit entries would lose a position, and one byte earlier. */
  lemma WidthIsNeeded(isize: nat)
    requires isize >= MFLIMIT && isize != LIMIT_64K
    ensures WidthFor(isize).U16? <==> forall p :: 0 <= p <= isize - MFLIMIT ==> U16.Truncate(p) == p
  {
    SixteenBitPositions(isize);
  }

  /** `LZ4_compress`, then `LZ4_uncompress` with the original size. */
  method CompressAndUncompress(source: seq<byte>) returns (compressed: int, read: int, restored: array<byte>)
    requires CompressBound(|source|) < 0x8000_0000
    ensures restored[..] == source && read == compressed
  {
    var block := new byte[CompressBound(|source|)];
    ghost var ss;
    compressed, ss := Compress(source, block);
    EncodedDecodes(source, ss, block[..compressed], |source|);
    restored := new byte[|source|];
    read := Uncompress(block[..compressed], restored, |source|);
    assert restored[..] == restored[..|source|];
  }

  /** `LZ4_compress`, then `LZ4_uncompress_unknownOutputSize` into any room that is large enough. */
  method CompressAndUncompressUnknown(source: seq<byte>, room: nat) returns (size: int, restored: array<byte>)
    requires CompressBound(|source|) < 0x8000_0000 && |source| <= room
    ensures size == |source| && restored.Length == room && restored[..size] == source
  {
    var block := new byte[CompressBound(|source|)];
    var compressed;
    ghost var ss;
    compressed, ss := Compress(source, block);
    EncodedDecodes(source, ss, block[..compressed], room);
    restored := new byte[room];
    size := UncompressUnknownOutputSize(block[..compressed], restored, room);
  }
}
