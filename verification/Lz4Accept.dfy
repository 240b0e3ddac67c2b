/** What a decoder accepts is a block: whatever it has read without an error is the encoding of the sequences it has
    applied. Line numbers are those of memapass/lz4.c. */
module Lz4Accept {
  import opened Bytes
  import opened Lz4Format
  import opened Lz4Word
  import opened Lz4Copy
  import opened Lz4Decode

  lemma {:induction false} RunIsCanonical(src: seq<byte>, ip: nat)
    requires ip <= |src|
    ensures var r := ReadRun(src, ip);
            Run255(r.value) == src[ip..r.next] + (if r.closed then [] else [0]) && (r.closed || r.next == |src|)
    decreases |src| - ip
  {
    if ip < |src| && src[ip] == 255 {
      RunIsCanonical(src, ip + 1);
      assert src[ip..] == [255] + src[ip + 1..];
    }
  }

  /** There is one way to write a length, up to a closing zero that the end of the input may stand for. */
  lemma LengthIsCanonical(src: seq<byte>, nibble: nat, ip: nat)
    requires ip <= |src| && nibble <= 15
    ensures var r := ReadLength(src, nibble, ip);
            && nibble == Nibble(r.value) && (r.closed || r.next == |src|)
            && LengthTail(r.value) == src[ip..r.next] + (if r.closed then [] else [0])
  {
    if nibble == 15 { RunIsCanonical(src, ip); }
  }

  lemma OffsetIsCanonical(src: seq<byte>, ip: nat)
    requires ip + 2 <= |src|
    ensures LittleEndian(A16(src, ip), 2) == src[ip..ip + 2]
  {
    var offset := A16(src, ip);
    assert LittleEndian(offset, 2) == [offset % 256] + LittleEndian(offset / 256, 1);
    assert LittleEndian(offset / 256, 1) == [offset / 256 % 256];
  }

  /** The sequence that a round applies. */
  function SequenceOf(src: seq<byte>, r: Round): Sequence
    requires r.Literals? && r.from <= r.to <= |src| && MINMATCH <= r.n
  {
    Sequence(src[r.from..r.to], r.offset, r.n - MINMATCH)
  }

  lemma HeadIsCanonical(src: seq<byte>, ip: nat, from: nat, to: nat)
    requires ip < from <= to <= |src|
    requires LengthTail(to - from) == src[ip + 1..from] && src[ip] / 16 == Nibble(to - from)
    ensures HeadBytes(src[from..to], src[ip] % 16) == src[ip..to]
  {
    hide LengthTail;
    assert src[ip..to] == [src[ip]] + src[ip + 1..from] + src[from..to];
  }

  /** The length of the literals of a round has been read to its end. */
  lemma LiteralsOfRound(d: Decoder, src: seq<byte>, ip: nat, size: nat, cap: nat)
    requires ip <= |src| && size <= cap
    requires var r := Parse(d, src, ip, size, cap); r.Last? || r.Literals?
    ensures ip < |src|
    ensures var r, lits := Parse(d, src, ip, size, cap), ReadLength(src, src[ip] / 16, ip + 1);
            lits.closed && r.from == lits.next && r.to == r.from + lits.value <= |src|
  {
    hide A16;
    LengthIsCanonical(src, src[ip] / 16, ip + 1);
    hide ReadLength;
    hide LengthTail;
  }

  lemma LiteralsAreCanonical(d: Decoder, src: seq<byte>, ip: nat, size: nat, cap: nat)
    requires ip <= |src| && size <= cap
    ensures var r := Parse(d, src, ip, size, cap);
            r.Last? || r.Literals? ==> HeadBytes(src[r.from..r.to], src[ip] % 16) == src[ip..r.to]
  {
    var r := Parse(d, src, ip, size, cap);
    if r.Last? || r.Literals? {
      LiteralsOfRound(d, src, ip, size, cap);
      hide Parse;
      hide ReadLength;
      hide HeadBytes;
      hide LengthTail;
      LengthIsCanonical(src, src[ip] / 16, ip + 1);
      HeadIsCanonical(src, ip, r.from, r.to);
    }
  }

  /** The bytes of offset and match length; only a length at the end of the input may lack its closing byte, and only
      for the decoder that looks for that end. */
  lemma MatchIsCanonical(d: Decoder, src: seq<byte>, nibble: nat, from: nat, to: nat, pos: nat, cap: nat)
    requires from <= to && to + 2 <= |src| && nibble <= 15 && ParseMatch(d, src, nibble, from, to, pos, cap).Literals?
    ensures var r := ParseMatch(d, src, nibble, from, to, pos, cap);
            var bytes := LittleEndian(r.offset, 2) + LengthTail(r.n - MINMATCH);
            && nibble == Nibble(r.n - MINMATCH)
            && (bytes == src[to..r.next] || (d.Unknown? && r.next == |src| && bytes == src[to..r.next] + [0]))
  {
    hide ReadLength;
    hide A16;
    hide LengthTail;
    hide LittleEndian;
    LengthIsCanonical(src, nibble, to + 2);
    OffsetIsCanonical(src, to);
    var more := ReadLength(src, nibble, to + 2);
    hide ParseMatch;
    JoinRest(src, to, more.next, LengthTail(more.value));
  }

  lemma JoinRest(src: seq<byte>, to: nat, next: nat, tail: seq<byte>)
    requires to + 2 <= next <= |src|
    ensures tail == src[to + 2..next] + [] ==> src[to..to + 2] + tail == src[to..next]
    ensures tail == src[to + 2..next] + [0] ==> src[to..to + 2] + tail == src[to..next] + [0]
  {
    assert src[to..to + 2] + src[to + 2..next] == src[to..next];
    if tail == src[to + 2..next] + [0] { Regroup(src[to..to + 2], src[to + 2..next], [0]); }
    if tail == src[to + 2..next] + [] { assert tail == src[to + 2..next]; }
  }

  lemma MatchOfRound(d: Decoder, src: seq<byte>, ip: nat, size: nat, cap: nat)
    requires ip <= |src| && size <= cap && Parse(d, src, ip, size, cap).Literals?
    ensures ip < |src|
    ensures var r := Parse(d, src, ip, size, cap);
            r.to + 2 <= |src| && r == ParseMatch(d, src, src[ip] % 16, r.from, r.to, size + (r.to - r.from), cap)
  {
    hide ReadLength;
    hide ParseLast;
  }

  /** The bytes of a round are those of its sequence. */
  lemma SequenceIsCanonical(d: Decoder, src: seq<byte>, ip: nat, size: nat, cap: nat)
    requires ip <= |src| && size <= cap && Parse(d, src, ip, size, cap).Literals?
    ensures var r := Parse(d, src, ip, size, cap);
            || SequenceBytes(SequenceOf(src, r)) == src[ip..r.next]
            || (d.Unknown? && r.next == |src| && SequenceBytes(SequenceOf(src, r)) == src[ip..r.next] + [0])
  {
    hide Parse;
    hide ParseMatch;
    hide HeadBytes;
    hide LengthTail;
    hide LittleEndian;
    hide SequenceBytes;
    LiteralsAreCanonical(d, src, ip, size, cap);
    MatchOfRound(d, src, ip, size, cap);
    var r := Parse(d, src, ip, size, cap);
    MatchIsCanonical(d, src, src[ip] % 16, r.from, r.to, size + (r.to - r.from), cap);
    JoinParts(SequenceOf(src, r), src, ip, r.to, r.next, src[ip] % 16);
  }

  lemma JoinParts(s: Sequence, src: seq<byte>, ip: nat, to: nat, next: nat, low: nat)
    requires ip <= to <= next <= |src| && low == Nibble(s.extra) && HeadBytes(s.literals, low) == src[ip..to]
    ensures var bytes := LittleEndian(s.offset, 2) + LengthTail(s.extra);
            && (bytes == src[to..next] ==> SequenceBytes(s) == src[ip..next])
            && (bytes == src[to..next] + [0] ==> SequenceBytes(s) == src[ip..next] + [0])
  {
    hide HeadBytes;
    hide LittleEndian;
    hide LengthTail;
    Regroup(HeadBytes(s.literals, low), LittleEndian(s.offset, 2), LengthTail(s.extra));
    assert src[ip..to] + src[to..next] == src[ip..next];
    Regroup(src[ip..to], src[to..next], [0]);
  }

  lemma Regroup(a: seq<byte>, b: seq<byte>, c: seq<byte>)
    ensures a + b + c == a + (b + c)
  {}

  /** How the bytes of a run end: with its last match, with one whose length lacks its closing zero, or with literals,
      where the low half of the token does not matter. */
  datatype Tail = NoTail | CutTail | Literal(last: seq<byte>, low: nat) {
    function Text(): seq<byte> { if Literal? then last else [] }
  }

  ghost predicate IsBlockOf(bytes: seq<byte>, ss: seq<Sequence>, tail: Tail) {
    match tail
    case NoTail => bytes == SequencesBytes(ss)
    case CutTail => ss != [] && bytes + [0] == SequencesBytes(ss)
    case Literal(last, low) => low <= 15 && bytes == SequencesBytes(ss) + HeadBytes(last, low)
  }

  /** Every offset stays inside the text and is not zero. */
  ghost predicate InText(pos: nat, ss: seq<Sequence>)
    decreases |ss|
  {
    ss == [] || (1 <= ss[0].offset <= pos + |ss[0].literals| && InText(pos + ss[0].Length(), ss[1..]))
  }

  ghost function Applied(text: seq<byte>, ss: seq<Sequence>): seq<byte>
    requires InText(|text|, ss)
    decreases |ss|
  {
    if ss == [] then text
    else Applied(CopyMatch(text + ss[0].literals, ss[0].offset, ss[0].MatchLength()), ss[1..])
  }

  /** A run that ends with `o`, reading `bytes` behind `out`, has applied `ss` and `tail`. */
  ghost predicate HasApplied(out: seq<byte>, bytes: seq<byte>, o: Outcome, ss: seq<Sequence>, tail: Tail)
    requires o.Decoded?
  {
    && IsBlockOf(bytes, ss, tail)
    && |o.out| == End(|out|, ss) + |tail.Text()|
    && (InText(|out|, ss) ==> o.out == Applied(out, ss) + tail.Text())
  }

  lemma Prepend(out: seq<byte>, s: Sequence, text: seq<byte>, head: seq<byte>, bytes: seq<byte>, o: Outcome,
                ss: seq<Sequence>, tail: Tail)
    requires o.Decoded? && HasApplied(text, bytes, o, ss, tail)
    requires head == SequenceBytes(s) && |text| == |out| + s.Length()
    requires 1 <= s.offset <= |out| + |s.literals| ==> text == CopyMatch(out + s.literals, s.offset, s.MatchLength())
    ensures HasApplied(out, head + bytes, o, [s] + ss, tail)
  {
    hide SequenceBytes;
    hide CopyMatch;
    hide HeadBytes;
    assert ([s] + ss)[1..] == ss;
    if tail.CutTail? {
      assert head + bytes + [0] == head + (bytes + [0]);
    } else if tail.Literal? {
      assert head + (SequencesBytes(ss) + HeadBytes(tail.last, tail.low))
             == head + SequencesBytes(ss) + HeadBytes(tail.last, tail.low);
    }
  }

  /** The last round of a run without last literals. */
  lemma Alone(out: seq<byte>, s: Sequence, bytes: seq<byte>, o: Outcome, cut: bool)
    requires o.Decoded? && SequenceBytes(s) == bytes + (if cut then [0] else [])
    requires |o.out| == |out| + s.Length()
    requires 1 <= s.offset <= |out| + |s.literals| ==> o.out == CopyMatch(out + s.literals, s.offset, s.MatchLength())
    ensures HasApplied(out, bytes, o, [s], if cut then CutTail else NoTail)
  {
    hide SequenceBytes;
    hide CopyMatch;
    assert [s][1..] == [] && SequencesBytes([]) == [];
    assert End(|out| + s.Length(), []) == |out| + s.Length();
    assert InText(|out| + s.Length(), []);
    assert o.out + [] == o.out && Applied(o.out, []) == o.out;
  }

  lemma RoundApplies(src: seq<byte>, out: seq<byte>, r: Round, cap: nat)
    requires r.Literals? && Fits(r, src, |out|, cap)
    ensures var s, text := SequenceOf(src, r), AddRound(src, out, r, cap);
            && |text| == |out| + s.Length()
            && (1 <= s.offset <= |out| + |s.literals| ==> text == CopyMatch(out + s.literals, s.offset, s.MatchLength()))
  {
    hide CopyMatch;
    hide ZeroText;
  }

  lemma NothingApplied(src: seq<byte>, ip: nat, out: seq<byte>, exact: bool)
    requires ip <= |src|
    ensures HasApplied(out, src[ip..ip], Decoded(ip, out, exact), [], NoTail)
  {}

  lemma LiteralsApplied(src: seq<byte>, ip: nat, from: nat, to: nat, low: nat, out: seq<byte>, exact: bool)
    requires ip <= from <= to <= |src| && low <= 15 && HeadBytes(src[from..to], low) == src[ip..to]
    ensures HasApplied(out, src[ip..to], Decoded(to, out + src[from..to], exact), [], Literal(src[from..to], low))
  {
    hide HeadBytes;
    assert [] + src[ip..to] == src[ip..to];
  }

  /** What a run accepts. */
  lemma {:induction false} AcceptedFrom(d: Decoder, src: seq<byte>, ip: nat, out: seq<byte>, exact: bool, cap: nat)
    returns (ss: seq<Sequence>, tail: Tail)
    requires ip <= |src| && |out| <= cap && Run(d, src, ip, out, exact, cap).Decoded?
    ensures var o := Run(d, src, ip, out, exact, cap);
            && HasApplied(out, src[ip..o.read], o, ss, tail)
            && (tail.CutTail? ==> d.Unknown? && o.read == |src|)
            && (tail.NoTail? ==> |o.out| == cap || (d.Unknown? && o.read == |src|))
    decreases |src| - ip
  {
    hide Parse;
    hide Run;
    hide AddRound;
    hide Decides;
    hide HasApplied;
    hide SequenceBytes;
    hide HeadBytes;
    hide CopyMatch;
    RunOfRound(d, src, ip, out, exact, cap);
    LiteralsAreCanonical(d, src, ip, |out|, cap);
    var r, o := Parse(d, src, ip, |out|, cap), Run(d, src, ip, out, exact, cap);
    if r.AtEnd? {
      ss, tail := [], NoTail;
      NothingApplied(src, ip, out, exact);
    } else if r.Last? {
      ss, tail := [], Literal(src[r.from..r.to], src[ip] % 16);
      LiteralsApplied(src, ip, r.from, r.to, src[ip] % 16, out, exact);
    } else {
      var s, text := SequenceOf(src, r), AddRound(src, out, r, cap);
      SequenceIsCanonical(d, src, ip, |out|, cap);
      RoundApplies(src, out, r, cap);
      var cut := SequenceBytes(s) != src[ip..r.next];
      if cut || |text| == cap {
        if |text| < cap {
          AtTheEnd(d, src, |text|, cap);
          RunOfRound(d, src, r.next, text, exact && Decides(r, |out|, cap), cap);
        }
        ss, tail := [s], if cut then CutTail else NoTail;
        Alone(out, s, src[ip..r.next], o, cut);
      } else {
        var rest;
        rest, tail := AcceptedFrom(d, src, r.next, text, exact && Decides(r, |out|, cap), cap);
        ss := [s] + rest;
        Prepend(out, s, text, src[ip..r.next], src[r.next..o.read], o, rest, tail);
        assert src[ip..r.next] + src[r.next..o.read] == src[ip..o.read];
      }
    }
  }

  lemma AtTheEnd(d: Decoder, src: seq<byte>, size: nat, cap: nat)
    requires size <= cap && d.Unknown?
    ensures Parse(d, src, |src|, size, cap).AtEnd?
  {}

  /** Whatever a decoder takes, it has applied the sequences that the bytes read encode, and all of them. */
  lemma AcceptedIsBlock(d: Decoder, src: seq<byte>, cap: nat) returns (ss: seq<Sequence>, tail: Tail)
    requires Decode(d, src, cap).Decoded?
    ensures var o := Decode(d, src, cap);
            && IsBlockOf(src[..o.read], ss, tail) && |o.out| == End(0, ss) + |tail.Text()|
            && (InText(0, ss) ==> o.out == Applied([], ss) + tail.Text())
            && (tail.CutTail? ==> d.Unknown? && o.read == |src|)
            && (tail.NoTail? ==> |o.out| == cap || (d.Unknown? && o.read == |src|))
  {
    hide Run;
    hide IsBlockOf;
    hide InText;
    hide Applied;
    ss, tail := AcceptedFrom(d, src, 0, [], true, cap);
    assert src[0..Decode(d, src, cap).read] == src[..Decode(d, src, cap).read];
  }
}
