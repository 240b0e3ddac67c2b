/** What the decoder that is told its input size makes of a block longer than its room. Line numbers are those of
    memapass/lz4.c. */
module Lz4Room {
  import opened Bytes
  import opened Lz4Format
  import opened Lz4Word
  import opened Lz4Search
  import opened Lz4Compress
  import opened Lz4Decode
  import opened Lz4RoundTrip
  import opened Lz4Example

  /** Some sequence ends where the room does, with a match of eight bytes or more. */
  ghost predicate StopsAt(pos: nat, ss: seq<Sequence>, cap: nat)
    decreases |ss|
  {
    ss != [] &&
    ((pos + ss[0].Length() == cap && ss[0].MatchLength() >= COPYLENGTH) || StopsAt(pos + ss[0].Length(), ss[1..], cap))
  }

  lemma {:induction false} StopsBeyond(pos: nat, ss: seq<Sequence>, cap: nat)
    requires StopsAt(pos, ss, cap)
    ensures pos + |ss[0].literals| + COPYLENGTH <= cap && pos + ss[0].Length() <= cap
    decreases |ss|
  {
    if StopsAt(pos + ss[0].Length(), ss[1..], cap) { StopsBeyond(pos + ss[0].Length(), ss[1..], cap); }
  }

  /** The literals of a sequence would leave less than eight bytes of room. */
  lemma ParseCrowded(src: seq<byte>, ip: nat, s: Sequence, size: nat, cap: nat)
    requires At(src, ip, SequenceBytes(s)) && size <= cap
    requires ip + |SequenceBytes(s)| + 6 <= |src| && size + |s.literals| + COPYLENGTH > cap
    ensures var from := ip + 1 + |LengthTail(|s.literals|)|;
            Parse(Unknown, src, ip, size, cap) == Bad(if size + |s.literals| > cap then from else from + |s.literals|)
  {
    hide LengthTail;
    hide ReadLength;
    hide LittleEndian;
    hide ParseMatch;
    var head := HeadBytes(s.literals, Nibble(s.extra));
    AtSplit(src, ip, head + LittleEndian(s.offset, 2), LengthTail(s.extra));
    AtSplit(src, ip, head, LittleEndian(s.offset, 2));
    HeadAt(src, ip, s.literals, Nibble(s.extra));
  }

  /** A match would pass the room. */
  lemma ParseOverfull(src: seq<byte>, ip: nat, s: Sequence, size: nat, cap: nat)
    requires At(src, ip, SequenceBytes(s)) && ip + |SequenceBytes(s)| + 6 <= |src| && size <= cap
    requires s.offset <= MAX_DISTANCE && s.offset <= size + |s.literals|
    requires size + |s.literals| + COPYLENGTH <= cap && size + s.Length() > cap
    ensures Parse(Unknown, src, ip, size, cap) == Bad(ip + |SequenceBytes(s)|)
  {
    hide LengthTail;
    hide ReadLength;
    hide LittleEndian;
    hide ParseLast;
    var head := HeadBytes(s.literals, Nibble(s.extra));
    AtSplit(src, ip, head + LittleEndian(s.offset, 2), LengthTail(s.extra));
    AtSplit(src, ip, head, LittleEndian(s.offset, 2));
    HeadAt(src, ip, s.literals, Nibble(s.extra));
    var to := ip + |head|;
    ReadOffsetOf(src, to, s.offset);
    ReadLengthOf(src, to + 2, s.extra);
    hide A16;
    hide At;
  }

  /** The last literals would pass it. */
  lemma ParseLastOverfull(src: seq<byte>, ip: nat, last: seq<byte>, size: nat, cap: nat)
    requires At(src, ip, HeadBytes(last, 0)) && size <= cap < size + |last|
    ensures Parse(Unknown, src, ip, size, cap) == Bad(ip + 1 + |LengthTail(|last|)|)
  {
    hide ReadLength;
    HeadAt(src, ip, last, 0);
  }

  /** `part` is the first `n` bytes of `text`. */
  ghost predicate IsStart(part: seq<byte>, text: seq<byte>, n: nat) {
    n <= |text| && part == text[..n]
  }

  lemma {:induction false} ExpandKeeps(text: seq<byte>, ss: seq<Sequence>, total: nat)
    requires Legal(|text|, ss, total)
    ensures IsStart(text, Expand(text, ss, total), |text|)
    decreases |ss|
  {
    hide CopyMatch;
    if ss != [] {
      var next := CopyMatch(text + ss[0].literals, ss[0].offset, ss[0].MatchLength());
      ExpandKeeps(next, ss[1..], total);
      var after := text + ss[0].literals;
      assert next[..|after|] == after && after[..|text|] == text;
      assert next[..|after|][..|text|] == next[..|text|];
      var whole := Expand(next, ss[1..], total);
      assert whole[..|next|][..|text|] == whole[..|text|];
    }
  }

  lemma RunRefuses(src: seq<byte>, ip: nat, out: seq<byte>, cap: nat)
    requires ip <= |src| && |out| <= cap && Parse(Unknown, src, ip, |out|, cap).Bad?
    ensures Run(Unknown, src, ip, out, true, cap).Malformed?
  {
    hide Parse;
  }

  /** A match that fills the output ends the run. */
  lemma RunFills(src: seq<byte>, ip: nat, s: Sequence, out: seq<byte>, cap: nat)
    requires At(src, ip, SequenceBytes(s)) && ip + |SequenceBytes(s)| + 6 <= |src|
    requires 1 <= s.offset <= MAX_DISTANCE && s.offset <= |out| + |s.literals|
    requires |out| + |s.literals| + COPYLENGTH <= cap && |out| + s.Length() == cap
    ensures Run(Unknown, src, ip, out, true, cap)
            == Decoded(ip + |SequenceBytes(s)|, CopyMatch(out + s.literals, s.offset, s.MatchLength()), true)
  {
    hide SequenceBytes;
    hide HeadBytes;
    hide Parse;
    hide CopyMatch;
    ParseSequence(Unknown, src, ip, s, |out|, cap);
  }

  lemma {:induction false} ShortRoomFrom(src: seq<byte>, ip: nat, ss: seq<Sequence>, last: seq<byte>, total: nat,
                                         out: seq<byte>, cap: nat)
    requires At(src, ip, BlockBytes(ss, last)) && ip + |BlockBytes(ss, last)| == |src|
    requires total == End(|out|, ss) + |last| && Legal(|out|, ss, total) && |out| <= cap < total
    ensures var r := Run(Unknown, src, ip, out, true, cap);
            if StopsAt(|out|, ss, cap) then r.Decoded? && r.exact && IsStart(r.out, Expand(out, ss, total), cap)
            else r.Malformed?
    decreases |ss|
  {
    hide SequenceBytes;
    hide HeadBytes;
    hide BlockBytes;
    hide Run;
    hide CopyMatch;
    hide Parse;
    hide At;
    hide IsStart;
    BlockSplit(ss, last);
    if ss == [] {
      ParseLastOverfull(src, ip, last, |out|, cap);
      RunRefuses(src, ip, out, cap);
    } else {
      var s := ss[0];
      EndOfLegal(|out|, ss, total);
      BlockSplit(ss[1..], last);
      AtSplit(src, ip, SequenceBytes(s), BlockBytes(ss[1..], last));
      var text := CopyMatch(out + s.literals, s.offset, s.MatchLength());
      if StopsAt(|out|, ss, cap) { StopsBeyond(|out|, ss, cap); }
      if |out| + |s.literals| + COPYLENGTH > cap {
        ParseCrowded(src, ip, s, |out|, cap);
        RunRefuses(src, ip, out, cap);
      } else if |text| > cap {
        ParseOverfull(src, ip, s, |out|, cap);
        RunRefuses(src, ip, out, cap);
      } else if |text| == cap {
        RunFills(src, ip, s, out, cap);
        ExpandKeeps(text, ss[1..], total);
      } else {
        RunSequence(Unknown, src, ip, s, out, cap);
        ShortRoomFrom(src, ip + |SequenceBytes(s)|, ss[1..], last, total, text, cap);
      }
    }
  }

  /** A block longer than the room is refused, unless one of its matches ends exactly where the room does: then the text
      up to there is returned as if it were all. */
  lemma ShortRoom(source: seq<byte>, ss: seq<Sequence>, bytes: seq<byte>, cap: nat)
    requires Encodes(source, ss, bytes) && cap < |source|
    ensures if StopsAt(0, ss, cap) then exists read :: Decode(Unknown, bytes, cap) == Decoded(read, source[..cap], true)
            else Decode(Unknown, bytes, cap).Malformed?
  {
    hide Run;
    hide Expand;
    hide Covers;
    hide Legal;
    hide StopsAt;
    var end := End(0, ss);
    CoversExpands(source, 0, ss);
    assert source[..0] == [];
    ShortRoomFrom(bytes, 0, ss, source[end..], |source|, [], cap);
    if StopsAt(0, ss, cap) {
      assert source[..end][..cap] == source[..cap];
      var o := Decode(Unknown, bytes, cap);
      assert o == Decoded(o.read, source[..cap], true);
    }
  }

  /** "abcdefgh" four times, with room for twelve bytes: an error at the byte after the literals. */
  lemma TwelveIsRefused()
    ensures Decode(Unknown, BLOCK, 12) == Malformed(9)
  {
    assert Parse(Unknown, BLOCK, 0, 0, 12) == Bad(9);
  }

  /** With room for twenty-seven bytes, where the match ends, the text comes back short and without an error. */
  lemma TwentySevenIsTaken()
    ensures exists read :: Decode(Unknown, BLOCK, 27) == Decoded(read, Text(32)[..27], true)
  {
    hide Text;
    hide BLOCK;
    OnlyIsGreedy(U16, 32);
    BlockOfText();
    ShortRoom(Text(32), [Only(32)], BLOCK, 27);
  }

  lemma RefusedLiterals()
    ensures Decode(Known, [0x50, 1, 2, 3, 4, 5], 4) == Decode(Unknown, [0x50, 1, 2, 3, 4, 5], 4) == Malformed(1)
    ensures Decode(Unknown, [0x50, 1, 2], 20) == Malformed(1)
    ensures Decode(Unknown, [0x10, 1, 2], 20) == Malformed(2)
  {}

  lemma RefusedOffset(d: Decoder)
    ensures Decode(d, [0x10, 1, 2, 0, 0, 0, 0, 0, 0, 0], 20) == Malformed(4)
  {
    assert Parse(d, [0x10, 1, 2, 0, 0, 0, 0, 0, 0, 0], 0, 0, 20) == Bad(4);
    hide Parse;
  }

  lemma RefusedMatch(d: Decoder)
    ensures Decode(d, [0x1F, 1, 1, 0, 255, 0, 0, 0, 0, 0], 20) == Malformed(6)
  {
    assert Parse(d, [0x1F, 1, 1, 0, 255, 0, 0, 0, 0, 0], 0, 0, 20) == Bad(6);
    hide Parse;
  }

  /** Where errors are found: behind the length of literals that do not fit the output, or the input; at the input that
      is left over; behind an offset that reaches before the output; behind the length of a match that does not fit. */
  lemma Refusals(d: Decoder)
    ensures Decode(Known, [0x50, 1, 2, 3, 4, 5], 4) == Decode(Unknown, [0x50, 1, 2, 3, 4, 5], 4) == Malformed(1)
    ensures Decode(Unknown, [0x50, 1, 2], 20) == Malformed(1)
    ensures Decode(Unknown, [0x10, 1, 2], 20) == Malformed(2)
    ensures Decode(d, [0x10, 1, 2, 0, 0, 0, 0, 0, 0, 0], 20) == Malformed(4)
    ensures Decode(d, [0x1F, 1, 1, 0, 255, 0, 0, 0, 0, 0], 20) == Malformed(6)
    ensures Decode(d, [], 20) == if d.Known? then PastInput else Decoded(0, [], true)
  {
    RefusedLiterals();
    RefusedOffset(d);
    RefusedMatch(d);
    assert Parse(d, [], 0, 0, 20) == if d.Known? then Past else AtEnd;
    hide Parse;
  }
}
