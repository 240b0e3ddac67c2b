/** Which bytes of a decoder's output are decided by the input, and which are what the output held before the call: a
    match at offset zero copies from bytes that nothing has written yet. Line numbers are those of memapass/lz4.c. */
module Lz4Border {
  import opened Bytes
  import opened Lz4Format
  import opened Lz4Copy
  import opened Lz4ZeroOffset
  import opened Lz4Decode

  /** The border of a decoded text: it is the input's as a whole, or up to byte `at`, which is byte `from` of what the
      output held before. */
  datatype Border = Whole | Open(at: nat, from: nat)

  /** The border lies in the first round whose text the input does not decide. */
  function BorderOf(d: Decoder, src: seq<byte>, ip: nat, op: nat, cap: nat): Border
    requires ip <= |src| && op <= cap
    decreases |src| - ip
  {
    var round := Parse(d, src, ip, op, cap);
    if !round.Literals? then Whole else
    var length := round.to - round.from;
    var end := op + length + round.n;
    if !Decides(round, op, cap) then Open(op + Sure(length), op + Stepped(length))
    else if end == cap then Whole
    else BorderOf(d, src, round.next, end, cap)
  }

  /** What is written stays. */
  lemma {:induction false} LeftKeeps(d: Decoder, src: seq<byte>, ip: nat, buf: seq<byte>, op: nat, cap: nat)
    requires ip <= |src| && op <= cap <= |buf|
    ensures Left(d, src, ip, buf, op, cap)[..op] == buf[..op]
    decreases |src| - ip
  {
    hide Parse;
    hide AddRound;
    hide RoundLeft;
    hide Left;
    LeftOfRound(d, src, ip, buf, op, cap);
    RoundKeeps(d, src, ip, buf, op, cap);
    var round, after := Parse(d, src, ip, op, cap), RoundLeft(d, src, ip, buf, op, cap);
    if round.Literals? {
      var end := op + (round.to - round.from) + round.n;
      if end < cap {
        LeftKeeps(d, src, round.next, after, end, cap);
        assert after[..op] == after[..end][..op];
      }
    }
  }

  lemma RoundKeeps(d: Decoder, src: seq<byte>, ip: nat, buf: seq<byte>, op: nat, cap: nat)
    requires ip <= |src| && op <= cap <= |buf|
    ensures RoundLeft(d, src, ip, buf, op, cap)[..op] == buf[..op]
  {
    hide Parse;
    hide AddRound;
    hide SequenceLeft;
    if Parse(d, src, ip, op, cap).Literals? { RoundText(d, src, ip, buf, op, cap); }
  }

  lemma {:induction false} RunKeeps(d: Decoder, src: seq<byte>, ip: nat, out: seq<byte>, exact: bool, cap: nat)
    requires ip <= |src| && |out| <= cap && Run(d, src, ip, out, exact, cap).Decoded?
    ensures var r := Run(d, src, ip, out, exact, cap);
            r.out[..|out|] == out && (r.exact ==> exact)
    decreases |src| - ip
  {
    hide Parse;
    hide AddRound;
    hide Decides;
    hide Run;
    RunOfRound(d, src, ip, out, exact, cap);
    var round := Parse(d, src, ip, |out|, cap);
    if round.Literals? {
      var text := AddRound(src, out, round, cap);
      if |text| < cap {
        var r := Run(d, src, round.next, text, exact && Decides(round, |out|, cap), cap);
        RunKeeps(d, src, round.next, text, exact && Decides(round, |out|, cap), cap);
        assert r.out[..|out|] == r.out[..|text|][..|out|];
      }
    }
  }

  /** `left` is what a run with outcome `o` and border `border` left in an output that held `was`. */
  ghost predicate Meets(left: seq<byte>, was: seq<byte>, o: Outcome, border: Border)
    requires o.Decoded?
  {
    |o.out| <= |left| == |was|
    && match border
       case Whole => o.exact && left[..|o.out|] == o.out
       case Open(at, from) => !o.exact && at < |o.out| && from <= at
                              && left[..at] == o.out[..at] && left[at] == was[from]
  }

  lemma WholeMeets(left: seq<byte>, was: seq<byte>, read: nat, out: seq<byte>)
    requires |out| <= |left| == |was| && left[..|out|] == out
    ensures Meets(left, was, Decoded(read, out, true), Whole)
  {}

  /** A run that ends in this round without a match. */
  lemma LastBorder(d: Decoder, src: seq<byte>, ip: nat, buf: seq<byte>, op: nat, cap: nat, was: seq<byte>)
    requires ip <= |src| && op <= cap <= |buf| == |was| && !Parse(d, src, ip, op, cap).Literals?
    requires Run(d, src, ip, buf[..op], true, cap).Decoded?
    ensures Meets(Left(d, src, ip, buf, op, cap), was, Run(d, src, ip, buf[..op], true, cap), Whole)
  {
    hide Parse;
    RunOfRound(d, src, ip, buf[..op], true, cap);
    LeftOfRound(d, src, ip, buf, op, cap);
  }

  /** A run through a round keeps what the round left and the text so far. */
  lemma RoundStays(d: Decoder, src: seq<byte>, ip: nat, buf: seq<byte>, op: nat, cap: nat)
    requires ip <= |src| && op <= cap <= |buf| && Parse(d, src, ip, op, cap).Literals?
    requires Run(d, src, ip, buf[..op], true, cap).Decoded?
    ensures var round, o := Parse(d, src, ip, op, cap), Run(d, src, ip, buf[..op], true, cap);
            var text := AddRound(src, buf[..op], round, cap);
            && |text| <= |o.out| && o.out[..|text|] == text && (o.exact ==> Decides(round, op, cap))
            && Left(d, src, ip, buf, op, cap)[..|text|] == RoundLeft(d, src, ip, buf, op, cap)[..|text|]
  {
    hide Parse;
    hide AddRound;
    hide Decides;
    hide RoundLeft;
    hide Left;
    hide Run;
    RunOfRound(d, src, ip, buf[..op], true, cap);
    LeftOfRound(d, src, ip, buf, op, cap);
    var round := Parse(d, src, ip, op, cap);
    var text := AddRound(src, buf[..op], round, cap);
    if |text| < cap {
      LeftKeeps(d, src, round.next, RoundLeft(d, src, ip, buf, op, cap), |text|, cap);
      RunKeeps(d, src, round.next, text, Decides(round, op, cap), cap);
    }
  }

  /** A run through a round whose text the input does not decide, however it goes on. */
  lemma OpenBorder(d: Decoder, src: seq<byte>, ip: nat, buf: seq<byte>, op: nat, cap: nat, was: seq<byte>)
    requires ip <= |src| && op <= cap <= |buf| == |was|
    requires Run(d, src, ip, buf[..op], true, cap).Decoded?
    requires forall k :: op + COPYLENGTH <= k < |was| ==> buf[k] == was[k]
    requires var round := Parse(d, src, ip, op, cap); round.Literals? && !Decides(round, op, cap)
    ensures Meets(Left(d, src, ip, buf, op, cap), was, Run(d, src, ip, buf[..op], true, cap),
                  BorderOf(d, src, ip, op, cap))
  {
    hide Parse;
    hide AddRound;
    hide Decides;
    hide RoundLeft;
    hide Left;
    hide Run;
    hide Stepped;
    RoundText(d, src, ip, buf, op, cap);
    RoundStays(d, src, ip, buf, op, cap);
    var round, after := Parse(d, src, ip, op, cap), RoundLeft(d, src, ip, buf, op, cap);
    var text, at := AddRound(src, buf[..op], round, cap), op + Sure(round.to - round.from);
    SamePrefix(Left(d, src, ip, buf, op, cap), after, |text|, at);
    SamePrefix(Run(d, src, ip, buf[..op], true, cap).out, text, |text|, at);
  }

  lemma SamePrefix(a: seq<byte>, b: seq<byte>, n: nat, at: nat)
    requires at < n <= |a| && n <= |b| && a[..n] == b[..n]
    ensures a[..at] == b[..at] && a[at] == b[at]
  {
    assert a[..n][..at] == a[..at] && b[..n][..at] == b[..at] && a[..n][at] == a[at] && b[..n][at] == b[at];
  }

  /** From any point of a run on: no byte eight or more behind the cursor has been written yet. */
  lemma {:induction false} BorderFrom(d: Decoder, src: seq<byte>, ip: nat, buf: seq<byte>, op: nat, cap: nat,
                                      was: seq<byte>)
    requires ip <= |src| && op <= cap <= |buf| == |was|
    requires Run(d, src, ip, buf[..op], true, cap).Decoded?
    requires forall k :: op + COPYLENGTH <= k < |was| ==> buf[k] == was[k]
    ensures Meets(Left(d, src, ip, buf, op, cap), was, Run(d, src, ip, buf[..op], true, cap),
                  BorderOf(d, src, ip, op, cap))
    decreases |src| - ip
  {
    hide Parse;
    hide AddRound;
    hide Decides;
    hide RoundLeft;
    hide Left;
    hide Run;
    hide Meets;
    RunOfRound(d, src, ip, buf[..op], true, cap);
    LeftOfRound(d, src, ip, buf, op, cap);
    var round, after := Parse(d, src, ip, op, cap), RoundLeft(d, src, ip, buf, op, cap);
    if !round.Literals? {
      LastBorder(d, src, ip, buf, op, cap, was);
    } else {
      RoundText(d, src, ip, buf, op, cap);
      var text := AddRound(src, buf[..op], round, cap);
      if !Decides(round, op, cap) {
        OpenBorder(d, src, ip, buf, op, cap, was);
      } else if |text| < cap {
        BorderFrom(d, src, round.next, after, |text|, cap, was);
      } else {
        WholeMeets(after, was, round.next, text);
      }
    }
  }

  /** Every byte before the border is the input's; the byte at the border is what the output held before. */
  lemma OldBytes(d: Decoder, src: seq<byte>, cap: nat, was: seq<byte>)
    requires cap <= |was| && Decode(d, src, cap).Decoded?
    ensures Meets(Left(d, src, 0, was, 0, cap), was, Decode(d, src, cap), BorderOf(d, src, 0, 0, cap))
  {
    hide Run;
    hide Left;
    hide Meets;
    hide BorderOf;
    assert was[..0] == [];
    BorderFrom(d, src, 0, was, 0, cap, was);
  }

  /** The first `n` bytes of the output are the same whatever an output of `size` bytes held before. */
  ghost predicate Independent(d: Decoder, src: seq<byte>, cap: nat, size: nat, n: nat)
    requires cap <= size && n <= size
  {
    forall a: seq<byte>, b: seq<byte> :: |a| == size && |b| == size
      ==> Left(d, src, 0, a, 0, cap)[..n] == Left(d, src, 0, b, 0, cap)[..n]
  }

  /** The decoded text depends on the input alone exactly if every match at offset zero takes its bytes from the literals
      and their overshoot, and then it is the text of the reference decoder. */
  lemma ExactIsIndependent(d: Decoder, src: seq<byte>, cap: nat, size: nat)
    requires cap <= size && Decode(d, src, cap).Decoded?
    ensures var o := Decode(d, src, cap);
            && (o.exact <==> Independent(d, src, cap, size, |o.out|))
            && (o.exact <==> BorderOf(d, src, 0, 0, cap).Whole?)
  {
    hide Decode;
    hide Left;
    hide BorderOf;
    var o, border := Decode(d, src, cap), BorderOf(d, src, 0, 0, cap);
    var zeros, ones := Filled(size, 0), Filled(size, 1);
    OldBytes(d, src, cap, zeros);
    OldBytes(d, src, cap, ones);
    if o.exact {
      forall a: seq<byte>, b: seq<byte> | |a| == size && |b| == size
        ensures Left(d, src, 0, a, 0, cap)[..|o.out|] == Left(d, src, 0, b, 0, cap)[..|o.out|]
      {
        OldBytes(d, src, cap, a);
        OldBytes(d, src, cap, b);
      }
    } else {
      var a, b := Left(d, src, 0, zeros, 0, cap), Left(d, src, 0, ones, 0, cap);
      assert a[..|o.out|][border.at] == 0 && b[..|o.out|][border.at] == 1;
    }
  }

  function Filled(size: nat, b: byte): (s: seq<byte>)
    ensures |s| == size && forall k :: 0 <= k < size ==> s[k] == b
  {
    seq(size, _ => b)
  }

  /** The same for one round, over all outputs that agree on the text so far. */
  lemma RoundIsIndependent(d: Decoder, src: seq<byte>, ip: nat, op: nat, cap: nat, size: nat, out: seq<byte>)
    requires ip <= |src| && op <= cap <= size && |out| == op && Parse(d, src, ip, op, cap).Literals?
    ensures var r := Parse(d, src, ip, op, cap);
            var end := op + (r.to - r.from) + r.n;
            Decides(r, op, cap)
            <==> (forall a: seq<byte>, b: seq<byte> :: |a| == size && |b| == size && a[..op] == out && b[..op] == out
                    ==> RoundLeft(d, src, ip, a, op, cap)[..end] == RoundLeft(d, src, ip, b, op, cap)[..end])
  {
    hide Parse;
    hide RoundLeft;
    hide AddRound;
    hide Decides;
    var r := Parse(d, src, ip, op, cap);
    var end := op + (r.to - r.from) + r.n;
    if Decides(r, op, cap) {
      forall a: seq<byte>, b: seq<byte> | |a| == size && |b| == size && a[..op] == out && b[..op] == out
        ensures RoundLeft(d, src, ip, a, op, cap)[..end] == RoundLeft(d, src, ip, b, op, cap)[..end]
      {
        RoundText(d, src, ip, a, op, cap);
        RoundText(d, src, ip, b, op, cap);
      }
    } else {
      var zeros, ones := out + Filled(size - op, 0), out + Filled(size - op, 1);
      assert zeros[..op] == out && ones[..op] == out;
      RoundText(d, src, ip, zeros, op, cap);
      RoundText(d, src, ip, ones, op, cap);
      var a, b, at := RoundLeft(d, src, ip, zeros, op, cap), RoundLeft(d, src, ip, ones, op, cap), op + Sure(r.to - r.from);
      assert a[..end][at] == 0 && b[..end][at] == 1;
    }
  }

  /** Five literals, a match of four bytes at offset zero, and five last literals. */
  const OPEN: seq<byte> := [0x50, 1, 2, 3, 4, 5, 0, 0, 0x50, 6, 7, 8, 9, 10]

  lemma RoundsOfOpen(d: Decoder)
    ensures Parse(d, OPEN, 0, 0, 14) == Literals(1, 6, 0, 4, 8) && Parse(d, OPEN, 8, 9, 14) == Last(9, 14)
  {}

  /** Its first round leaves the offset, the next token, and one byte of the old output. */
  lemma FirstRoundOfOpen(was: seq<byte>, k: nat)
    requires |was| == 14 && k < 9
    ensures SequenceLeft(OPEN, was, 0, Literals(1, 6, 0, 4, 8), 14)[k] == [1, 2, 3, 4, 5, 0, 0, 0x50, was[8]][k]
  {
    hide MatchLeft;
    hide ZeroOrigin;
    hide Laid;
    var over := OPEN[1..9];
    assert over == [1, 2, 3, 4, 5, 0, 0, 0x50];
    ZeroOffset(Laid(was, 0, over), 5, 4, 14, k);
    LaidAt(was, 0, over, k);
  }

  lemma RunOfOpen(d: Decoder)
    ensures Decode(d, OPEN, 14).Decoded? && BorderOf(d, OPEN, 0, 0, 14) == Open(8, 8)
  {
    hide Parse;
    hide AddRound;
    RoundsOfOpen(d);
    RunOfRound(d, OPEN, 0, [], true, 14);
  }

  /** What both decoders leave of it in fourteen bytes. */
  lemma OpenKeepsOldByte(d: Decoder, was: seq<byte>)
    requires |was| == 14
    ensures Left(d, OPEN, 0, was, 0, 14) == [1, 2, 3, 4, 5, 0, 0, 0x50, was[8], 6, 7, 8, 9, 10]
  {
    hide Parse;
    hide SequenceLeft;
    RoundsOfOpen(d);
    var after := SequenceLeft(OPEN, was, 0, Literals(1, 6, 0, 4, 8), 14);
    forall k: nat | k < 9
      ensures after[k] == [1, 2, 3, 4, 5, 0, 0, 0x50, was[8]][k]
    {
      FirstRoundOfOpen(was, k);
    }
    LeftOfRound(d, OPEN, 0, was, 0, 14);
  }

  /** Two outputs, one of zeros and one of ones, and two results. */
  lemma TwoResults(d: Decoder)
    ensures Left(d, OPEN, 0, Filled(14, 0), 0, 14) == [1, 2, 3, 4, 5, 0, 0, 0x50, 0, 6, 7, 8, 9, 10]
    ensures Left(d, OPEN, 0, Filled(14, 1), 0, 14) == [1, 2, 3, 4, 5, 0, 0, 0x50, 1, 6, 7, 8, 9, 10]
  {
    OpenKeepsOldByte(d, Filled(14, 0));
    OpenKeepsOldByte(d, Filled(14, 1));
  }
}
