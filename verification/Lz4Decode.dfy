/** The two decoders, for every input, malformed ones included. Line numbers are those of memapass/lz4.c. */
module Lz4Decode {
  import opened Bytes
  import opened Lz4Format
  import opened Lz4Word
  import opened Lz4Copy
  import opened Lz4ZeroOffset

  // ---------- reference: what a decoder does with a byte string ----------

  /** A length read at some place: its value, where reading goes on, and whether a byte below 255 closed it. */
  datatype Length = Length(value: nat, next: nat, closed: bool)

  /** Bytes are summed up to the first one below 255, or to the end of the input. */
  function ReadRun(src: seq<byte>, ip: nat): (r: Length)
    requires ip <= |src|
    ensures ip <= r.next <= |src| && r.value <= 255 * (r.next - ip)
    decreases |src| - ip
  {
    if ip == |src| then Length(0, ip, false)
    else if src[ip] != 255 then Length(src[ip], ip + 1, true)
    else var rest := ReadRun(src, ip + 1); Length(255 + rest.value, rest.next, rest.closed)
  }

  /** A length whose nibble was in the token. It fits an `int` unless the input holds more than eight million length
      bytes. */
  function ReadLength(src: seq<byte>, nibble: nat, ip: nat): (r: Length)
    requires ip <= |src|
    ensures ip <= r.next <= |src|
    ensures nibble <= 15 ==> r.value <= 15 + 255 * (r.next - ip)
    ensures nibble <= 15 && |src| < 8421504 ==> r.value < 0x8000_0000
  {
    if nibble != 15 then Length(nibble, ip, true)
    else var run := ReadRun(src, ip); Length(15 + run.value, run.next, run.closed)
  }

  /** Which decoder runs: `LZ4_uncompress`, told the output size, or `LZ4_uncompress_unknownOutputSize`. */
  datatype Decoder = Known | Unknown

  /** One round: the last literals `src[from..to]`; literals and a match, with the next round at `next`; an error at
      byte `at`; the end of the input where a token could be; or a read past the input. */
  datatype Round =
    | Last(from: nat, to: nat)
    | Literals(from: nat, to: nat, offset: nat, n: nat, next: nat)
    | Bad(at: nat)
    | AtEnd
    | Past

  /** What a round of literals and a match keeps to, with `size` bytes written and room for `cap`. */
  predicate Fits(r: Round, src: seq<byte>, size: nat, cap: nat)
    requires r.Literals?
  {
    && r.from <= r.to < r.next <= |src| && MINMATCH <= r.n
    && size + (r.to - r.from) + r.n <= cap && size + (r.to - r.from) + COPYLENGTH <= cap
    && r.from + Stepped(r.to - r.from) <= |src|
    && r.offset <= size + (r.to - r.from)
  }

  /** The round at byte `ip` with `size` bytes written and room for `cap`. */
  function Parse(d: Decoder, src: seq<byte>, ip: nat, size: nat, cap: nat): (r: Round)
    requires ip <= |src| && size <= cap
    ensures r.Last? ==> ip < r.from <= r.to <= |src| && size + r.to - r.from <= cap
    ensures r.Literals? ==> ip < r.from && Fits(r, src, size, cap)
    ensures r.Bad? ==> ip < r.at <= |src|
    ensures d.Unknown? ==> !r.Past?
    ensures r.AtEnd? <==> d.Unknown? && ip == |src|
  {
    if ip == |src| then (if d.Known? then Past else AtEnd) else
    var lits := ReadLength(src, src[ip] / 16, ip + 1);
    if d.Known? && !lits.closed then Past else
    var to := lits.next + lits.value;
    var pos := size + lits.value;
    if pos > cap - COPYLENGTH || (d.Unknown? && to > |src| - COPYLENGTH) then
      ParseLast(d, src, lits.next, to, pos, cap)
    else if lits.next + Stepped(lits.value) > |src| || to + 2 > |src| then Past
    else ParseMatch(d, src, src[ip] % 16, lits.next, to, pos, cap)
  }

  /** Literals too close to the end of the output, or of the input, to be followed by a match. */
  function ParseLast(d: Decoder, src: seq<byte>, from: nat, to: nat, pos: nat, cap: nat): (r: Round)
    requires from <= to
    ensures r.Last? ==> r.from == from && r.to == to <= |src| && pos <= cap
    ensures r.Bad? ==> from <= r.at && (from <= |src| ==> r.at <= |src|)
    ensures r.Past? ==> d.Known?
    ensures r.Last? || r.Bad? || r.Past?
  {
    if pos > cap then Bad(from)
    else if to > |src| then (if d.Known? then Past else Bad(from))
    else if d.Unknown? && to < |src| then Bad(to)
    else Last(from, to)
  }

  function ParseMatch(d: Decoder, src: seq<byte>, nibble: nat, from: nat, to: nat, pos: nat, cap: nat): (r: Round)
    requires from <= to && to + 2 <= |src|
    ensures r.Literals? ==> && r.from == from && r.to == to < r.next <= |src| && MINMATCH <= r.n
                            && pos + r.n <= cap && r.offset <= pos
    ensures r.Bad? ==> from < r.at <= |src|
    ensures r.Past? ==> d.Known?
    ensures !r.AtEnd? && !r.Last?
  {
    var offset := A16(src, to);
    if offset > pos then Bad(to + 2) else
    var more := ReadLength(src, nibble, to + 2);
    if d.Known? && !more.closed then Past
    else if pos + more.value + MINMATCH > cap then Bad(more.next)
    else Literals(from, to, offset, more.value + MINMATCH, more.next)
  }

  /** The bytes of a match at offset zero in the round of the literals `src[from..to]`: those the input decides. The
      others, which are whatever the output held, stand as 0. */
  function ZeroText(src: seq<byte>, from: nat, to: nat, op: nat, n: nat, cap: nat): (r: seq<byte>)
    requires from <= to && from + Stepped(to - from) <= |src| && op + (to - from) + COPYLENGTH <= cap
    ensures |r| == n
  {
    var pos := op + (to - from);
    seq(n, i requires 0 <= i < n =>
      var at: nat := ZeroOrigin(pos, n, cap, pos + i) - op;
      if at < Stepped(to - from) then src[from + at] else 0)
  }

  /** The text after a round of literals and a match. */
  function AddRound(src: seq<byte>, out: seq<byte>, r: Round, cap: nat): (text: seq<byte>)
    requires r.Literals? && Fits(r, src, |out|, cap)
    ensures |text| == |out| + (r.to - r.from) + r.n && text[..|out|] == out
  {
    var text := out + src[r.from..r.to];
    if r.offset == 0 then text + ZeroText(src, r.from, r.to, |out|, r.n, cap)
    else CopyMatch(text, r.offset, r.n)
  }

  /** Whether the input decides all of that text. */
  predicate Decides(r: Round, size: nat, cap: nat)
    requires r.Literals? && r.from <= r.to && size + (r.to - r.from) <= cap
  {
    r.offset != 0 || ZeroIsFixed(r.to - r.from, r.n, cap - (size + (r.to - r.from)))
  }

  /** How a decoder ends: with `out` after reading `read` bytes, with an error at byte `at`, or by reading past the
      input, which only `LZ4_uncompress` can do. `exact` is false if the input does not decide all of `out`, which
      takes a match at offset zero. */
  datatype Outcome =
    | Decoded(read: nat, out: seq<byte>, exact: bool)
    | Malformed(at: nat)
    | PastInput

  /** A decoder at byte `ip` with `out` already written. It stops after the last literals, at an error, or when the
      output is full after a match. */
  function Run(d: Decoder, src: seq<byte>, ip: nat, out: seq<byte>, exact: bool, cap: nat): (r: Outcome)
    requires ip <= |src| && |out| <= cap
    ensures r.Decoded? ==> ip <= r.read <= |src| && |out| <= |r.out| <= cap
    ensures r.Malformed? ==> ip < r.at <= |src|
    ensures d.Unknown? ==> !r.PastInput?
    decreases |src| - ip
  {
    var round := Parse(d, src, ip, |out|, cap);
    match round
    case Last(from, to) => Decoded(to, out + src[from..to], exact)
    case Literals(_, _, _, _, next) =>
      var text, decided := AddRound(src, out, round, cap), exact && Decides(round, |out|, cap);
      if |text| == cap then Decoded(next, text, decided) else Run(d, src, next, text, decided, cap)
    case Bad(at) => Malformed(at)
    case AtEnd => Decoded(ip, out, exact)
    case Past => PastInput
  }

  /** What the decoder makes of a whole input. */
  function Decode(d: Decoder, src: seq<byte>, cap: nat): (r: Outcome)
    ensures d.Unknown? ==> !r.PastInput?
    ensures r.Decoded? ==> r.read <= |src| && |r.out| <= cap
    ensures r.Malformed? ==> 0 < r.at <= |src|
  {
    Run(d, src, 0, [], true, cap)
  }

  /** The decoder that knows its input size has read all of it, unless a match has filled the output. */
  lemma {:induction false} RunReadsAll(src: seq<byte>, ip: nat, out: seq<byte>, exact: bool, cap: nat)
    requires ip <= |src| && |out| <= cap
    ensures var r := Run(Unknown, src, ip, out, exact, cap);
            r.Decoded? ==> r.read == |src| || |r.out| == cap
    decreases |src| - ip
  {
    RunOfRound(Unknown, src, ip, out, exact, cap);
    LastReadsAll(src, ip, |out|, cap);
    hide Parse;
    hide Run;
    hide AddRound;
    hide Decides;
    var round := Parse(Unknown, src, ip, |out|, cap);
    if round.Literals? {
      var text := AddRound(src, out, round, cap);
      if |text| < cap { RunReadsAll(src, round.next, text, exact && Decides(round, |out|, cap), cap); }
    }
  }

  lemma LastReadsAll(src: seq<byte>, ip: nat, size: nat, cap: nat)
    requires ip <= |src| && size <= cap
    ensures var r := Parse(Unknown, src, ip, size, cap); r.Last? ==> r.to == |src|
  {}

  // ---------- what is left in the output ----------

  /** The output after a round of literals and a match. */
  function SequenceLeft(src: seq<byte>, buf: seq<byte>, op: nat, r: Round, cap: nat): (after: seq<byte>)
    requires r.Literals? && Fits(r, src, op, cap) && cap <= |buf|
    ensures |after| == |buf|
  {
    var length := r.to - r.from;
    MatchLeft(Laid(buf, op, src[r.from..r.from + Stepped(length)]), op + length, r.offset, r.n, cap)
  }

  /** The output after a round that writes. */
  function RoundLeft(d: Decoder, src: seq<byte>, ip: nat, buf: seq<byte>, op: nat, cap: nat): (r: seq<byte>)
    requires ip <= |src| && op <= cap <= |buf|
    ensures |r| == |buf|
  {
    var round := Parse(d, src, ip, op, cap);
    match round
    case Last(from, to) => Laid(buf, op, src[from..to])
    case Literals(_, _, _, _, _) => SequenceLeft(src, buf, op, round, cap)
    case _ => buf
  }

  /** The whole output after a run that ends without an error: what it was before, with every copy made over it, the
      bytes copied too far included. After a match with offset zero some of what was there before is part of the text. */
  function Left(d: Decoder, src: seq<byte>, ip: nat, buf: seq<byte>, op: nat, cap: nat): (r: seq<byte>)
    requires ip <= |src| && op <= cap <= |buf|
    ensures |r| == |buf|
    decreases |src| - ip
  {
    var round, text := Parse(d, src, ip, op, cap), RoundLeft(d, src, ip, buf, op, cap);
    if round.Literals? && op + (round.to - round.from) + round.n < cap
    then Left(d, src, round.next, text, op + (round.to - round.from) + round.n, cap)
    else text
  }

  lemma RunOfRound(d: Decoder, src: seq<byte>, ip: nat, out: seq<byte>, exact: bool, cap: nat)
    requires ip <= |src| && |out| <= cap
    ensures var round := Parse(d, src, ip, |out|, cap);
            Run(d, src, ip, out, exact, cap)
            == match round
               case Last(from, to) => Decoded(to, out + src[from..to], exact)
               case Literals(_, _, _, _, next) =>
                 var text, decided := AddRound(src, out, round, cap), exact && Decides(round, |out|, cap);
                 if |text| == cap then Decoded(next, text, decided) else Run(d, src, next, text, decided, cap)
               case Bad(at) => Malformed(at)
               case AtEnd => Decoded(ip, out, exact)
               case Past => PastInput
  {
    hide Parse;
    hide AddRound;
    hide Decides;
  }

  lemma LeftOfRound(d: Decoder, src: seq<byte>, ip: nat, buf: seq<byte>, op: nat, cap: nat)
    requires ip <= |src| && op <= cap <= |buf|
    ensures var round, text := Parse(d, src, ip, op, cap), RoundLeft(d, src, ip, buf, op, cap);
            Left(d, src, ip, buf, op, cap)
            == if round.Literals? && op + (round.to - round.from) + round.n < cap
               then Left(d, src, round.next, text, op + (round.to - round.from) + round.n, cap)
               else text
  {
    hide Parse;
    hide RoundLeft;
  }

  /** One byte of the output after the literals and a match at offset zero: the text's, or one that stood behind the
      overshoot of the literals. */
  lemma ZeroRoundAt(src: seq<byte>, buf: seq<byte>, op: nat, from: nat, length: nat, n: nat, cap: nat, k: nat)
    requires from + Stepped(length) <= |src|
    requires op + length + n <= cap <= |buf| && op + length + COPYLENGTH <= cap && k < op + length + n
    ensures var after := MatchLeft(Laid(buf, op, src[from..from + Stepped(length)]), op + length, 0, n, cap);
            var text := buf[..op] + src[from..from + length] + ZeroText(src, from, from + length, op, n, cap);
            var origin := ZeroOrigin(op + length, n, cap, k);
            after[k] == if origin < op + Stepped(length) then text[k] else buf[origin]
  {
    hide MatchLeft;
    hide ZeroOrigin;
    hide Stepped;
    var laid := Laid(buf, op, src[from..from + Stepped(length)]);
    ZeroOffset(laid, op + length, n, cap, k);
    LaidAt(buf, op, src[from..from + Stepped(length)], ZeroOrigin(op + length, n, cap, k));
  }

  lemma LaidAt(s: seq<byte>, op: nat, bytes: seq<byte>, k: nat)
    requires op + |bytes| <= |s| && k < |s|
    ensures Laid(s, op, bytes)[k] == if op <= k < op + |bytes| then bytes[k - op] else s[k]
  {}

  lemma OutsideOfBoth(a: seq<byte>, b: seq<byte>, c: seq<byte>, from: nat, mid: nat, to: nat, end: nat)
    requires SameOutside(a, b, from, mid) && mid <= end && SameOutside(b, c, from, to) && to <= end
    ensures SameOutside(a, c, from, end)
  {}

  lemma LaidOutside(s: seq<byte>, op: nat, bytes: seq<byte>)
    requires op + |bytes| <= |s|
    ensures SameOutside(s, Laid(s, op, bytes), op, op + |bytes|)
  {}

  /** A round writes at most eight bytes behind its text, and at a legal offset the text itself. */
  lemma LegalRound(src: seq<byte>, buf: seq<byte>, op: nat, r: Round, cap: nat)
    requires r.Literals? && Fits(r, src, op, cap) && cap <= |buf|
    ensures var after, text := SequenceLeft(src, buf, op, r, cap), AddRound(src, buf[..op], r, cap);
            && SameOutside(buf, after, op, |text| + COPYLENGTH)
            && (r.offset != 0 ==> after[..|text|] == text)
  {
    hide MatchLeft;
    hide CopyMatch;
    hide Laid;
    hide ZeroText;
    hide Stepped;
    var length := r.to - r.from;
    var over := src[r.from..r.from + Stepped(length)];
    var laid, after := Laid(buf, op, over), SequenceLeft(src, buf, op, r, cap);
    var end := op + length + r.n;
    LaidMeans(buf, op, over, length);
    assert over[..length] == src[r.from..r.to];
    MatchLeftIsCopy(laid, op + length, r.offset, r.n, cap);
    assert SameOutside(buf, after, op, end + COPYLENGTH) by {
      LaidOutside(buf, op, over);
      OutsideOfBoth(buf, laid, after, op, op + |over|, MatchReach(op + length, r.n, cap), end + COPYLENGTH);
    }
  }

  /** A round at offset zero adds its text exactly if the input decides it; otherwise it does so up to a byte that the
      output held before. */
  lemma ZeroRound(src: seq<byte>, buf: seq<byte>, op: nat, r: Round, cap: nat)
    requires r.Literals? && Fits(r, src, op, cap) && cap <= |buf| && r.offset == 0
    ensures var after, text := SequenceLeft(src, buf, op, r, cap), AddRound(src, buf[..op], r, cap);
            var length := r.to - r.from;
            if Decides(r, op, cap) then after[..|text|] == text
            else && op + Sure(length) < |text|
                 && after[..op + Sure(length)] == text[..op + Sure(length)]
                 && after[op + Sure(length)] == buf[op + Stepped(length)]
  {
    hide MatchLeft;
    hide ZeroOrigin;
    hide ZeroIsFixed;
    hide Sure;
    hide Laid;
    hide CopyMatch;
    hide ZeroText;
    hide Stepped;
    var after, text, length := SequenceLeft(src, buf, op, r, cap), AddRound(src, buf[..op], r, cap), r.to - r.from;
    assert r.to == r.from + length;
    if !Decides(r, op, cap) {
      FirstFree(op, length, r.n, cap);
      ZeroRoundAt(src, buf, op, r.from, length, r.n, cap, op + Sure(length));
    }
    forall k | 0 <= k < |text| && (Decides(r, op, cap) || k < op + Sure(length))
      ensures after[k] == text[k]
    {
      FixedOrigins(op, length, r.n, cap, k);
      ZeroRoundAt(src, buf, op, r.from, length, r.n, cap, k);
    }
  }

  /** What any round of literals and a match leaves, told by its text. */
  lemma RoundText(d: Decoder, src: seq<byte>, ip: nat, buf: seq<byte>, op: nat, cap: nat)
    requires ip <= |src| && op <= cap <= |buf| && Parse(d, src, ip, op, cap).Literals?
    ensures var r, after := Parse(d, src, ip, op, cap), RoundLeft(d, src, ip, buf, op, cap);
            var text, length := AddRound(src, buf[..op], r, cap), r.to - r.from;
            && SameOutside(buf, after, op, |text| + COPYLENGTH)
            && if Decides(r, op, cap) then after[..|text|] == text
               else && op + Sure(length) < |text|
                    && after[..op + Sure(length)] == text[..op + Sure(length)]
                    && after[op + Sure(length)] == buf[op + Stepped(length)]
  {
    hide Parse;
    hide AddRound;
    hide SequenceLeft;
    hide Sure;
    hide Stepped;
    hide ZeroIsFixed;
    var r := Parse(d, src, ip, op, cap);
    LegalRound(src, buf, op, r, cap);
    if r.offset == 0 { ZeroRound(src, buf, op, r, cap); }
  }

  // ---------- the decoders ----------

  /** Lines 713, 731, 799 and 820: a length that fills its nibble goes on as a run of bytes. */
  method ReadLengthAt(src: seq<byte>, nibble: nat, ip: nat) returns (r: Length)
    requires ip <= |src|
    ensures r == ReadLength(src, nibble, ip)
  {
    if nibble != 15 { return Length(nibble, ip, true); }
    var s, value: nat, next: nat := 255, 15, ip;
    while next < |src| && s == 255
      invariant ip <= next <= |src|
      invariant 0 <= s <= 255
      invariant var rest := if s == 255 then ReadRun(src, next) else Length(0, next, true);
                ReadLength(src, nibble, ip) == Length(value + rest.value, rest.next, rest.closed)
    {
      s := src[next];
      next, value := next + 1, value + s;
    }
    r := Length(value, next, s != 255);
  }

  /** Lines 726-761 and 815-850: offset, match length and match, after the literals `src[from..to]`. */
  method DecodeMatch(d: Decoder, src: seq<byte>, nibble: nat, from: nat, to: nat, dest: array<byte>, pos: nat, cap: nat)
    returns (r: Round)
    requires from <= to && to + 2 <= |src| && pos + COPYLENGTH <= cap <= dest.Length
    requires !ParseMatch(d, src, nibble, from, to, pos, cap).Past?
    modifies dest
    ensures r == ParseMatch(d, src, nibble, from, to, pos, cap)
    ensures KeptFrom(dest, cap)
    ensures r.Literals? && r.offset != 0 ==> dest[..pos + r.n] == CopyMatch(old(dest[..pos]), r.offset, r.n)
    ensures r.Literals? ==> dest[..] == MatchLeft(old(dest[..]), pos, r.offset, r.n, cap)
  {
    hide MatchLeft;
    var offset := A16(src, to);
    if offset > pos { return Bad(to + 2); }
    var more := ReadLengthAt(src, nibble, to + 2);
    var n := more.value + MINMATCH;
    var fits := CopyMatchInPlace(dest, pos, offset, n, cap);
    r := if fits then Literals(from, to, offset, n, more.next) else Bad(more.next);
  }

  /** Lines 717-723 and 803-812: the last literals, unless they do not fit. */
  method DecodeLast(d: Decoder, src: seq<byte>, from: nat, to: nat, dest: array<byte>, op: nat, cap: nat)
    returns (r: Round, newOp: nat)
    requires from <= to && from <= |src| && op <= cap <= dest.Length
    requires !ParseLast(d, src, from, to, op + (to - from), cap).Past?
    modifies dest
    ensures r == ParseLast(d, src, from, to, op + (to - from), cap)
    ensures KeptFrom(dest, cap)
    ensures r.Last? ==> Appended(dest, op, newOp, src[from..to]) && dest[..] == Laid(old(dest[..]), op, src[from..to])
  {
    hide Laid;
    newOp := op;
    if op + (to - from) > cap { return Bad(from), op; }
    if to > |src| { return Bad(from), op; }
    newOp := CopyLiterals(src, from, dest, op, to - from);
    if d.Unknown? && to < |src| { return Bad(to), newOp; }
    r := Last(from, to);
  }

  /** Lines 723-761 and 812-850: literals that a match follows. */
  method DecodeSequence(d: Decoder, src: seq<byte>, nibble: nat, from: nat, length: nat, dest: array<byte>, op: nat,
                        cap: nat)
    returns (r: Round, newOp: nat)
    requires from + Stepped(length) <= |src| && from + length + 2 <= |src|
    requires op + length + COPYLENGTH <= cap <= dest.Length
    requires !ParseMatch(d, src, nibble, from, from + length, op + length, cap).Past?
    modifies dest
    ensures r == ParseMatch(d, src, nibble, from, from + length, op + length, cap)
    ensures KeptFrom(dest, cap)
    ensures r.Literals? ==> newOp == op + length + r.n
    ensures r.Literals? && r.offset != 0 ==>
              dest[..newOp] == CopyMatch(old(dest[..op]) + src[from..from + length], r.offset, r.n)
    ensures r.Literals? ==> dest[..] == SequenceLeft(src, old(dest[..]), op, r, cap)
  {
    hide Laid;
    hide MatchLeft;
    hide ReadLength;
    hide ParseMatch;
    hide CopyMatch;
    newOp := WildCopy(src, from, dest, op, length, cap);
    r := DecodeMatch(d, src, nibble, from, from + length, dest, newOp, cap);
    if r.Literals? { newOp := newOp + r.n; }
  }

  /** Lines 793-850 and 711-761: one round in the order of the code. */
  method DecodeRound(d: Decoder, src: seq<byte>, ip: nat, dest: array<byte>, op: nat, cap: nat)
    returns (r: Round, newOp: nat)
    requires ip <= |src| && op <= cap <= dest.Length
    requires !Parse(d, src, ip, op, cap).Past?
    modifies dest
    ensures r == Parse(d, src, ip, op, cap)
    ensures KeptFrom(dest, cap)
    ensures r.Last? ==> Appended(dest, op, newOp, src[r.from..r.to])
    ensures r.Literals? ==> newOp == op + (r.to - r.from) + r.n
    ensures r.Literals? && r.offset != 0 ==>
              dest[..newOp] == CopyMatch(old(dest[..op]) + src[r.from..r.to], r.offset, r.n)
    ensures r.AtEnd? ==> newOp == op && dest[..op] == old(dest[..op])
    ensures !r.Bad? ==> dest[..] == RoundLeft(d, src, ip, old(dest[..]), op, cap)
  {
    hide Laid;
    hide SequenceLeft;
    hide CopyMatch;
    hide ReadLength;
    hide ParseLast;
    hide ParseMatch;
    newOp := op;
    if d.Unknown? && ip == |src| { return AtEnd, op; }
    var token := src[ip];
    var lits := ReadLengthAt(src, token / 16, ip + 1);
    var from, length := lits.next, lits.value;
    var to := from + length;
    if op + length > cap - COPYLENGTH || (d.Unknown? && to > |src| - COPYLENGTH) {
      r, newOp := DecodeLast(d, src, from, to, dest, op, cap);
      return;
    }
    r, newOp := DecodeSequence(d, src, token % 16, from, length, dest, op, cap);
  }

  /** The loop of either decoder: `ok` says whether it fell out of the loop or jumped to the error exit. The decoder
      that trusts its input may only be called on input it does not read past. */
  method DecodeLoop(d: Decoder, src: seq<byte>, dest: array<byte>, cap: nat) returns (ok: bool, ip: nat, op: nat)
    requires cap <= dest.Length && !Decode(d, src, cap).PastInput?
    modifies dest
    ensures KeptFrom(dest, cap)
    ensures var o := Decode(d, src, cap);
            if ok then o.Decoded? && ip == o.read && op == |o.out| && (o.exact ==> dest[..op] == o.out)
                       && dest[..] == Left(d, src, 0, old(dest[..]), 0, cap)
            else o.Malformed? && ip == o.at
  {
    hide Parse;
    hide RoundLeft;
    hide Left;
    hide Run;
    hide AddRound;
    hide Decides;
    hide SequenceLeft;
    hide CopyMatch;
    ip, op := 0, 0;
    ghost var out, exact := [], true;
    while true
      invariant ip <= |src| && op == |out| <= cap
      invariant exact ==> dest[..op] == out
      invariant Run(d, src, ip, out, exact, cap) == Decode(d, src, cap)
      invariant KeptFrom(dest, cap)
      invariant Left(d, src, ip, dest[..], op, cap) == Left(d, src, 0, old(dest[..]), 0, cap)
      decreases |src| - ip
    {
      LeftOfRound(d, src, ip, dest[..], op, cap);
      RunOfRound(d, src, ip, out, exact, cap);
      ghost var before, start := dest[..], op;
      var r;
      r, op := DecodeRound(d, src, ip, dest, op, cap);
      match r
      case Last(_, to) => return true, to, op;
      case Bad(at) => return false, at, op;
      case AtEnd => return true, ip, op;
      case Literals(from, to, offset, n, next) =>
        RoundText(d, src, ip, before, start, cap);
        assert exact ==> before[..start] == out;
        assert dest[..][..op] == dest[..op];
        out, exact := AddRound(src, out, r, cap), exact && Decides(r, start, cap);
        ip := next;
        if op == cap { return true, ip, op; }
    }
  }

  /** `LZ4_uncompress`: the bytes read, or minus the place of the error. */
  method Uncompress(src: seq<byte>, dest: array<byte>, osize: nat) returns (r: int)
    requires osize <= dest.Length && !Decode(Known, src, osize).PastInput?
    modifies dest
    ensures KeptFrom(dest, osize)
    ensures match Decode(Known, src, osize)
            case Decoded(read, out, exact) => r == read && (exact ==> dest[..|out|] == out)
                                              && dest[..] == Left(Known, src, 0, old(dest[..]), 0, osize)
            case Malformed(at) => r == 0 - at
            case PastInput => false
  {
    var ok: bool, ip: int, op: int := DecodeLoop(Known, src, dest, osize);
    r := ip;
    if !ok { r := 0 - ip; }
  }

  /** `LZ4_uncompress_unknownOutputSize`: the bytes decoded, or minus the place of the error, for any input. */
  method UncompressUnknownOutputSize(src: seq<byte>, dest: array<byte>, maxOutputSize: nat) returns (r: int)
    requires maxOutputSize <= dest.Length
    modifies dest
    ensures KeptFrom(dest, maxOutputSize)
    ensures -|src| <= r <= maxOutputSize
    ensures match Decode(Unknown, src, maxOutputSize)
            case Decoded(read, out, exact) => r == |out| && (exact ==> dest[..r] == out)
                                              && dest[..] == Left(Unknown, src, 0, old(dest[..]), 0, maxOutputSize)
                                              && (read == |src| || r == maxOutputSize)
            case Malformed(at) => r == 0 - at
            case PastInput => false
  {
    RunReadsAll(src, 0, [], true, maxOutputSize);
    var ok: bool, ip: int, op: int := DecodeLoop(Unknown, src, dest, maxOutputSize);
    r := op;
    if !ok { r := 0 - ip; }
  }
}
