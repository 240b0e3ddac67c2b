/** The LZ4 block format: sequences, the text they expand to and the bytes that encode them. */
module Lz4Format {
  import opened Bytes

  const MINMATCH := 4
  const COPYLENGTH := 8
  const LASTLITERALS := 5
  const MFLIMIT := COPYLENGTH + MINMATCH
  const MINLENGTH := MFLIMIT + 1
  const MAX_DISTANCE := 65535

  /** Literals followed by a match of `extra + MINMATCH` bytes that starts `offset` bytes back. */
  datatype Sequence = Sequence(literals: seq<byte>, offset: nat, extra: nat) {
    function MatchLength(): nat { extra + MINMATCH }

    function Length(): nat { |literals| + MatchLength() }
  }

  // ---------- meaning ----------

  /** Appends `n` bytes, each equal to the byte `distance` places before it. */
  function CopyMatch(text: seq<byte>, distance: nat, n: nat): (r: seq<byte>)
    requires 1 <= distance <= |text|
    ensures |r| == |text| + n
    ensures r[..|text|] == text
    decreases n
  {
    if n == 0 then text else CopyMatch(text + [text[|text| - distance]], distance, n - 1)
  }

  /** Sequences that a decoder can expand after `pos` bytes of text of a block of `total` bytes: every match
      reaches back 1 to 65535 bytes inside the text, and the end of block conditions hold. */
  ghost predicate Legal(pos: nat, ss: seq<Sequence>, total: nat)
    decreases |ss|
  {
    ss == [] ||
    var start := pos + |ss[0].literals|;
    && 1 <= ss[0].offset <= MAX_DISTANCE
    && ss[0].offset <= start <= total - MFLIMIT
    && start + ss[0].MatchLength() <= total - LASTLITERALS
    && Legal(pos + ss[0].Length(), ss[1..], total)
  }

  /** The text after applying every sequence to `text`. */
  ghost function Expand(text: seq<byte>, ss: seq<Sequence>, total: nat): (r: seq<byte>)
    requires Legal(|text|, ss, total)
    decreases |ss|
  {
    if ss == [] then text
    else Expand(CopyMatch(text + ss[0].literals, ss[0].offset, ss[0].MatchLength()), ss[1..], total)
  }

  /** Where the text stands after `ss`, starting from `pos`. */
  function End(pos: nat, ss: seq<Sequence>): (end: nat)
    ensures end >= pos
    decreases |ss|
  {
    if ss == [] then pos else End(pos + ss[0].Length(), ss[1..])
  }

  // ---------- encoding ----------

  function Nibble(n: nat): (r: nat)
    ensures r <= 15
  {
    if n < 15 then n else 15
  }

  /** A length as a run of 255s closed by a smaller byte. */
  function Run255(n: nat): (r: seq<byte>)
    ensures |r| == n / 255 + 1
  {
    if n < 255 then [n] else [255] + Run255(n - 255)
  }

  /** The bytes that follow the token for a length that fills its nibble. */
  function LengthTail(n: nat): seq<byte> {
    if n < 15 then [] else Run255(n - 15)
  }

  function HeadBytes(literals: seq<byte>, low: nat): seq<byte>
    requires low <= 15
  {
    [16 * Nibble(|literals|) + low] + LengthTail(|literals|) + literals
  }

  function SequenceBytes(s: Sequence): seq<byte> {
    HeadBytes(s.literals, Nibble(s.extra)) + LittleEndian(s.offset, 2) + LengthTail(s.extra)
  }

  function SequencesBytes(ss: seq<Sequence>): seq<byte> {
    if ss == [] then [] else SequenceBytes(ss[0]) + SequencesBytes(ss[1..])
  }

  /** A whole block: the sequences, then a token with the last literals and no match. */
  function BlockBytes(ss: seq<Sequence>, last: seq<byte>): seq<byte> {
    SequencesBytes(ss) + HeadBytes(last, 0)
  }

  /** `s[from..to]` repeats the bytes `distance` places back. */
  ghost predicate Repeats(s: seq<byte>, from: nat, to: nat, distance: nat)
    requires distance <= from && to <= |s|
  {
    forall k :: from <= k < to ==> s[k] == s[k - distance]
  }

  // ---------- what a compressor run leaves behind ----------

  /** `s` encodes the part of `source` from `pos` on: its literals and its match are the source's own bytes, the
      end of block conditions hold, the match cannot be continued, and one that has literals before it cannot be
      started earlier. */
  ghost predicate IsStep(source: seq<byte>, pos: nat, s: Sequence) {
    var start := pos + |s.literals|;
    var end := pos + s.Length();
    && start <= |source| - MFLIMIT
    && end <= |source| - LASTLITERALS
    && s.literals == source[pos..start]
    && 1 <= s.offset <= MAX_DISTANCE
    && s.offset <= start
    && Repeats(source, start, end, s.offset)
    && (end == |source| - LASTLITERALS || source[end] != source[end - s.offset])
    && (s.literals == [] || start == s.offset || source[start - 1] != source[start - 1 - s.offset])
  }

  /** `ss` encodes `source` from `pos` up to `End(pos, ss)`, step by step. */
  ghost predicate Covers(source: seq<byte>, pos: nat, ss: seq<Sequence>)
    decreases |ss|
  {
    ss == [] || (IsStep(source, pos, ss[0]) && Covers(source, pos + ss[0].Length(), ss[1..]))
  }

  lemma {:induction false} CopyMatchIsPeriodic(text: seq<byte>, from: nat, distance: nat, n: nat)
    requires 1 <= distance <= from && from + n <= |text|
    requires Repeats(text, from, from + n, distance)
    ensures CopyMatch(text[..from], distance, n) == text[..from + n]
    decreases n
  {
    if n > 0 {
      assert text[..from] + [text[from - distance]] == text[..from + 1];
      CopyMatchIsPeriodic(text, from + 1, distance, n - 1);
    }
  }

  lemma {:induction false} CoversAppend(source: seq<byte>, pos: nat, ss: seq<Sequence>, s: Sequence)
    requires Covers(source, pos, ss) && IsStep(source, End(pos, ss), s)
    ensures Covers(source, pos, ss + [s])
    ensures End(pos, ss + [s]) == End(pos, ss) + s.Length()
    decreases |ss|
  {
    hide IsStep;
    if ss == [] {
      assert Covers(source, pos + s.Length(), []);
      assert ([s])[1..] == [];
    } else {
      CoversAppend(source, pos + ss[0].Length(), ss[1..], s);
      assert (ss + [s])[1..] == ss[1..] + [s];
    }
  }

  lemma {:induction false} SequencesBytesAppend(ss: seq<Sequence>, s: Sequence)
    ensures SequencesBytes(ss + [s]) == SequencesBytes(ss) + SequenceBytes(s)
  {
    hide SequenceBytes;
    if ss == [] {
      assert ([s])[1..] == [];
    } else {
      SequencesBytesAppend(ss[1..], s);
      assert (ss + [s])[1..] == ss[1..] + [s];
    }
  }

  /** Applying a step to the source up to `pos` gives the source up to the end of its match. */
  lemma StepExpands(source: seq<byte>, pos: nat, s: Sequence)
    requires pos <= |source| && IsStep(source, pos, s)
    ensures var start := pos + |s.literals|;
            && 1 <= s.offset <= MAX_DISTANCE && s.offset <= start <= |source| - MFLIMIT
            && pos + s.Length() <= |source| - LASTLITERALS
            && CopyMatch(source[..pos] + s.literals, s.offset, s.MatchLength()) == source[..pos + s.Length()]
  {
    var start := pos + |s.literals|;
    assert source[..pos] + s.literals == source[..start];
    CopyMatchIsPeriodic(source, start, s.offset, s.MatchLength());
  }

  /** What a compressor run leaves behind is legal and expands to the source. */
  lemma {:induction false} CoversExpands(source: seq<byte>, pos: nat, ss: seq<Sequence>)
    requires pos <= |source| && Covers(source, pos, ss)
    ensures Legal(pos, ss, |source|)
    ensures End(pos, ss) <= |source|
    ensures Expand(source[..pos], ss, |source|) == source[..End(pos, ss)]
    ensures ss != [] ==> End(pos, ss) <= |source| - LASTLITERALS
    decreases |ss|
  {
    hide IsStep;
    hide CopyMatch;
    if ss != [] {
      StepExpands(source, pos, ss[0]);
      CoversExpands(source, pos + ss[0].Length(), ss[1..]);
    }
  }

  // ---------- size ----------

  /** `LZ4_compressBound`. */
  function CompressBound(isize: nat): nat {
    isize + isize / 255 + 16
  }

  lemma TailLength(n: nat)
    ensures |LengthTail(n)| == if n < 15 then 0 else (n - 15) / 255 + 1
  {}

  lemma SequenceSize(s: Sequence)
    ensures 255 * |SequenceBytes(s)| <= 256 * s.Length()
  {
    TailLength(|s.literals|);
    TailLength(s.extra);
  }

  /** The amortised bound: 255 encoded bytes are paid for by 256 bytes of text. */
  lemma {:induction false} EncodedSize(pos: nat, ss: seq<Sequence>)
    ensures 255 * |SequencesBytes(ss)| <= 256 * (End(pos, ss) - pos)
    decreases |ss|
  {
    if ss != [] {
      SequenceSize(ss[0]);
      EncodedSize(pos + ss[0].Length(), ss[1..]);
    }
  }
}
