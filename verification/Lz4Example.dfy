/** Texts followed through the compressors: "abcdefgh" over and over, of every length. */
module Lz4Example {
  import opened Bytes
  import opened Lz4Format
  import opened Lz4Word
  import opened Lz4Search
  import opened Lz4Limit
  import opened Lz4Compress

  /** "abcdefghabcdefgh..." */
  function Text(n: nat): (s: seq<byte>)
    ensures |s| == n && forall i :: 0 <= i < n ==> s[i] == 97 + i % 8
  {
    seq(n, i requires 0 <= i < n => 97 + i % 8)
  }

  /** Eight literals and a match at distance eight up to the last five bytes. */
  function Only(n: nat): Sequence
    requires n >= 21
  {
    Sequence(Text(8), 8, n - 17)
  }

  const WORDS: seq<nat> := [1684234849, 1701077858, 1717920867, 1734763876, 1751606885, 1634232166, 1650550887, 1667391848]

  lemma TextWords(n: nat, p: nat)
    requires p <= 8 && p + 4 <= n
    ensures A32(Text(n), p) == WORDS[p % 8]
  {
    hide Text;
    assert p == 0 || p == 1 || p == 2 || p == 3 || p == 4 || p == 5 || p == 6 || p == 7 || p == 8;
  }

  lemma BucketIs(word: nat, turns: nat, product: nat)
    requires word * MULTIPLIER == turns * 0x1_0000_0000 + product && product < 0x1_0000_0000
    ensures U32.Bucket(word) == product / 0x10_0000 && U16.Bucket(word) == product / 0x8_0000
  {
    Remainder(word * MULTIPLIER, turns, product);
  }

  lemma Remainder(n: nat, turns: nat, rest: nat)
    requires n == turns * 0x1_0000_0000 + rest && rest < 0x1_0000_0000
    ensures n % 0x1_0000_0000 == rest
  {}

  lemma WordBuckets()
    ensures U32.Bucket(1684234849) == 1584 && U16.Bucket(1684234849) == 3169
    ensures U32.Bucket(1701077858) == 1591 && U16.Bucket(1701077858) == 3182
    ensures U32.Bucket(1717920867) == 1597 && U16.Bucket(1717920867) == 3194
    ensures U32.Bucket(1734763876) == 1603 && U16.Bucket(1734763876) == 3206
    ensures U32.Bucket(1751606885) == 1609 && U16.Bucket(1751606885) == 3218
    ensures U32.Bucket(1634232166) == 3535 && U16.Bucket(1634232166) == 7071
    ensures U32.Bucket(1650550887) == 253 && U16.Bucket(1650550887) == 506
    ensures U32.Bucket(1667391848) == 1350 && U16.Bucket(1667391848) == 2700
  {
    hide Width.Bucket;
    BucketIs(1684234849, 1040914378, 1661853201);
    BucketIs(1701077858, 1051323930, 1668286658);
    BucketIs(1717920867, 1061733482, 1674720115);
    BucketIs(1734763876, 1072143034, 1681153572);
    BucketIs(1751606885, 1082552586, 1687587029);
    BucketIs(1634232166, 1010011020, 3707286406);
    BucketIs(1650550887, 1020096545, 265477687);
    BucketIs(1667391848, 1030504831, 1416069352);
  }

  /** The entries of the first nine positions: the last is that of the first, and of no other. */
  lemma TextHashes(w: Width, n: nat, p: nat)
    requires p <= 8 && p + 4 <= n
    ensures w.Hash(Text(n), p) == (if w.U32? then [1584, 1591, 1597, 1603, 1609, 3535, 253, 1350]
                                   else [3169, 3182, 3194, 3206, 3218, 7071, 506, 2700])[p % 8]
  {
    TextWords(n, p);
    WordBuckets();
    hide A32;
    hide Text;
    hide Width.Bucket;
  }

  /** The first probes look at every position. */
  lemma {:induction false} FirstProbes(k: nat)
    requires k <= 61
    ensures Probe(1, k) == 1 + k
  {
    if k > 0 { FirstProbes(k - 1); }
  }

  /** No probe finds an entry from its own position or later. */
  lemma {:induction false} EntryIsEarlier(w: Width, n: nat, k: nat, h: nat)
    requires k <= 8 && k + 4 <= n && h < w.TableSize()
    ensures k > 0 ==> Probe(1, k - 1) + 4 <= n
    ensures EntryAt(w, Text(n), Zeroed(w), 1, k, h) <= k
    ensures n >= 12 && k <= 7 && h == w.Hash(Text(n), 8) ==> EntryAt(w, Text(n), Zeroed(w), 1, k, h) == 0
  {
    hide Width.Hash;
    hide Text;
    if k > 0 {
      FirstProbes(k - 1);
      TextHashes(w, n, k);
      if n >= 12 { TextHashes(w, n, 8); }
      EntryIsEarlier(w, n, k - 1, h);
    }
  }

  lemma Differs(n: nat, ref: nat, ip: nat)
    requires ref < ip < 8 && ip + 4 <= n
    ensures !Hits(Text(n), ref, ip)
  {
    var s := Text(n);
    assert s[ref] == 97 + ref && s[ip] == 97 + ip;
    hide Text;
    if Hits(s, ref, ip) { HitsAgree(s, ref, ip); }
  }

  lemma HitsAgree(s: seq<byte>, ref: nat, ip: nat)
    requires ip + MINMATCH <= |s| && Hits(s, ref, ip)
    ensures s[ip] == s[ref]
  {
    assert s[ip] == s[ip - (ip - ref)];
  }

  lemma NothingBeforeEight(w: Width, n: nat, j: nat)
    requires j < 7 && j + 5 <= n
    ensures Probe(1, j) + MINMATCH <= n && !ProbeHits(w, Text(n), Zeroed(w), 1, j)
  {
    hide Width.Hash;
    hide EntryAt;
    hide Text;
    hide Hits;
    hide Zeroed;
    FirstProbes(j);
    EntryIsEarlier(w, n, j, w.Hash(Text(n), 1 + j));
    Differs(n, EntryAt(w, Text(n), Zeroed(w), 1, j, w.Hash(Text(n), 1 + j)), 1 + j);
  }

  lemma MissedBeforeEight(w: Width, n: nat, k: nat)
    requires k <= 7 && k + 4 <= n
    ensures Missed(w, Text(n), Zeroed(w), 1, k)
  {
    hide ProbeHits;
    hide Text;
    forall j | 0 <= j < k
      ensures Probe(1, j) + MINMATCH <= |Text(n)| && !ProbeHits(w, Text(n), Zeroed(w), 1, j)
    {
      NothingBeforeEight(w, n, j);
    }
  }

  lemma TextRepeats(n: nat, from: nat, to: nat)
    requires 8 <= from <= to <= n
    ensures Repeats(Text(n), from, to, 8)
  {}

  /** The table behind the probe that hits. */
  lemma TableBehind(w: Width, n: nat) returns (t: seq<nat>)
    requires n >= 21
    ensures |t| == w.TableSize() && Recorded(w, Text(n), Zeroed(w), 1, 8, t)
  {
    FirstProbes(7);
    t := seq(w.TableSize(), h requires 0 <= h < w.TableSize() => EntryAt(w, Text(n), Zeroed(w), 1, 8, h));
  }

  /** The search finds the text again at its ninth byte, and the match ends five bytes before the end. */
  lemma OnlyIsFound(w: Width, n: nat)
    requires n >= 21
    ensures Plays(w, Text(n), Searching(Zeroed(w), 0), Only(n), Ending(n - 5))
  {
    hide Width.Hash;
    hide EntryAt;
    hide Recorded;
    hide Missed;
    hide Text;
    var table := TableBehind(w, n);
    FirstProbes(7);
    FirstProbes(8);
    EntryIsEarlier(w, n, 7, w.Hash(Text(n), 8));
    MissedBeforeEight(w, n, 7);
    hide Probe;
    TextRepeats(n, 8, 12);
    assert FoundBy(w, Text(n), Zeroed(w), 0, 7, 8, 8, table);
    hide FoundBy;
    assert Found(w, Text(n), Zeroed(w), 0, 8, 8, table);
    hide Found;
    assert Arrive(w, Text(n), table, n - 5) == Ending(n - 5);
  }

  lemma OnlyIsStep(n: nat)
    requires n >= 21
    ensures Covers(Text(n), 0, [Only(n)]) && End(0, [Only(n)]) == n - 5
  {
    TextRepeats(n, 8, n - 5);
    assert Text(n)[0..8] == Text(8);
    assert [Only(n)][1..] == [];
    assert Covers(Text(n), n - 5, []);
    assert End(n - 5, []) == n - 5;
  }

  lemma OnlyIsGreedy(w: Width, n: nat)
    requires n >= 21
    ensures Compressed(w, Text(n), [Only(n)], BlockBytes([Only(n)], Text(n)[n - 5..]))
  {
    hide Plays;
    hide Text;
    OnlyIsFound(w, n);
    OnlyIsStep(n);
    assert [Only(n)][1..] == [];
    assert PlaysAll(w, Text(n), Ending(n - 5), [], Ending(n - 5));
    assert PlaysAll(w, Text(n), Searching(Zeroed(w), 0), [Only(n)], Ending(n - 5));
    hide Covers;
    hide BlockBytes;
    hide PlaysAll;
  }

  /** A text of up to twenty bytes leaves no room for a match. */
  lemma NothingIsGreedy(w: Width, n: nat)
    requires n <= 20
    ensures Compressed(w, Text(n), [], BlockBytes([], Text(n)))
  {
    hide Text;
    assert Text(n)[0..] == Text(n);
    if n >= MINLENGTH {
      FirstProbes(n - 12);
      MissedBeforeEight(w, n, n - 13);
      hide Probe;
      hide Missed;
      assert MissedToEnd(w, Text(n), Zeroed(w), 0, n - 13);
      hide MissedToEnd;
      assert PlaysAll(w, Text(n), Searching(Zeroed(w), 0), [], Searching(Zeroed(w), 0));
    }
  }

  /** Of every length, the text becomes one block: eight literals, one match and five last literals from 21 bytes on, all
      literals below. */
  lemma TextCompresses(w: Width, n: nat, ss: seq<Sequence>, bytes: seq<byte>)
    requires Compressed(w, Text(n), ss, bytes)
    ensures n < 21 ==> ss == [] && bytes == BlockBytes([], Text(n))
    ensures n >= 21 ==> ss == [Only(n)] && bytes == BlockBytes([Only(n)], Text(n)[n - 5..])
  {
    hide Compressed;
    if n < 21 {
      NothingIsGreedy(w, n);
      OutputIsDetermined(w, Text(n), ss, bytes, [], BlockBytes([], Text(n)));
    } else {
      OnlyIsGreedy(w, n);
      OutputIsDetermined(w, Text(n), ss, bytes, [Only(n)], BlockBytes([Only(n)], Text(n)[n - 5..]));
    }
  }

  /** "abcdefgh" four times, in eighteen bytes. */
  const BLOCK: seq<byte> :=
    [0x8F, 97, 98, 99, 100, 101, 102, 103, 104, 8, 0, 0, 0x50, 100, 101, 102, 103, 104]

  lemma PartsOfText()
    ensures Text(8) == [97, 98, 99, 100, 101, 102, 103, 104] && Text(32)[27..] == [100, 101, 102, 103, 104]
    ensures LittleEndian(8, 2) == [8, 0] && LengthTail(15) == [0] && LengthTail(8) == [] && LengthTail(5) == []
  {
    assert LittleEndian(8, 2) == [8] + LittleEndian(0, 1) && LittleEndian(0, 1) == [0];
  }

  lemma BlockOfText()
    ensures BlockBytes([Only(32)], Text(32)[27..]) == BLOCK
  {
    hide Text;
    hide LengthTail;
    hide LittleEndian;
    PartsOfText();
    OneSequence(Only(32));
    assert SequenceBytes(Only(32)) == BLOCK[..12];
    assert HeadBytes(Text(32)[27..], 0) == BLOCK[12..];
    hide SequencesBytes;
    hide SequenceBytes;
    hide HeadBytes;
  }

  lemma OneSequence(s: Sequence)
    ensures SequencesBytes([s]) == SequenceBytes(s)
  {
    assert [s][1..] == [] && SequencesBytes([]) == [];
  }

  /** Either compressor turns that text into these bytes. */
  lemma FourTimes(w: Width, ss: seq<Sequence>, bytes: seq<byte>)
    requires Compressed(w, Text(32), ss, bytes)
    ensures bytes == BLOCK
  {
    TextCompresses(w, 32, ss, bytes);
    BlockOfText();
  }

  /** It needs a limit of nineteen, one more than its size. */
  lemma LimitOfText(w: Width, limit: nat)
    ensures Refused(w, Text(32), limit) <==> limit < 19
  {
    hide Text;
    hide Plays;
    hide Covers;
    hide BlockBytes;
    var s, ss, start := Text(32), [Only(32)], Searching(Zeroed(w), 0);
    OnlyIsFound(w, 32);
    OnlyIsStep(32);
    BlockOfText();
    OneSequence(Only(32));
    SizeOfOnly();
    hide SequenceBytes;
    hide Stops;
    if Below(0, 8, limit) {
      BelowOne(w, s, start, Only(32), Ending(27), limit);
      assert Ends(w, s, ss, Ending(27)) by { EndingStops(w, s, 27); }
      assert EndsBelow(w, s, ss, limit);
      EndIsRefused(w, s, 27, ss, SequencesBytes(ss), limit);
    } else {
      var after := PlaysSearching(w, s, start, Only(32), Ending(27));
      hide Found;
      assert OverflowsAt(w, s, Zeroed(w), 0, 0, 8, 8, after, limit);
      assert RunsBelow(w, s, [], start, limit);
      assert StuckAt(w, s, [], start, limit) by { NothingCovers(s); }
    }
  }

  lemma NothingCovers(s: seq<byte>)
    ensures Covers(s, 0, []) && SequencesBytes([]) == []
  {}

  lemma EndingStops(w: Width, s: seq<byte>, anchor: nat)
    ensures Stops(w, s, Ending(anchor))
  {}

  lemma SizeOfOnly()
    ensures |SequenceBytes(Only(32))| == 12
  {
    PartsOfText();
  }

  lemma BelowOne(w: Width, s: seq<byte>, c: Cursor, x: Sequence, last: Cursor, limit: nat)
    requires Plays(w, s, c, x, last) && (c.Searching? ==> Below(0, |x.literals|, limit))
    ensures PlaysBelow(w, s, 0, c, [x], last, limit)
  {
    hide Plays;
    assert SequencesBytes([]) == [] && [] + [x] == [x];
    assert PlaysBelow(w, s, 0, c, [], c, limit);
    BelowAppend(w, s, 0, c, [], c, x, last, limit);
  }

  method CompressFourTimes() returns (dest: array<byte>, r: int)
    ensures r == 18 && dest.Length >= r && dest[..r] == BLOCK
  {
    dest := new byte[CompressBound(32)];
    ghost var ss;
    r, ss := Compress(Text(32), dest);
    FourTimes(WidthFor(32), ss, dest[..r]);
    assert |dest[..r]| == r;
  }
}
