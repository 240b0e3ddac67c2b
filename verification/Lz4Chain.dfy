/** A text with two matches, the second right behind the first and found by the entry of the last position but one. */
module Lz4Chain {
  import opened Bytes
  import opened Lz4Format
  import opened Lz4Word
  import opened Lz4Search
  import opened Lz4Compress
  import opened Lz4Example

  /** "abcdefghX", "abcdefgh", "ghgh" and "ABCDEFGH". */
  const CHAIN: seq<byte> :=
    [97, 98, 99, 100, 101, 102, 103, 104, 88, 97, 98, 99, 100, 101, 102, 103, 104, 103, 104, 103, 104, 65, 66, 67, 68, 69, 70, 71, 72]

  const FAR := Sequence(CHAIN[..9], 9, 4)
  const NEAR := Sequence([], 2, 0)

  lemma FirstChainWords()
    ensures A32(CHAIN, 0) == 1684234849
    ensures A32(CHAIN, 1) == 1701077858
    ensures A32(CHAIN, 2) == 1717920867
    ensures A32(CHAIN, 3) == 1734763876
    ensures A32(CHAIN, 4) == 1751606885
  {}

  lemma MoreChainWords()
    ensures A32(CHAIN, 5) == 1483237222
    ensures A32(CHAIN, 6) == 1633183847
    ensures A32(CHAIN, 7) == 1650546792
    ensures A32(CHAIN, 8) == 1667391832
    ensures A32(CHAIN, 9) == A32(CHAIN, 0) && A32(CHAIN, 17) == A32(CHAIN, 15)
  {}

  lemma ChainWords()
    ensures A32(CHAIN, 0) == 1684234849
    ensures A32(CHAIN, 1) == 1701077858
    ensures A32(CHAIN, 2) == 1717920867
    ensures A32(CHAIN, 3) == 1734763876
    ensures A32(CHAIN, 4) == 1751606885
    ensures A32(CHAIN, 5) == 1483237222
    ensures A32(CHAIN, 6) == 1633183847
    ensures A32(CHAIN, 7) == 1650546792
    ensures A32(CHAIN, 8) == 1667391832
    ensures A32(CHAIN, 9) == A32(CHAIN, 0) && A32(CHAIN, 17) == A32(CHAIN, 15)
  {
    FirstChainWords();
    MoreChainWords();
    hide A32;
    hide CHAIN;
  }

  lemma ChainBuckets()
    ensures U32.Bucket(1684234849) == 1584 && U16.Bucket(1684234849) == 3169
    ensures U32.Bucket(1701077858) == 1591 && U16.Bucket(1701077858) == 3182
    ensures U32.Bucket(1717920867) == 1597 && U16.Bucket(1717920867) == 3194
    ensures U32.Bucket(1734763876) == 1603 && U16.Bucket(1734763876) == 3206
    ensures U32.Bucket(1751606885) == 1609 && U16.Bucket(1751606885) == 3218
    ensures U32.Bucket(1483237222) == 2623 && U16.Bucket(1483237222) == 5247
    ensures U32.Bucket(1633183847) == 377 && U16.Bucket(1633183847) == 755
    ensures U32.Bucket(1650546792) == 870 && U16.Bucket(1650546792) == 1741
    ensures U32.Bucket(1667391832) == 1806 && U16.Bucket(1667391832) == 3613
  {
    hide Width.Bucket;
    BucketIs(1684234849, 1040914378, 1661853201);
    BucketIs(1701077858, 1051323930, 1668286658);
    BucketIs(1717920867, 1061733482, 1674720115);
    BucketIs(1734763876, 1072143034, 1681153572);
    BucketIs(1751606885, 1082552586, 1687587029);
    BucketIs(1483237222, 916691013, 2750985094);
    BucketIs(1633183847, 1009363124, 395959863);
    BucketIs(1650546792, 1020094014, 913262568);
    BucketIs(1667391832, 1030504821, 1894770136);
  }

  lemma ChainHashes(w: Width, p: nat)
    requires p < 9
    ensures w.Hash(CHAIN, p) == (if w.U32? then [1584, 1591, 1597, 1603, 1609, 2623, 377, 870, 1806]
                                 else [3169, 3182, 3194, 3206, 3218, 5247, 755, 1741, 3613])[p]
    ensures w.Hash(CHAIN, 9) == w.Hash(CHAIN, 0) && w.Hash(CHAIN, 17) == w.Hash(CHAIN, 15)
  {
    ChainWords();
    ChainBuckets();
    hide A32;
    hide Width.Bucket;
    hide CHAIN;
  }

  lemma {:induction false} ChainEntry(w: Width, k: nat, h: nat)
    requires k <= 9 && h < w.TableSize()
    ensures k > 0 ==> Probe(1, k - 1) == k
    ensures EntryAt(w, CHAIN, Zeroed(w), 1, k, h) <= k
    ensures k <= 8 && h == w.Hash(CHAIN, 9) ==> EntryAt(w, CHAIN, Zeroed(w), 1, k, h) == 0
  {
    hide Width.Hash;
    if k > 0 {
      FirstProbes(k - 1);
      if k < 9 { ChainHashes(w, k); }
      ChainHashes(w, 0);
      ChainEntry(w, k - 1, h);
    }
  }

  lemma ChainDiffers(ref: nat, ip: nat)
    requires ref < ip <= 8
    ensures !Hits(CHAIN, ref, ip)
  {
    if Hits(CHAIN, ref, ip) { HitsAgree(CHAIN, ref, ip); }
  }

  lemma ChainMissed(w: Width)
    ensures Missed(w, CHAIN, Zeroed(w), 1, 8)
  {
    hide Width.Hash;
    hide EntryAt;
    hide Hits;
    hide Zeroed;
    forall j | 0 <= j < 8
      ensures Probe(1, j) + MINMATCH <= |CHAIN| && !ProbeHits(w, CHAIN, Zeroed(w), 1, j)
    {
      FirstProbes(j);
      ChainEntry(w, j, w.Hash(CHAIN, 1 + j));
      ChainDiffers(EntryAt(w, CHAIN, Zeroed(w), 1, j, w.Hash(CHAIN, 1 + j)), 1 + j);
    }
  }

  lemma ChainTable(w: Width) returns (t: seq<nat>)
    ensures |t| == w.TableSize() && Recorded(w, CHAIN, Zeroed(w), 1, 9, t)
  {
    FirstProbes(8);
    t := seq(w.TableSize(), h requires 0 <= h < w.TableSize() => EntryAt(w, CHAIN, Zeroed(w), 1, 9, h));
  }

  /** The far match is found by searching. */
  lemma FarIsFound(w: Width) returns (table: seq<nat>)
    ensures |table| == w.TableSize() && Found(w, CHAIN, Zeroed(w), 0, 9, 9, table)
  {
    hide Width.Hash;
    hide EntryAt;
    hide Recorded;
    hide Missed;
    table := ChainTable(w);
    FirstProbes(8);
    FirstProbes(9);
    ChainEntry(w, 8, w.Hash(CHAIN, 9));
    ChainMissed(w);
    hide Probe;
    assert Repeats(CHAIN, 9, 13, 9);
    assert FoundBy(w, CHAIN, Zeroed(w), 0, 8, 9, 9, table);
  }

  /** The near match is the one that the entries made behind the far one point to. */
  lemma NearFollows(w: Width, table: seq<nat>) returns (next: seq<nat>)
    requires |table| == w.TableSize()
    ensures |next| == w.TableSize() && Arrive(w, CHAIN, table, 17) == Chained(next, 17, 15)
    ensures Arrive(w, CHAIN, next, 21) == Ending(21)
  {
    hide Width.Hash;
    ChainHashes(w, 0);
    assert Repeats(CHAIN, 17, 21, 2);
    var h := w.Hash(CHAIN, 15);
    next := table[h := 15][h := 17];
  }

  lemma ChainSteps()
    ensures IsStep(CHAIN, 0, FAR) && IsStep(CHAIN, 17, NEAR)
  {
    assert CHAIN[0..9] == CHAIN[..9] && CHAIN[17..17] == [];
  }

  lemma ChainCovers()
    ensures Covers(CHAIN, 0, [FAR, NEAR]) && End(0, [FAR, NEAR]) == 21
  {
    ChainSteps();
    hide IsStep;
    assert [FAR, NEAR][1..] == [NEAR] && [NEAR][1..] == [];
    assert Covers(CHAIN, 21, []) && Covers(CHAIN, 17, [NEAR]);
    assert End(21, []) == 21 && End(17, [NEAR]) == 21;
  }

  /** Nine literals and a match of eight, a match of four, eight last literals. */
  const CHAIN_BLOCK: seq<byte> :=
    [0x94, 97, 98, 99, 100, 101, 102, 103, 104, 88, 9, 0, 0x00, 2, 0, 0x80, 65, 66, 67, 68, 69, 70, 71, 72]

  lemma OffsetParts()
    ensures LittleEndian(9, 2) == [9, 0] && LittleEndian(2, 2) == [2, 0]
  {
    assert LittleEndian(9, 2) == [9] + LittleEndian(0, 1) && LittleEndian(0, 1) == [0];
    assert LittleEndian(2, 2) == [2] + LittleEndian(0, 1);
  }

  lemma LiteralParts()
    ensures CHAIN[21..] == [65, 66, 67, 68, 69, 70, 71, 72]
    ensures CHAIN[..9] == [97, 98, 99, 100, 101, 102, 103, 104, 88]
  {}

  lemma ChainParts()
    ensures LittleEndian(9, 2) == [9, 0] && LittleEndian(2, 2) == [2, 0]
    ensures LengthTail(9) == [] && LengthTail(4) == [] && LengthTail(0) == [] && LengthTail(8) == []
    ensures CHAIN[21..] == [65, 66, 67, 68, 69, 70, 71, 72]
    ensures CHAIN[..9] == [97, 98, 99, 100, 101, 102, 103, 104, 88]
  {
    hide CHAIN;
    hide LittleEndian;
    OffsetParts();
    LiteralParts();
  }

  lemma ChainBytes()
    ensures BlockBytes([FAR, NEAR], CHAIN[21..]) == CHAIN_BLOCK
  {
    hide LengthTail;
    hide LittleEndian;
    ChainParts();
    assert [FAR, NEAR][1..] == [NEAR];
    OneSequence(NEAR);
    hide CHAIN;
    assert SequenceBytes(FAR) == CHAIN_BLOCK[..12];
    assert SequenceBytes(NEAR) == CHAIN_BLOCK[12..15];
    assert HeadBytes(CHAIN[21..], 0) == CHAIN_BLOCK[15..];
    hide SequenceBytes;
    hide HeadBytes;
  }

  lemma PlaysTwo(w: Width, s: seq<byte>, c: Cursor, x: Sequence, mid: Cursor, y: Sequence, last: Cursor)
    requires Plays(w, s, c, x, mid) && Plays(w, s, mid, y, last)
    ensures PlaysAll(w, s, c, [x, y], last)
  {
    hide Plays;
    assert PlaysAll(w, s, c, [], c);
    PlaysAppend(w, s, c, [], c, x, mid);
    PlaysAppend(w, s, c, [x], mid, y, last);
    assert [] + [x] == [x] && [x] + [y] == [x, y];
  }

  lemma FarPlays(w: Width, table: seq<nat>, next: Cursor)
    requires |table| == w.TableSize() && Found(w, CHAIN, Zeroed(w), 0, 9, 9, table)
    requires next == Arrive(w, CHAIN, table, 17)
    ensures Plays(w, CHAIN, Searching(Zeroed(w), 0), FAR, next)
  {
    hide Found;
    hide Arrive;
    assert |FAR.literals| == 9;
  }

  lemma NearPlays(w: Width, table: seq<nat>)
    requires |table| == w.TableSize() && Arrive(w, CHAIN, table, 21) == Ending(21)
    ensures Plays(w, CHAIN, Chained(table, 17, 15), NEAR, Ending(21))
  {
    hide Arrive;
  }

  lemma RunCompresses(w: Width, s: seq<byte>, ss: seq<Sequence>, last: Cursor)
    requires |s| >= MINLENGTH && PlaysAll(w, s, Searching(Zeroed(w), 0), ss, last) && Stops(w, s, last)
    requires Covers(s, 0, ss) && End(0, ss) <= |s|
    ensures Compressed(w, s, ss, BlockBytes(ss, s[End(0, ss)..]))
  {
    hide PlaysAll;
    hide Stops;
    hide Covers;
    hide BlockBytes;
  }

  lemma ChainIsGreedy(w: Width)
    ensures Compressed(w, CHAIN, [FAR, NEAR], CHAIN_BLOCK)
  {
    hide Compressed;
    hide Plays;
    hide PlaysAll;
    hide Covers;
    hide Found;
    hide Arrive;
    hide BlockBytes;
    ChainCovers();
    ChainBytes();
    var table := FarIsFound(w);
    var next := NearFollows(w, table);
    FarPlays(w, table, Chained(next, 17, 15));
    NearPlays(w, next);
    PlaysTwo(w, CHAIN, Searching(Zeroed(w), 0), FAR, Chained(next, 17, 15), NEAR, Ending(21));
    RunCompresses(w, CHAIN, [FAR, NEAR], Ending(21));
  }

  /** Either compressor turns the text into these twenty-four bytes. */
  lemma ChainCompresses(w: Width, ss: seq<Sequence>, bytes: seq<byte>)
    requires Compressed(w, CHAIN, ss, bytes)
    ensures ss == [FAR, NEAR] && bytes == CHAIN_BLOCK
  {
    ChainIsGreedy(w);
    OutputIsDetermined(w, CHAIN, ss, bytes, [FAR, NEAR], CHAIN_BLOCK);
  }
}
