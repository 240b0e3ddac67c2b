/** Unaligned word reads, and the de Bruijn count of equal low bytes. */
module Lz4Word {
  import opened Bytes

  /** `A32(p)` on a little-endian machine. */
  function A32(s: seq<byte>, p: nat): nat
    requires p + 4 <= |s|
  {
    (s[p] as int) + 0x100 * (s[p + 1] as int) + 0x1_0000 * (s[p + 2] as int) + 0x100_0000 * (s[p + 3] as int)
  }

  /** `A16(p)` on a little-endian machine. */
  function A16(s: seq<byte>, p: nat): nat
    requires p + 2 <= |s|
  {
    (s[p] as int) + 0x100 * (s[p + 1] as int)
  }

  lemma Digits(a: byte, b: nat, c: byte, d: nat)
    ensures a + 256 * b == c + 256 * d <==> a == c && b == d
  {
    assert (a + 256 * b) % 256 == a && (c + 256 * d) % 256 == c;
  }

  lemma A32Equal(s: seq<byte>, p: nat, q: nat)
    requires p + 4 <= |s| && q + 4 <= |s|
    ensures A32(s, p) == A32(s, q)
            <==> s[p] == s[q] && s[p + 1] == s[q + 1] && s[p + 2] == s[q + 2] && s[p + 3] == s[q + 3]
  {
    var high, high' := A16(s, p + 2), A16(s, q + 2);
    Digits(s[p], (s[p + 1] as int) + 256 * high, s[q], (s[q + 1] as int) + 256 * high');
    Digits(s[p + 1], high, s[q + 1], high');
    Digits(s[p + 2], s[p + 3], s[q + 2], s[q + 3]);
  }

  lemma A16Equal(s: seq<byte>, p: nat, q: nat)
    requires p + 2 <= |s| && q + 2 <= |s|
    ensures A16(s, p) == A16(s, q) <==> s[p] == s[q] && s[p + 1] == s[q + 1]
  {
    Digits(s[p], s[p + 1], s[q], s[q + 1]);
  }

  // ---------- 64-bit words ----------

  /** Eight bytes as machine bytes, lowest address first. */
  datatype Word = Word(b0: bv8, b1: bv8, b2: bv8, b3: bv8, b4: bv8, b5: bv8, b6: bv8, b7: bv8) {
    function Value(): bv64 {
      (b0 as bv64) | ((b1 as bv64) << 8) | ((b2 as bv64) << 16) | ((b3 as bv64) << 24)
      | ((b4 as bv64) << 32) | ((b5 as bv64) << 40) | ((b6 as bv64) << 48) | ((b7 as bv64) << 56)
    }

    function Get(i: nat): bv8
      requires i < 8
    {
      match i
      case 0 => b0 case 1 => b1 case 2 => b2 case 3 => b3
      case 4 => b4 case 5 => b5 case 6 => b6 case _ => b7
    }
  }

  /** A byte as eight bits, four at a time. */
  function Bits(x: byte): bv8 {
    (HalfByte(x / 16) << 4) | HalfByte(x % 16)
  }

  function HalfByte(x: int): (r: bv8)
    requires 0 <= x < 16
    ensures r < 16
  {
    [0, 1, 2, 3, 4, 5, 6, 7, 8, 9, 10, 11, 12, 13, 14, 15][x]
  }

  function WordAt(s: seq<byte>, p: nat): Word
    requires p + 8 <= |s|
  {
    Word(Bits(s[p]), Bits(s[p + 1]), Bits(s[p + 2]), Bits(s[p + 3]),
         Bits(s[p + 4]), Bits(s[p + 5]), Bits(s[p + 6]), Bits(s[p + 7]))
  }

  /** `DeBruijnBytePos`, eight entries to the row. */
  const DE_BRUIJN_BYTE_POS: seq<seq<nat>> := [
    [0, 0, 0, 0, 0, 1, 1, 2],
    [0, 3, 1, 3, 1, 4, 2, 7],
    [0, 2, 3, 6, 1, 5, 3, 5],
    [1, 3, 4, 4, 2, 5, 6, 7],
    [7, 0, 1, 2, 3, 3, 4, 6],
    [2, 6, 5, 5, 3, 4, 5, 6],
    [7, 1, 2, 4, 6, 4, 4, 5],
    [7, 2, 6, 5, 7, 6, 7, 7]]

  function DeBruijnBytePos(i: bv6): nat {
    DE_BRUIJN_BYTE_POS[(i >> 3) as int][(i & 7) as int]
  }

  function DeBruijnIndex(val: bv64): bv6 {
    (((val & (0 - val)) * 0x0218A392CDABBD3F) >> 58) as bv6
  }

  /** `LZ4_NbCommonBytes`, software bit count. */
  function NbCommonBytes(val: bv64): nat {
    DeBruijnBytePos(DeBruijnIndex(val))
  }

  /** Where the de Bruijn product puts the lowest set bit, one byte of the word after the other. */
  lemma DeBruijnIndexes(val: bv64)
    ensures val & 0xFF != 0 ==> var i := DeBruijnIndex(val); i == 0 || i == 1 || i == 2 || i == 4 || i == 8 || i == 16 || i == 33 || i == 3
    ensures val & 0xFF == 0 && val & 0xFF00 != 0 ==>
              var i := DeBruijnIndex(val); i == 6 || i == 12 || i == 24 || i == 49 || i == 34 || i == 5 || i == 10 || i == 20
    ensures val & 0xFFFF == 0 && val & 0x00FF_0000 != 0 ==>
              var i := DeBruijnIndex(val); i == 40 || i == 17 || i == 35 || i == 7 || i == 14 || i == 28 || i == 57 || i == 50
    ensures val & 0x00FF_FFFF == 0 && val & 0xFF00_0000 != 0 ==>
              var i := DeBruijnIndex(val); i == 36 || i == 9 || i == 18 || i == 37 || i == 11 || i == 22 || i == 44 || i == 25
    ensures val & 0xFFFF_FFFF == 0 && val & 0x00FF_0000_0000 != 0 ==>
              var i := DeBruijnIndex(val); i == 51 || i == 38 || i == 13 || i == 27 || i == 54 || i == 45 || i == 26 || i == 53
    ensures val & 0x00FF_FFFF_FFFF == 0 && val & 0xFF00_0000_0000 != 0 ==>
              var i := DeBruijnIndex(val); i == 42 || i == 21 || i == 43 || i == 23 || i == 46 || i == 29 || i == 59 || i == 55
    ensures val & 0xFFFF_FFFF_FFFF == 0 && val & 0x00FF_0000_0000_0000 != 0 ==>
              var i := DeBruijnIndex(val); i == 47 || i == 30 || i == 61 || i == 58 || i == 52 || i == 41 || i == 19 || i == 39
    ensures val & 0x00FF_FFFF_FFFF_FFFF == 0 && val & 0xFF00_0000_0000_0000 != 0 ==>
              var i := DeBruijnIndex(val); i == 15 || i == 31 || i == 63 || i == 62 || i == 60 || i == 56 || i == 48 || i == 32
  {}

  lemma DeBruijnTable(i: bv6)
    ensures i == 0 || i == 1 || i == 2 || i == 4 || i == 8 || i == 16 || i == 33 || i == 3 ==> DeBruijnBytePos(i) == 0
    ensures i == 6 || i == 12 || i == 24 || i == 49 || i == 34 || i == 5 || i == 10 || i == 20 ==> DeBruijnBytePos(i) == 1
    ensures i == 40 || i == 17 || i == 35 || i == 7 || i == 14 || i == 28 || i == 57 || i == 50 ==> DeBruijnBytePos(i) == 2
    ensures i == 36 || i == 9 || i == 18 || i == 37 || i == 11 || i == 22 || i == 44 || i == 25 ==> DeBruijnBytePos(i) == 3
    ensures i == 51 || i == 38 || i == 13 || i == 27 || i == 54 || i == 45 || i == 26 || i == 53 ==> DeBruijnBytePos(i) == 4
    ensures i == 42 || i == 21 || i == 43 || i == 23 || i == 46 || i == 29 || i == 59 || i == 55 ==> DeBruijnBytePos(i) == 5
    ensures i == 47 || i == 30 || i == 61 || i == 58 || i == 52 || i == 41 || i == 19 || i == 39 ==> DeBruijnBytePos(i) == 6
    ensures i == 15 || i == 31 || i == 63 || i == 62 || i == 60 || i == 56 || i == 48 || i == 32 ==> DeBruijnBytePos(i) == 7
  {
  }

  lemma CountsLowZeroBytes(val: bv64)
    ensures val & 0xFF != 0 ==> NbCommonBytes(val) == 0
    ensures val & 0xFF == 0 && val & 0xFF00 != 0 ==> NbCommonBytes(val) == 1
    ensures val & 0xFFFF == 0 && val & 0x00FF_0000 != 0 ==> NbCommonBytes(val) == 2
    ensures val & 0x00FF_FFFF == 0 && val & 0xFF00_0000 != 0 ==> NbCommonBytes(val) == 3
    ensures val & 0xFFFF_FFFF == 0 && val & 0x00FF_0000_0000 != 0 ==> NbCommonBytes(val) == 4
    ensures val & 0x00FF_FFFF_FFFF == 0 && val & 0xFF00_0000_0000 != 0 ==> NbCommonBytes(val) == 5
    ensures val & 0xFFFF_FFFF_FFFF == 0 && val & 0x00FF_0000_0000_0000 != 0 ==> NbCommonBytes(val) == 6
    ensures val & 0x00FF_FFFF_FFFF_FFFF == 0 && val & 0xFF00_0000_0000_0000 != 0 ==> NbCommonBytes(val) == 7
  {
    DeBruijnIndexes(val);
    DeBruijnTable(DeBruijnIndex(val));
    hide DeBruijnIndex;
  }

  /** Byte by byte, the exclusive or is zero exactly where the words agree. */
  lemma XorBytes(a: Word, b: Word)
    ensures (a.Value() ^ b.Value()) & 0xFF == 0 <==> a.b0 == b.b0
    ensures (a.Value() ^ b.Value()) & 0xFF00 == 0 <==> a.b1 == b.b1
    ensures (a.Value() ^ b.Value()) & 0x00FF_0000 == 0 <==> a.b2 == b.b2
    ensures (a.Value() ^ b.Value()) & 0xFF00_0000 == 0 <==> a.b3 == b.b3
    ensures (a.Value() ^ b.Value()) & 0x00FF_0000_0000 == 0 <==> a.b4 == b.b4
    ensures (a.Value() ^ b.Value()) & 0xFF00_0000_0000 == 0 <==> a.b5 == b.b5
    ensures (a.Value() ^ b.Value()) & 0x00FF_0000_0000_0000 == 0 <==> a.b6 == b.b6
    ensures (a.Value() ^ b.Value()) & 0xFF00_0000_0000_0000 == 0 <==> a.b7 == b.b7
  {}

  lemma MaskBytes(val: bv64)
    ensures val == 0 <==> val & 0x00FF_FFFF_FFFF_FFFF == 0 && val & 0xFF00_0000_0000_0000 == 0
    ensures val & 0xFFFF == 0 <==> val & 0xFF == 0 && val & 0xFF00 == 0
    ensures val & 0x00FF_FFFF == 0 <==> val & 0xFFFF == 0 && val & 0x00FF_0000 == 0
    ensures val & 0xFFFF_FFFF == 0 <==> val & 0x00FF_FFFF == 0 && val & 0xFF00_0000 == 0
    ensures val & 0x00FF_FFFF_FFFF == 0 <==> val & 0xFFFF_FFFF == 0 && val & 0x00FF_0000_0000 == 0
    ensures val & 0xFFFF_FFFF_FFFF == 0 <==> val & 0x00FF_FFFF_FFFF == 0 && val & 0xFF00_0000_0000 == 0
    ensures val & 0x00FF_FFFF_FFFF_FFFF == 0 <==> val & 0xFFFF_FFFF_FFFF == 0 && val & 0x00FF_0000_0000_0000 == 0
  {}

  /** Two words differ first at the byte that `NbCommonBytes` of their exclusive or names. */
  lemma CommonBytesOfWords(a: Word, b: Word)
    ensures a == b <==> a.Value() ^ b.Value() == 0
    ensures a != b ==> var n := NbCommonBytes(a.Value() ^ b.Value());
                       n < 8 && a.Get(n) != b.Get(n) && forall i :: 0 <= i < n ==> a.Get(i) == b.Get(i)
  {
    var diff := a.Value() ^ b.Value();
    CountsLowZeroBytes(diff);
    XorBytes(a, b);
    MaskBytes(diff);
    hide NbCommonBytes;
    hide Word.Value;
  }

  lemma HalfByteInjective(x: int, y: int)
    requires 0 <= x < 16 && 0 <= y < 16
    ensures HalfByte(x) == HalfByte(y) <==> x == y
  {}

  lemma BitsInjective(x: byte, y: byte)
    ensures Bits(x) == Bits(y) <==> x == y
  {
    assert (Bits(x) >> 4) == HalfByte(x / 16) && (Bits(x) & 15) == HalfByte(x % 16);
    assert (Bits(y) >> 4) == HalfByte(y / 16) && (Bits(y) & 15) == HalfByte(y % 16);
    HalfByteInjective(x / 16, y / 16);
    HalfByteInjective(x % 16, y % 16);
  }

  lemma WordsAtEqual(s: seq<byte>, p: nat, q: nat, i: nat)
    requires p + 8 <= |s| && q + 8 <= |s| && i < 8
    ensures WordAt(s, p).Get(i) == WordAt(s, q).Get(i) <==> s[p + i] == s[q + i]
  {
    hide Bits;
    hide HalfByte;
    BitsInjective(s[p + i], s[q + i]);
  }
}
