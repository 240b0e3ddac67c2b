/** How the hash of the compressors spreads four-byte words over the table. Line numbers are those of memapass/lz4.c. */
module Lz4Hash {
  import opened Bytes
  import opened Lz4Word
  import opened Lz4Search

  const WORDS := 0x1_0000_0000

  /** The number that undoes the multiplier modulo 2^32; there is one because the multiplier is odd. */
  const INVERSE := 244002641

  /** The words that share an entry. */
  ghost function WordsIn(w: Width, h: nat): set<nat> {
    set word: nat | word < WORDS && w.Bucket(word) == h
  }

  /** How many products share their top bits. */
  function Spread(w: Width): nat { if w.U32? then 0x10_0000 else 0x8_0000 }

  /** The word whose product is the `i`-th of those of an entry. */
  function WordOf(w: Width, h: nat, i: nat): (word: nat)
    ensures word < WORDS
  {
    (h * Spread(w) + i) * INVERSE % WORDS
  }

  lemma ModTimes(a: nat, b: nat)
    ensures a % WORDS * b % WORDS == a * b % WORDS
  {
    var q := a / WORDS;
    assert a * b == a % WORDS * b + q * b * WORDS;
    ModShift(a % WORDS * b, q * b, a * b);
  }

  lemma ModShift(n: nat, turns: nat, m: nat)
    requires m == n + turns * WORDS
    ensures m % WORDS == n % WORDS
  {
    var q, r := n / WORDS, n % WORDS;
    assert m == (q + turns) * WORDS + r;
  }

  /** Multiplying by both, in either order, gives a word back. */
  lemma Undone(x: nat)
    requires x < WORDS
    ensures x * INVERSE % WORDS * MULTIPLIER % WORDS == x && x * MULTIPLIER % WORDS * INVERSE % WORDS == x
  {
    var turns := 150801925;
    assert INVERSE * MULTIPLIER == turns * WORDS + 1;
    ModTimes(x * INVERSE, MULTIPLIER);
    ModTimes(x * MULTIPLIER, INVERSE);
    assert x * INVERSE * MULTIPLIER == x + x * turns * WORDS;
    assert x * MULTIPLIER * INVERSE == x + x * turns * WORDS;
    ModShift(x, x * turns, x * INVERSE * MULTIPLIER);
  }

  lemma WordOfHashes(w: Width, h: nat, i: nat)
    requires h < w.TableSize() && i < Spread(w)
    ensures WordOf(w, h, i) * MULTIPLIER % WORDS == h * Spread(w) + i
    ensures w.Bucket(WordOf(w, h, i)) == h
  {
    Undone(h * Spread(w) + i);
  }

  /** The first `n` words of an entry. */
  ghost function FirstWords(w: Width, h: nat, n: nat): set<nat> {
    if n == 0 then {} else FirstWords(w, h, n - 1) + {WordOf(w, h, n - 1)}
  }

  lemma {:induction false} FirstWordsCount(w: Width, h: nat, n: nat)
    requires h < w.TableSize() && n <= Spread(w)
    ensures |FirstWords(w, h, n)| == n
    ensures forall word <- FirstWords(w, h, n) :: word in WordsIn(w, h) && word * MULTIPLIER % WORDS < h * Spread(w) + n
  {
    hide WordOf;
    hide Width.Bucket;
    if n > 0 {
      FirstWordsCount(w, h, n - 1);
      WordOfHashes(w, h, n - 1);
    }
  }

  lemma {:induction false} IsFirstWord(w: Width, h: nat, i: nat, n: nat)
    requires i < n
    ensures WordOf(w, h, i) in FirstWords(w, h, n)
    decreases n
  {
    hide WordOf;
    if i < n - 1 { IsFirstWord(w, h, i, n - 1); }
  }

  lemma WordIsOneOf(w: Width, h: nat, word: nat)
    requires h < w.TableSize() && word in WordsIn(w, h)
    ensures word in FirstWords(w, h, Spread(w))
  {
    var product := word * MULTIPLIER % WORDS;
    Undone(word);
    TopBits(w, word);
    Euclid(product, Spread(w));
    hide FirstWords;
    IsFirstWord(w, h, product % Spread(w), Spread(w));
  }

  lemma TopBits(w: Width, word: nat)
    ensures w.Bucket(word) == word * MULTIPLIER % WORDS / Spread(w)
  {}

  /** Every entry of the table is the hash of the same number of words. */
  lemma WordsAreSpreadEvenly(w: Width, h: nat)
    requires h < w.TableSize()
    ensures |WordsIn(w, h)| * w.TableSize() == WORDS
  {
    FirstWordsCount(w, h, Spread(w));
    forall word | word in WordsIn(w, h)
      ensures word in FirstWords(w, h, Spread(w))
    {
      WordIsOneOf(w, h, word);
    }
    hide Width.Bucket;
    hide FirstWords;
    assert WordsIn(w, h) == FirstWords(w, h, Spread(w));
  }

  /** So each of them is the hash of some four bytes. */
  lemma EveryEntryIsUsed(w: Width, h: nat) returns (s: seq<byte>)
    requires h < w.TableSize()
    ensures |s| == 4 && w.Hash(s, 0) == h
  {
    WordOfHashes(w, h, 0);
    hide WordOf;
    hide Width.Bucket;
    s := BytesOf(WordOf(w, h, 0));
  }

  /** A word as it stands in memory. */
  function BytesOf(word: nat): (s: seq<byte>)
    requires word < WORDS
    ensures |s| == 4 && A32(s, 0) == word
  {
    ByteBelow(word, 0x100_0000);
    ByteBelow(word / 0x100, 0x1_0000);
    ByteBelow(word / 0x100 / 0x100, 0x100);
    [word % 0x100, word / 0x100 % 0x100, word / 0x100 / 0x100 % 0x100, word / 0x100 / 0x100 / 0x100]
  }

  lemma ByteBelow(n: nat, limit: nat)
    requires n < 0x100 * limit
    ensures n == n / 0x100 * 0x100 + n % 0x100 && n / 0x100 < limit
  {}
}
