/** Bytes and little-endian integers. */
module Bytes {

  /** `uint8_t`. */
  type byte = x: int | 0 <= x < 256

  /** `uint64_t`. */
  type uint64 = x: int | 0 <= x < 0x1_0000_0000_0000_0000

  /** The `width` low bytes of `n`, least significant first. */
  function LittleEndian(n: nat, width: nat): (bytes: seq<byte>)
    ensures |bytes| == width
  {
    if width == 0 then [] else [n % 256] + LittleEndian(n / 256, width - 1)
  }

  /** The number a little-endian byte string denotes. */
  function FromLittleEndian(bytes: seq<byte>): nat {
    if bytes == [] then 0 else bytes[0] + 256 * FromLittleEndian(bytes[1..])
  }

  /** 256 to the power `width`: the first number that does not fit in `width` bytes. */
  function Range(width: nat): (limit: nat)
    ensures limit > 0
  {
    if width == 0 then 1 else 256 * Range(width - 1)
  }

  lemma {:induction false} LittleEndianRoundTrip(n: nat, width: nat)
    requires n < Range(width)
    ensures FromLittleEndian(LittleEndian(n, width)) == n
  {
    if width == 0 {
    } else {
      LittleEndianRoundTrip(n / 256, width - 1);
      assert LittleEndian(n, width)[1..] == LittleEndian(n / 256, width - 1);
    }
  }

  lemma RangeOfEight()
    ensures Range(8) == 0x1_0000_0000_0000_0000
    ensures Range(4) == 0x1_0000_0000
  {
    assert Range(4) == 256 * Range(3) == 65536 * Range(2);
    assert Range(8) == 256 * Range(7) == 65536 * Range(6) == 0x100_0000 * Range(5) == 0x1_0000_0000 * Range(4);
  }

  // ---------- 64-bit arithmetic ----------

  const WORD := 0x1_0000_0000_0000_0000

  /** What a `uint64_t` keeps of a number. */
  function Wrap64(n: int): uint64 { n % WORD }

  lemma ModUnique(value: int, quotient: int, rest: int)
    requires value == quotient * WORD + rest && 0 <= rest < WORD
    ensures value % WORD == rest
  {}

  lemma ModShift(value: int, turns: int)
    ensures (value + turns * WORD) % WORD == value % WORD
  {
    var rest, quotient := value % WORD, value / WORD;
    assert value + turns * WORD == (quotient + turns) * WORD + rest;
    ModUnique(value + turns * WORD, quotient + turns, rest);
  }

  lemma WrapAdd(a: int, b: int)
    ensures Wrap64(Wrap64(a) + b) == Wrap64(a + b)
  {
    ModShift(a + b, -(a / WORD));
  }

  lemma WrapSubtract(a: int, b: int)
    ensures Wrap64(a - Wrap64(b)) == Wrap64(a - b)
  {
    ModShift(a - b, b / WORD);
  }

  // ---------- products and quotients ----------

  lemma Distribute(a: int, b: int, c: int)
    ensures (a - b) * c == a * c - b * c
  {}

  lemma Euclid(a: int, c: int)
    requires c > 0
    ensures a == a / c * c + a % c && 0 <= a % c < c
  {}

  lemma Grows(a: nat, b: nat, c: nat)
    requires a <= b
    ensures a * c <= b * c
  {}

  lemma Quotient(a: nat, quotient: nat, rest: nat, c: nat)
    requires c > 0 && rest < c && a == quotient * c + rest
    ensures a / c == quotient && a % c == rest
  {
    Euclid(a, c);
    if a / c < quotient {
      Grows(a / c + 1, quotient, c);
      Distribute(a / c, -1, c);
    } else if a / c > quotient {
      Grows(quotient + 1, a / c, c);
      Distribute(quotient, -1, c);
    }
  }
}
