/** Moving the active pages of a block together, in 64-bit arithmetic. Line numbers are those of memaviz/block.go. */
module Compaction {
  import opened Bytes

  /** `uint64` addition, subtraction and multiplication. */
  function Add64(a: uint64, b: uint64): uint64 { (a + b) % WORD }

  function Sub64(a: uint64, b: uint64): uint64 { (a - b) % WORD }

  function Mul64(a: uint64, b: uint64): uint64 { (a * b) % WORD }

  // ---------- ranks ----------

  /** Pages skipped before the `i`-th active page `page`, in 64-bit arithmetic. */
  function Skip(page: uint64, i: nat): uint64 {
    (page - i - 1) % WORD
  }

  /** The pages of `set` in rising order, each once. */
  ghost predicate IsOrderOf(order: seq<uint64>, pages: set<uint64>) {
    && (forall i, j :: 0 <= i < j < |order| ==> order[i] < order[j])
    && (forall page :: page in order <==> page in pages)
  }

  /** The rank of a page is the number of active pages to its left. */
  lemma {:induction false} RankCounts(order: seq<uint64>, pages: set<uint64>, i: nat)
    requires IsOrderOf(order, pages) && i < |order|
    ensures |set page | page in pages && page < order[i]| == i
  {
    var left := set page | page in pages && page < order[i];
    if i == 0 {
      assert left == {};
    } else {
      RankCounts(order, pages, i - 1);
      assert order[i - 1] in pages;
      assert left == (set page | page in pages && page < order[i - 1]) + {order[i - 1]};
    }
  }

  lemma {:induction false} AtLeastRank(order: seq<uint64>, pages: set<uint64>, i: nat)
    requires IsOrderOf(order, pages) && i < |order|
    ensures order[i] >= i
  {
    if i > 0 {
      AtLeastRank(order, pages, i - 1);
    }
  }

  lemma {:induction false} OrderLength(order: seq<uint64>, pages: set<uint64>)
    requires IsOrderOf(order, pages)
    ensures |pages| == |order|
  {
    if order == [] {
      assert pages == {};
    } else {
      var init, last := order[..|order| - 1], order[|order| - 1];
      assert order == init + [last];
      assert last in pages;
      OrderLength(init, pages - {last});
    }
  }

  lemma RankIn(order: seq<uint64>, pages: set<uint64>, page: uint64) returns (i: nat)
    requires IsOrderOf(order, pages) && page in pages
    ensures i < |order| && order[i] == page
  {
    assert page in order;
    i :| 0 <= i < |order| && order[i] == page;
  }

  lemma ModWraps(value: int)
    requires -1 <= value < WORD
    ensures value % WORD % WORD == value % WORD
  {}

  lemma SkipStep(page: uint64, before: uint64, i: nat)
    requires i > 0 ==> before < page
    ensures var inactive := if i == 0 then page else Sub64(page, before);
            Add64(if i == 0 then 0 else Skip(before, i - 1), Sub64(inactive, 1)) == Skip(page, i)
  {
    if i == 0 {
      ModWraps(page - 1);
    } else {
      ModUnique(page - before, 0, page - before);
      ModUnique(page - before - 1, 0, page - before - 1);
      var turns := (before - i) / WORD;
      ModShift(page - i - 1, -turns);
    }
  }

  // ---------- moving addresses together ----------

  /** Line 416: where an address is drawn, in 64-bit arithmetic. */
  function Offset(addr: uint64, skipped: uint64, pageSize: uint64): uint64 {
    Sub64(addr, Mul64(skipped, pageSize))
  }

  /** The offset an address of the `i`-th active page would have in exact arithmetic. */
  function Compacted(addr: uint64, i: nat, pageSize: uint64): nat
    requires pageSize > 0
  {
    addr % pageSize + (i + 1) * pageSize
  }

  /** A wrapped factor gives the same product. */
  lemma WrappedFactor(x: int, c: int)
    requires -WORD <= x < WORD
    ensures x % WORD * c % WORD == x * c % WORD
  {
    if x >= 0 {
      ModUnique(x, 0, x);
    } else {
      ModUnique(x, -1, x + WORD);
      Distribute(x, -WORD, c);
      ModShift(x * c, c);
    }
  }

  lemma WrappedProduct(x: nat, c: int)
    requires x <= WORD
    ensures x % WORD * c % WORD == x * c % WORD
  {
    if x < WORD {
      ModUnique(x, 0, x);
    } else {
      ModShift(0, c);
    }
  }

  lemma OffsetOf(page: int, rest: int, i: nat, c: int)
    requires -WORD <= page - i - 1 < WORD
    ensures (page * c + rest - (page - i - 1) % WORD * c % WORD) % WORD == (rest + (i + 1) * c) % WORD
  {
    var moved := page - (i + 1);
    WrappedFactor(moved, c);
    WrapSubtract(page * c + rest, moved * c);
    Distribute(page, i + 1, c);
  }

  /** However the skip wraps, the offset is the exact one modulo 2^64. */
  lemma OffsetModulo(addr: uint64, i: nat, pageSize: uint64)
    requires pageSize > 0 && i < WORD
    ensures addr / pageSize < WORD
    ensures Offset(addr, Skip(addr / pageSize, i), pageSize) == Compacted(addr, i, pageSize) % WORD
  {
    Euclid(addr, pageSize);
    OffsetOf(addr / pageSize, addr % pageSize, i, pageSize);
  }

  /** Addresses of the `i`-th active page land in the `i + 1`-th page from the left, for all of them, exactly when the
      active pages and an empty one before them fit in 64 bits; a partial last page needs no more than there is of it. */
  lemma CompactionIsExact(order: seq<uint64>, pages: set<uint64>, pageSize: uint64)
    requires IsOrderOf(order, pages) && order != [] && |order| < WORD
    requires pageSize > 0 && forall page <- pages :: HoldsAddress(page, pageSize)
    ensures (forall i: nat, addr: uint64 :: i < |order| && addr / pageSize == order[i] ==>
               Offset(addr, Skip(order[i], i), pageSize) == Compacted(addr, i, pageSize))
            <==> |order| + (if order[|order| - 1] == WORD / pageSize then 0 else 1) <= WORD / pageSize
  {
    hide Skip;
    hide Offset;
    var n := |order|;
    assert order[n - 1] in pages;
    if n + (if order[n - 1] == WORD / pageSize then 0 else 1) <= WORD / pageSize {
      forall i: nat, addr: uint64 | i < n && addr / pageSize == order[i]
        ensures Offset(addr, Skip(order[i], i), pageSize) == Compacted(addr, i, pageSize)
      {
        if i < n - 1 { assert order[i] < order[n - 1]; }
        OffsetExact(addr, order[i], i, n, order[n - 1], pageSize);
      }
    } else {
      var addr := TooFar(order[n - 1], n, pageSize);
      assert Compacted(addr, n - 1, pageSize) >= WORD;
    }
  }

  /** Some address is on the page. */
  predicate HoldsAddress(page: uint64, pageSize: uint64)
    requires pageSize > 0
  {
    page <= (WORD - 1) / pageSize
  }

  lemma Whole(pageSize: uint64)
    requires pageSize > 0
    ensures var last := WORD / pageSize;
            && last * pageSize + WORD % pageSize == WORD && 0 <= WORD % pageSize < pageSize
            && (last - 1) * pageSize == last * pageSize - pageSize && (last + 1) * pageSize == last * pageSize + pageSize
            && (last + 2) * pageSize == last * pageSize + 2 * pageSize
    ensures forall page: uint64 :: HoldsAddress(page, pageSize) <==> page * pageSize < WORD
    ensures forall page: uint64 :: HoldsAddress(page, pageSize) ==> page <= WORD / pageSize
  {
    Euclid(WORD, pageSize);
    var last := WORD / pageSize;
    Distribute(last, 1, pageSize);
    Distribute(last, -1, pageSize);
    Distribute(last, -2, pageSize);
    forall page: uint64
      ensures HoldsAddress(page, pageSize) <==> page * pageSize < WORD
      ensures HoldsAddress(page, pageSize) ==> page <= WORD / pageSize
    {
      PageStart(page, pageSize);
    }
  }

  /** A page that holds an address starts in the address space. */
  lemma PageStart(page: uint64, pageSize: uint64)
    requires pageSize > 0
    ensures HoldsAddress(page, pageSize) <==> page * pageSize < WORD
    ensures HoldsAddress(page, pageSize) ==> page <= WORD / pageSize
  {
    var top := (WORD - 1) / pageSize;
    Euclid(WORD - 1, pageSize);
    Euclid(WORD, pageSize);
    if page <= top {
      Grows(page, top, pageSize);
      if page > WORD / pageSize {
        Grows(WORD / pageSize + 1, page, pageSize);
        Distribute(WORD / pageSize, -1, pageSize);
        assert false;
      }
    } else {
      Grows(top + 1, page, pageSize);
      Distribute(top, -1, pageSize);
    }
  }

  lemma OffsetExact(addr: uint64, page: uint64, i: nat, n: nat, last: uint64, pageSize: uint64)
    requires pageSize > 0 && addr / pageSize == page && i < n < WORD
    requires if i < n - 1 then page < last else page == last
    requires HoldsAddress(last, pageSize)
    requires n + (if last == WORD / pageSize then 0 else 1) <= WORD / pageSize
    ensures Offset(addr, Skip(page, i), pageSize) == Compacted(addr, i, pageSize)
  {
    hide Skip;
    hide Offset;
    Whole(pageSize);
    Euclid(addr, pageSize);
    if last == WORD / pageSize {
      Grows(n, WORD / pageSize, pageSize);
      if i < n - 1 {
        OffsetFits(addr, i, n - 1, pageSize);
      } else {
        OffsetModulo(addr, i, pageSize);
        assert Compacted(addr, i, pageSize) <= addr;
        ModUnique(Compacted(addr, i, pageSize), 0, Compacted(addr, i, pageSize));
      }
    } else {
      Grows(n + 1, WORD / pageSize, pageSize);
      OffsetFits(addr, i, n, pageSize);
    }
  }

  /** An address of the last active page that would land past the end. */
  lemma TooFar(last: uint64, n: nat, pageSize: uint64) returns (addr: uint64)
    requires pageSize > 0 && n > 0 && HoldsAddress(last, pageSize)
    requires n + (if last == WORD / pageSize then 0 else 1) > WORD / pageSize
    ensures addr / pageSize == last && Compacted(addr, n - 1, pageSize) >= WORD
  {
    Whole(pageSize);
    if last == WORD / pageSize {
      addr := AddressIn(last, 0, pageSize);
      Grows(WORD / pageSize + 1, n, pageSize);
    } else {
      Grows(last + 1, WORD / pageSize, pageSize);
      Distribute(last, -1, pageSize);
      addr := AddressIn(last, pageSize - 1, pageSize);
      Grows(WORD / pageSize, n, pageSize);
    }
  }

  /** For page sizes that divide the address space: exactly when the pages and one more fit in 64 bits. */
  lemma CompactionOfDivisors(order: seq<uint64>, pages: set<uint64>, pageSize: uint64)
    requires IsOrderOf(order, pages) && order != [] && |order| < WORD
    requires pageSize > 0 && WORD % pageSize == 0 && forall page <- pages :: HoldsAddress(page, pageSize)
    ensures (forall i: nat, addr: uint64 :: i < |order| && addr / pageSize == order[i] ==>
               Offset(addr, Skip(order[i], i), pageSize) == Compacted(addr, i, pageSize))
            <==> (|order| + 1) * pageSize <= WORD
  {
    hide Skip;
    hide Offset;
    CompactionIsExact(order, pages, pageSize);
    Whole(pageSize);
    assert order[|order| - 1] in pages;
    if |order| + 1 <= WORD / pageSize {
      Grows(|order| + 1, WORD / pageSize, pageSize);
    } else {
      Grows(WORD / pageSize + 1, |order| + 1, pageSize);
    }
  }

  /** Two active pages of half the address space: an address of the second one wraps around to the start. */
  lemma TwoHalvesWrap()
    ensures var half := 0x8000_0000_0000_0000;
            && IsOrderOf([0, 1], {0, 1}) && HoldsAddress(1, half) && half / half == 1
            && Offset(half, Skip(1, 1), half) == 0 && Compacted(half, 1, half) == WORD
  {
    var half := 0x8000_0000_0000_0000;
    OffsetModulo(half, 1, half);
    ModUnique(WORD, 1, 0);
  }

  lemma OffsetFits(addr: uint64, i: nat, n: nat, pageSize: uint64)
    requires pageSize > 0 && i < n < WORD && (n + 1) * pageSize <= WORD
    ensures addr / pageSize < WORD
    ensures Offset(addr, Skip(addr / pageSize, i), pageSize) == Compacted(addr, i, pageSize) < (n + 1) * pageSize
  {
    hide Skip;
    hide Offset;
    OffsetModulo(addr, i, pageSize);
    Grows(i + 2, n + 1, pageSize);
    Distribute(i + 2, 1, pageSize);
    Euclid(addr, pageSize);
    assert Compacted(addr, i, pageSize) < (i + 2) * pageSize;
    ModUnique(Compacted(addr, i, pageSize), 0, Compacted(addr, i, pageSize));
  }

  /** The address at `rest` bytes into a page. */
  lemma AddressIn(page: uint64, rest: uint64, pageSize: uint64) returns (addr: uint64)
    requires pageSize > 0 && rest < pageSize && page * pageSize + rest < WORD
    ensures addr / pageSize == page && addr % pageSize == rest
  {
    addr := page * pageSize + rest;
    Quotient(addr, page, rest, pageSize);
  }

  /** Moving addresses together keeps their order, so no two of them meet. */
  lemma CompactionKeepsOrder(order: seq<uint64>, pages: set<uint64>, i: nat, j: nat, a: uint64, b: uint64, pageSize: uint64)
    requires IsOrderOf(order, pages) && i < |order| && j < |order|
    requires pageSize > 0 && a / pageSize == order[i] && b / pageSize == order[j]
    ensures Compacted(a, i, pageSize) < Compacted(b, j, pageSize) <==> a < b
  {
    if i <= j {
      CompactedBelow(order[i], order[j], i, j, a, b, pageSize);
    }
    if j <= i {
      CompactedBelow(order[j], order[i], j, i, b, a, pageSize);
    }
  }

  lemma CompactedBelow(p: uint64, q: uint64, i: nat, j: nat, a: uint64, b: uint64, pageSize: uint64)
    requires pageSize > 0 && a / pageSize == p && b / pageSize == q
    requires (i == j && p == q) || (i < j && p < q)
    ensures Compacted(a, i, pageSize) < Compacted(b, j, pageSize) <==> a < b
    ensures Compacted(b, j, pageSize) < Compacted(a, i, pageSize) <==> b < a
  {
    Euclid(a, pageSize);
    Euclid(b, pageSize);
    if p < q {
      Grows(p + 1, q, pageSize);
      Distribute(p + 1, 1, pageSize);
      Grows(i + 2, j + 1, pageSize);
      Distribute(i + 2, 1, pageSize);
    }
  }
}
