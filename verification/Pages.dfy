/** Which pages of a block are shown, and how their addresses are moved together for drawing. Line numbers are those of
    memaviz/block.go. */
module Pages {
  import opened Wrappers
  import opened Bytes
  import opened LinkedStack
  import opened Sorting
  import opened FuncTree
  import opened Compaction

  // ---------- activity ----------

  /** How many of `records` access page `page`. */
  function Activity(records: seq<Record>, pageSize: nat, page: uint64): nat
    requires pageSize > 0
  {
    if records == [] then 0 else
    var last := records[|records| - 1];
    Activity(records[..|records| - 1], pageSize, page)
    + (if last.MemaAccess? && last.addr / pageSize == page then 1 else 0)
  }

  ghost predicate IsActivity(m: map<uint64, nat>, records: seq<Record>, pageSize: nat)
    requires pageSize > 0
  {
    forall page: uint64 :: Activity(records, pageSize, page) == if page in m then m[page] else 0
  }

  /** Pages with less than one `fraction`-th of the busiest page's activity are not drawn. */
  predicate IsQuiet(activity: nat, busiest: nat, fraction: nat) {
    fraction != 0 && activity < busiest / fraction
  }

  ghost predicate IsBusiest(busiest: nat, records: seq<Record>, pageSize: nat)
    requires pageSize > 0
  {
    && (forall page: uint64 :: Activity(records, pageSize, page) <= busiest)
    && (busiest == 0 || exists page: uint64 :: Activity(records, pageSize, page) == busiest)
  }

  /** Lines 43-54. */
  method CountActivity(records: seq<Record>, pageSize: nat) returns (m: map<uint64, nat>)
    requires pageSize > 0
    ensures IsActivity(m, records, pageSize)
    ensures forall page <- m :: m[page] > 0
  {
    m := map[];
    for i := 0 to |records|
      invariant IsActivity(m, records[..i], pageSize)
      invariant forall page <- m :: m[page] > 0
    {
      assert records[..i + 1][..i] == records[..i];
      var r := records[i];
      if r.MemaAccess? {
        var page := r.addr / pageSize;
        m := m[page := (if page in m then m[page] else 0) + 1];
      }
    }
    assert records[..|records|] == records;
  }

  /** Lines 57-62. */
  method Busiest(m: map<uint64, nat>, ghost records: seq<Record>, ghost pageSize: nat) returns (busiest: nat)
    requires pageSize > 0 && IsActivity(m, records, pageSize)
    ensures IsBusiest(busiest, records, pageSize)
  {
    busiest := 0;
    var left := m.Keys;
    while left != {}
      invariant left <= m.Keys
      invariant forall page <- m.Keys - left :: m[page] <= busiest
      invariant busiest == 0 || exists page: uint64 :: page in m && m[page] == busiest
      decreases left
    {
      var page :| page in left;
      left := left - {page};
      if m[page] > busiest { busiest := m[page]; }
    }
  }

  /** Lines 86-94: every accessed page is either quiet or active. */
  method Classify(m: map<uint64, nat>, busiest: nat, fraction: nat) returns (quiet: set<uint64>, active: set<uint64>)
    ensures quiet == set page | page in m && IsQuiet(m[page], busiest, fraction)
    ensures active == m.Keys - quiet
  {
    quiet, active := {}, {};
    var left := m.Keys;
    while left != {}
      invariant left <= m.Keys
      invariant quiet == set page | page in m.Keys - left && IsQuiet(m[page], busiest, fraction)
      invariant active == m.Keys - left - quiet
      decreases left
    {
      var page :| page in left;
      left := left - {page};
      if IsQuiet(m[page], busiest, fraction) {
        quiet := quiet + {page};
      } else {
        active := active + {page};
      }
    }
  }

  // ---------- ranks ----------

  /** Lines 97-103. */
  method SortPages(pages: set<uint64>) returns (order: seq<uint64>)
    ensures IsOrderOf(order, pages)
  {
    var list: seq<uint64> := [];
    var left := pages;
    while left != {}
      invariant left <= pages
      invariant forall page :: page in list <==> page in pages - left
      invariant forall i, j :: 0 <= i < j < |list| ==> list[i] != list[j]
      decreases left
    {
      var page :| page in left;
      left := left - {page};
      list := list + [page];
    }
    var sorted := SortInts(list);
    DistinctWhenSorted(list, sorted);
    assert forall i :: 0 <= i < |sorted| ==> sorted[i] in list;
    order := sorted;
  }

  lemma DistinctWhenSorted(list: seq<int>, order: seq<int>)
    requires multiset(list) == multiset(order) && Ascending(order)
    requires forall i, j :: 0 <= i < j < |list| ==> list[i] != list[j]
    ensures forall i, j :: 0 <= i < j < |order| ==> order[i] < order[j]
    ensures forall page :: page in list <==> page in order
  {
    forall i, j | 0 <= i < j < |order|
      ensures order[i] < order[j]
    {
      if order[i] == order[j] {
        Twice(order, i, j);
        Once(list, order[i]);
      }
    }
    assert forall page :: page in list <==> page in multiset(list);
    assert forall page :: page in order <==> page in multiset(order);
  }

  lemma Twice(s: seq<int>, i: nat, j: nat)
    requires i < j < |s| && s[i] == s[j]
    ensures multiset(s)[s[i]] >= 2
  {
    assert s == s[..i] + [s[i]] + s[i + 1..j] + [s[j]] + s[j + 1..];
  }

  lemma {:induction false} Once(s: seq<int>, x: int)
    requires forall i, j :: 0 <= i < j < |s| ==> s[i] != s[j]
    ensures multiset(s)[x] <= 1
  {
    if s != [] {
      Once(s[1..], x);
      assert s == [s[0]] + s[1..];
      assert s[0] !in s[1..];
    }
  }

  /** Lines 110-121: the running total of pages skipped, in 64-bit arithmetic. Page 0 makes it wrap. */
  method SkippedPages(order: seq<uint64>, ghost pages: set<uint64>) returns (skipped: map<uint64, uint64>)
    requires IsOrderOf(order, pages)
    ensures skipped.Keys == pages
    ensures forall i :: 0 <= i < |order| ==> skipped[order[i]] == Skip(order[i], i)
  {
    hide Add64;
    hide Sub64;
    hide Skip;
    skipped := map[];
    var total: uint64 := 0;
    for i := 0 to |order|
      invariant total == (if i == 0 then 0 else Skip(order[i - 1], i - 1))
      invariant skipped.Keys == set page | page in order[..i]
      invariant forall k :: 0 <= k < i ==> skipped[order[k]] == Skip(order[k], k)
    {
      var page := order[i];
      assert page in pages;
      var inactive: uint64 := if i == 0 then page else Sub64(page, order[i - 1]);
      if i > 0 { assert order[i - 1] in pages; }
      total := Add64(total, Sub64(inactive, 1));
      SkipStep(page, if i == 0 then 0 else order[i - 1], i);
      skipped := skipped[page := total];
      assert order[..i + 1] == order[..i] + [page];
    }
    assert order[..|order|] == order;
  }

  // ---------- the block ----------

  /** What drawing needs to know about a block. */
  datatype Layout = Layout(pageSize: uint64, quiet: set<uint64>, skipped: map<uint64, uint64>)

  /** A floating-point coordinate: a number, positive infinity, or no number at all. */
  datatype Coordinate = At(x: real) | Infinite | NotANumber

  /** A coloured point. */
  datatype Vertex = Vertex(x: Coordinate, y: nat, red: nat, green: nat, blue: nat)

  /** Line 351: the width of the drawing, which wraps. */
  function Width(layout: Layout): uint64 {
    Mul64((|layout.skipped| + 1) % WORD, layout.pageSize)
  }

  /** Lines 416-417: a quotient of floats, which a width of zero makes infinite, or no number for an offset of zero. */
  function Scaled(offset: uint64, width: uint64): Coordinate {
    if width != 0 then At((offset as real / width as real - 0.5) * 4.0)
    else if offset == 0 then NotANumber else Infinite
  }

  /** Where an address is drawn. */
  function Across(layout: Layout, addr: uint64): Coordinate
    requires layout.pageSize > 0
  {
    var page := addr / layout.pageSize;
    var skipped := if page in layout.skipped then layout.skipped[page] else 0;
    Scaled(Offset(addr, skipped, layout.pageSize), Width(layout))
  }

  /** Line 419: nothing compares above or below what is no number. */
  predicate PassesCheck(x: Coordinate) {
    match x case At(x) => -4.0 <= x <= 4.0 case Infinite => false case NotANumber => true
  }

  /** Stack depth after `rs`, from `depth`. */
  function Depth(depth: int, rs: seq<Record>): int {
    if rs == [] then depth else
    var before := Depth(depth, rs[..|rs| - 1]);
    match rs[|rs| - 1] case FuncEnter(_) => before + 1 case FuncExit(_) => before - 1 case MemaAccess(_, _) => before
  }

  /** What record `pos` adds to the drawing, at the stack depth before it. */
  function Draw(layout: Layout, depth: int, pos: nat, r: Record): seq<Vertex>
    requires layout.pageSize > 0
  {
    match r
    case FuncEnter(_) => [Vertex(At(2.0 + (depth + 1) as real / 80.0), pos, 64, 64, 255)]
    case FuncExit(_) => [Vertex(At(2.0 + depth as real / 80.0), pos, 255, 64, 64)]
    case MemaAccess(addr, isWrite) =>
      if addr / layout.pageSize in layout.quiet then []
      else [Vertex(Across(layout, addr), pos, if isWrite then 255 else 0, if isWrite then 0 else 255, 0)]
  }

  function Vertices(layout: Layout, depth: int, rs: seq<Record>): seq<Vertex>
    requires layout.pageSize > 0
  {
    if rs == [] then [] else
    var init := rs[..|rs| - 1];
    Vertices(layout, depth, init) + Draw(layout, Depth(depth, init), |init|, rs[|rs| - 1])
  }

  /** The depth drawn is the height of the replayed stack. */
  lemma {:induction false} DepthIsStackHeight(frames: seq<Record>, rs: seq<Record>)
    requires Replay(frames, rs).Some?
    ensures Depth(|frames|, rs) == |Replay(frames, rs).value|
  {
    if rs != [] {
      var init, last := rs[..|rs| - 1], [rs[|rs| - 1]];
      assert rs == init + last;
      ReplayAppend(frames, init, last);
      DepthIsStackHeight(frames, init);
      assert last[1..] == [];
    }
  }

  /** The active pages in order, each with the pages skipped before it. */
  ghost predicate HasSkips(layout: Layout, order: seq<uint64>) {
    && layout.pageSize > 0
    && IsOrderOf(order, layout.skipped.Keys)
    && forall i :: 0 <= i < |order| ==> layout.skipped[order[i]] == Skip(order[i], i)
  }

  /** The layout of a block: accessed pages are quiet or active, and active ones carry their skips. */
  ghost predicate IsLayout(layout: Layout, order: seq<uint64>, records: seq<Record>) {
    && HasSkips(layout, order)
    && forall r <- records :: r.MemaAccess? ==>
         r.addr / layout.pageSize in layout.quiet || r.addr / layout.pageSize in layout.skipped
  }

  // ---------- the range check ----------

  lemma ScaledPasses(offset: uint64, width: uint64)
    ensures PassesCheck(Scaled(offset, width)) <==> if width == 0 then offset == 0 else 2 * offset <= 3 * width
  {
    if width != 0 {
      RatioBound(offset as real, width as real);
      assert (2 * offset) as real == 2.0 * offset as real && (3 * width) as real == 3.0 * width as real;
    }
  }

  lemma RatioBound(part: real, whole: real)
    requires whole > 0.0
    ensures part / whole <= 1.5 <==> part <= 1.5 * whole
  {
    var ratio := part / whole;
    assert ratio * whole == part;
    if ratio <= 1.5 {
      assert (1.5 - ratio) * whole >= 0.0;
    } else {
      assert (ratio - 1.5) * whole > 0.0;
    }
  }

  lemma Proportion(part: nat, whole: nat)
    requires 0 < part < whole
    ensures -2.0 < (part as real / whole as real - 0.5) * 4.0 < 2.0
  {}

  /** The coordinate of an address of the `i`-th active page, in numbers. */
  lemma AcrossOf(layout: Layout, order: seq<uint64>, i: nat, addr: uint64)
    requires HasSkips(layout, order) && i < |order| < WORD && addr / layout.pageSize == order[i]
    ensures Across(layout, addr) == Scaled(Compacted(addr, i, layout.pageSize) % WORD,
                                           (|order| + 1) * layout.pageSize % WORD)
  {
    hide Skip;
    hide Offset;
    hide Scaled;
    OrderLength(order, layout.skipped.Keys);
    assert order[i] in layout.skipped.Keys;
    OffsetModulo(addr, i, layout.pageSize);
    WrappedProduct(|order| + 1, layout.pageSize);
  }

  /** When the active pages and one more fit in 64 bits, nothing wraps. */
  lemma AcrossFits(layout: Layout, order: seq<uint64>, i: nat, addr: uint64)
    requires HasSkips(layout, order) && i < |order| && addr / layout.pageSize == order[i]
    requires (|order| + 1) * layout.pageSize < WORD
    ensures 0 < Compacted(addr, i, layout.pageSize) < (|order| + 1) * layout.pageSize
    ensures Across(layout, addr) == Scaled(Compacted(addr, i, layout.pageSize), (|order| + 1) * layout.pageSize)
  {
    hide Skip;
    hide Across;
    hide Scaled;
    var n, c := |order|, layout.pageSize;
    Grows(1, c, n + 1);
    Grows(1, n + 1, c);
    Grows(1, i + 1, c);
    OffsetFits(addr, i, n, c);
    AcrossOf(layout, order, i, addr);
    ModUnique(Compacted(addr, i, c), 0, Compacted(addr, i, c));
    ModUnique((n + 1) * c, 0, (n + 1) * c);
    Euclid(addr, c);
  }

  /** Then every address drawn lands strictly inside the drawing. */
  lemma AcrossInside(layout: Layout, order: seq<uint64>, addr: uint64)
    requires HasSkips(layout, order) && addr / layout.pageSize in layout.skipped
    requires (|order| + 1) * layout.pageSize < WORD
    ensures var x := Across(layout, addr); x.At? && -2.0 < x.x < 2.0
  {
    hide Across;
    var i := RankIn(order, layout.skipped.Keys, addr / layout.pageSize);
    AcrossFits(layout, order, i, addr);
    Proportion(Compacted(addr, i, layout.pageSize), (|order| + 1) * layout.pageSize);
  }

  /** A record whose coordinate, if it is drawn at all, passes the check. */
  ghost predicate InRange(layout: Layout, r: Record)
    requires layout.pageSize > 0
  {
    r.MemaAccess? && r.addr / layout.pageSize !in layout.quiet ==> PassesCheck(Across(layout, r.addr))
  }

  ghost predicate Drawable(layout: Layout, records: seq<Record>)
    requires layout.pageSize > 0
  {
    forall k :: 0 <= k < |records| ==> InRange(layout, records[k])
  }

  /** The range panic cannot happen when the active pages and one more fit in 64 bits. */
  lemma NeverOutOfRange(layout: Layout, order: seq<uint64>, records: seq<Record>)
    requires IsLayout(layout, order, records) && (|order| + 1) * layout.pageSize < WORD
    ensures Drawable(layout, records)
  {
    hide Across;
    forall k | 0 <= k < |records|
      ensures InRange(layout, records[k])
    {
      var r := records[k];
      if r.MemaAccess? && r.addr / layout.pageSize !in layout.quiet { AcrossInside(layout, order, r.addr); }
    }
  }

  /** All addresses of active pages pass the check if and only if the active pages and one more take less than 2^64
      bytes, or a width that has wrapped is still wide enough for any offset. */
  lemma RangeIsExact(layout: Layout, order: seq<uint64>)
    requires HasSkips(layout, order) && order != [] && |order| < WORD
    requires forall page <- layout.skipped.Keys :: HoldsAddress(page, layout.pageSize)
    ensures (forall addr: uint64 :: addr / layout.pageSize in layout.skipped ==> PassesCheck(Across(layout, addr)))
            <==> var needed := (|order| + 1) * layout.pageSize;
                 needed < WORD || 2 * (WORD - 1) <= 3 * (needed % WORD)
  {
    hide Across;
    hide Skip;
    var needed := (|order| + 1) * layout.pageSize;
    if needed < WORD || 2 * (WORD - 1) <= 3 * (needed % WORD) {
      forall addr: uint64 | addr / layout.pageSize in layout.skipped
        ensures PassesCheck(Across(layout, addr))
      {
        if needed < WORD {
          AcrossInside(layout, order, addr);
        } else {
          var i := RankIn(order, layout.skipped.Keys, addr / layout.pageSize);
          AcrossOf(layout, order, i, addr);
          ScaledPasses(Compacted(addr, i, layout.pageSize) % WORD, needed % WORD);
        }
      }
    } else {
      var addr := OutOfRange(layout, order);
    }
  }

  /** For page sizes that divide 2^64, or are at most a third of it, a width that has wrapped is never wide enough. */
  lemma RangeOfUsualPages(layout: Layout, order: seq<uint64>)
    requires HasSkips(layout, order) && order != [] && |order| < WORD
    requires forall page <- layout.skipped.Keys :: HoldsAddress(page, layout.pageSize)
    requires WORD % layout.pageSize == 0 || 3 * layout.pageSize <= WORD
    ensures (forall addr: uint64 :: addr / layout.pageSize in layout.skipped ==> PassesCheck(Across(layout, addr)))
            <==> (|order| + 1) * layout.pageSize < WORD
  {
    hide Across;
    hide Skip;
    RangeIsExact(layout, order);
    if (|order| + 1) * layout.pageSize >= WORD {
      var i, rest := TooWide(order, layout.skipped.Keys, layout.pageSize);
    }
  }

  /** An address that fails the check. */
  lemma OutOfRange(layout: Layout, order: seq<uint64>) returns (addr: uint64)
    requires HasSkips(layout, order) && order != [] && |order| < WORD
    requires forall page <- layout.skipped.Keys :: HoldsAddress(page, layout.pageSize)
    requires (|order| + 1) * layout.pageSize >= WORD
    requires 2 * (WORD - 1) > 3 * ((|order| + 1) * layout.pageSize % WORD)
    ensures addr / layout.pageSize in layout.skipped && !PassesCheck(Across(layout, addr))
  {
    hide Skip;
    hide Across;
    var n, c := |order|, layout.pageSize;
    var i, rest;
    if WORD % c == 0 || 3 * c <= WORD {
      i, rest := TooWide(order, layout.skipped.Keys, c);
    } else {
      i, rest := LastOffset(order, layout.skipped.Keys, c);
    }
    assert order[i] in layout.skipped.Keys;
    addr := AddressIn(order[i], rest, c);
    AcrossOf(layout, order, i, addr);
    ScaledPasses(Compacted(addr, i, c) % WORD, (n + 1) * c % WORD);
  }

  /** Where it is. The width has wrapped: to zero, when all pages but one are active; to about a page, when one more is;
      to about two, when a partial last page is active as well. */
  lemma TooWide(order: seq<uint64>, pages: set<uint64>, c: uint64) returns (i: nat, rest: uint64)
    requires IsOrderOf(order, pages) && order != [] && |order| < WORD && c > 0
    requires forall page <- pages :: HoldsAddress(page, c)
    requires WORD % c == 0 || 3 * c <= WORD
    requires (|order| + 1) * c >= WORD
    ensures i < |order| && rest < c && order[i] * c + rest < WORD
    ensures IsTooFar((rest + (i + 1) * c) % WORD, (|order| + 1) * c % WORD)
  {
    hide IsTooFar;
    hide HoldsAddress;
    var n := |order|;
    assert order[n - 1] in pages && order[0] in pages;
    AtLeastRank(order, pages, n - 1);
    PageStart(order[n - 1], c);
    PageStart(order[0], c);
    Grows(n - 1, order[n - 1], c);
    Euclid(WORD, c);
    i, rest := Overshoot(n, c);
    if i + 1 < n {
      assert order[i + 1] in pages;
      PageStart(order[i + 1], c);
      RoomFor(order, WORD / c, i, rest, c);
    }
  }

  /** With one or two huge pages and a partial one, some address of an active page is drawn at the largest offset. */
  lemma LastOffset(order: seq<uint64>, pages: set<uint64>, c: uint64) returns (i: nat, rest: uint64)
    requires IsOrderOf(order, pages) && order != [] && c > 0 && WORD % c > 0 && WORD < 3 * c
    requires forall page <- pages :: HoldsAddress(page, c)
    requires (|order| + 1) * c >= WORD
    ensures i < |order| && rest < c && order[i] * c + rest < WORD
    ensures (rest + (i + 1) * c) % WORD == WORD - 1
  {
    var whole := WORD / c;
    Whole(c);
    AtLeast(whole, 1, c);
    if whole >= 3 { Grows(3, whole, c); }
    AtLeast(|order|, whole, c);
    i, rest := whole - 1, WORD % c - 1;
    assert order[i] in pages;
    if order[i] < whole { Grows(order[i], whole - 1, c); } else { Grows(order[i], whole, c); }
    ModUnique(rest + (i + 1) * c, 0, WORD - 1);
  }

  predicate IsTooFar(offset: uint64, width: uint64) {
    if width == 0 then offset != 0 else 2 * offset > 3 * width
  }

  lemma Overshoot(n: nat, c: uint64) returns (i: nat, rest: uint64)
    requires 0 < n < WORD && 0 < c && (WORD % c == 0 || 3 * c <= WORD)
    requires WORD <= (n + 1) * c && (n - 1) * c < WORD
    ensures (i + 1 < n || (i == 0 && rest == 0)) && i < n && rest < c
    ensures IsTooFar((rest + (i + 1) * c) % WORD, (n + 1) * c % WORD)
  {
    Distribute(n, 1, c);
    Distribute(n, -1, c);
    HalfAtMost(c);
    var width := n * c + c - WORD;
    ModUnique((n + 1) * c, 1, width);
    if width == 0 {
      i, rest := 0, 0;
      ModUnique(c, 0, c);
    } else if width <= c {
      AtLeast(n, 2, c);
      if c <= 2 { AtLeast(n, 3, c); }
      i, rest := if c <= 2 then 1 else 0, if c <= 2 then 0 else c - 1;
      ModUnique(rest + (i + 1) * c, 0, rest + (i + 1) * c);
    } else {
      NoMoreThanOne(n, c);
      AtLeast(n, 3, c);
      i, rest := 1, c - 1;
      ModUnique(3 * c - 1, 0, 3 * c - 1);
    }
  }

  lemma HalfAtMost(c: uint64)
    requires 0 < c && (WORD % c == 0 || 3 * c <= WORD)
    ensures 2 * c <= WORD
  {
    Euclid(WORD, c);
    if WORD / c >= 2 { Grows(2, WORD / c, c); }
  }

  lemma AtLeast(n: nat, least: nat, c: uint64)
    requires least * c < n * c + c
    ensures n >= least
  {
    if n < least {
      Grows(n + 1, least, c);
      Distribute(n, -1, c);
    }
  }

  /** Multiples of the page size around the address space are one page apart. */
  lemma NoMoreThanOne(n: nat, c: uint64)
    requires 0 < c && WORD < n * c < WORD + c && (WORD % c == 0 || 3 * c <= WORD)
    ensures 3 * c <= WORD
  {
    if WORD % c == 0 {
      Euclid(WORD, c);
      if n <= WORD / c { Grows(n, WORD / c, c); }
      Grows(WORD / c + 1, n, c);
      Distribute(WORD / c, -1, c);
      assert false;
    }
  }

  /** Pages before the last active one are whole. */
  lemma RoomFor(order: seq<uint64>, whole: nat, i: nat, rest: uint64, c: uint64)
    requires i + 1 < |order| && order[i] < order[i + 1] <= whole && rest < c && whole * c <= WORD
    ensures order[i] * c + rest < WORD
  {
    Grows(order[i] + 1, whole, c);
    Distribute(order[i], -1, c);
  }

  /** One active page of half the address space: the width wraps to zero, and drawing its first byte panics. */
  lemma HalfPagePanics(isWrite: bool)
    ensures var half := 0x8000_0000_0000_0000;
            var layout := Layout(half, {}, map[0 := Skip(0, 0)]);
            && IsLayout(layout, [0], [MemaAccess(0, isWrite)])
            && Across(layout, 0) == Infinite && !Drawable(layout, [MemaAccess(0, isWrite)])
  {
    var half := 0x8000_0000_0000_0000;
    var layout := Layout(half, {}, map[0 := Skip(0, 0)]);
    AcrossOf(layout, [0], 0, 0);
    assert !InRange(layout, [MemaAccess(0, isWrite)][0]);
  }

  /** A page one byte short of the address space: nothing fits, and every address of it passes all the same. */
  lemma HugePagePasses(addr: uint64)
    requires addr < WORD - 1
    ensures var layout := Layout(WORD - 1, {}, map[0 := Skip(0, 0)]);
            HasSkips(layout, [0]) && addr / layout.pageSize == 0 && PassesCheck(Across(layout, addr))
  {
    var layout := Layout(WORD - 1, {}, map[0 := Skip(0, 0)]);
    Quotient(addr, 0, addr, WORD - 1);
    AcrossOf(layout, [0], 0, addr);
    ModUnique(2 * (WORD - 1), 1, WORD - 2);
    ModUnique(addr + (WORD - 1), if addr == 0 then 0 else 1, if addr == 0 then WORD - 1 else addr - 1);
    ScaledPasses((addr + (WORD - 1)) % WORD, WORD - 2);
  }

  class Block {
    const pageSize: uint64
    const hideFraction: nat
    const contextDepth: nat
    var records: seq<Record>
    var quietPages: set<uint64>
    var activePages: set<uint64>
    var displayActivePages: set<uint64>
    var nPagesToLeft: map<uint64, nat>
    var nInactiveToLeft: map<uint64, uint64>
    ghost var order: seq<uint64>

    constructor (pageSize: uint64, hideFraction: nat, contextDepth: nat, records: seq<Record>)
      requires pageSize > 0
      ensures this.pageSize == pageSize && this.hideFraction == hideFraction && this.contextDepth == contextDepth
      ensures this.records == records
    {
      this.pageSize, this.hideFraction, this.contextDepth, this.records := pageSize, hideFraction, contextDepth, records;
      quietPages, activePages, displayActivePages, order := {}, {}, {}, [];
      nPagesToLeft, nInactiveToLeft := map[], map[];
    }

    function TheLayout(): Layout
      reads this
    {
      Layout(pageSize, quietPages, nInactiveToLeft)
    }

    /** `ActiveRegionIDs`. The pages of no earlier block are copied: `Nblockpast` is zero. */
    method ActiveRegionIDs()
      requires pageSize > 0
      modifies this
      ensures records == old(records)
      ensures IsSplit(quietPages, activePages, records, pageSize, hideFraction)
      ensures displayActivePages == activePages
      ensures IsOrderOf(order, activePages) && nPagesToLeft.Keys == activePages
      ensures forall i :: 0 <= i < |order| ==> nPagesToLeft[order[i]] == i
      ensures nInactiveToLeft.Keys == activePages && IsLayout(TheLayout(), order, records)
      ensures forall page <- activePages :: HoldsAddress(page, pageSize)
    {
      hide IsActivity;
      hide IsBusiest;
      hide IsSplit;
      var m := CountActivity(records, pageSize);
      var busiest := Busiest(m, records, pageSize);
      quietPages, activePages := Classify(m, busiest, hideFraction);
      PagesAreSplit(m, busiest, quietPages, activePages, records, pageSize, hideFraction);
      ActivePagesExist(quietPages, activePages, records, pageSize, hideFraction);
      displayActivePages := activePages;
      var list := SortPages(displayActivePages);
      order := list;
      nPagesToLeft := Ranks(list, displayActivePages);
      nInactiveToLeft := SkippedPages(list, displayActivePages);
    }

    /** `GenerateVertices`; nothing stands for the panic on a coordinate that is out of range. The records are given up
        once they are drawn. */
    method GenerateVertices() returns (r: Option<seq<Vertex>>)
      requires pageSize > 0
      modifies `records
      ensures r.Some? <==> Drawable(TheLayout(), old(records))
      ensures r.Some? ==> r.value == Vertices(TheLayout(), contextDepth, old(records)) && records == []
      ensures r.None? ==> records == old(records)
    {
      hide Across;
      var depth: int := contextDepth;
      var vertices: seq<Vertex> := [];
      var layout := TheLayout();
      var rs := records;
      for pos := 0 to |rs|
        invariant depth == Depth(contextDepth, rs[..pos])
        invariant vertices == Vertices(layout, contextDepth, rs[..pos])
        invariant forall k :: 0 <= k < pos ==> InRange(layout, rs[k])
      {
        assert rs[..pos + 1][..pos] == rs[..pos];
        match rs[pos]
        case FuncEnter(_) =>
          depth := depth + 1;
          vertices := vertices + [Vertex(At(2.0 + depth as real / 80.0), pos, 64, 64, 255)];
        case FuncExit(_) =>
          vertices := vertices + [Vertex(At(2.0 + depth as real / 80.0), pos, 255, 64, 64)];
          depth := depth - 1;
        case MemaAccess(addr, isWrite) =>
          if addr / pageSize !in quietPages {
            var x := Across(layout, addr);
            if x.Infinite? || (x.At? && (x.x > 4.0 || x.x < -4.0)) {
              assert !InRange(layout, rs[pos]);
              return None;
            }
            vertices := vertices + [Vertex(x, pos, if isWrite then 255 else 0, if isWrite then 0 else 255, 0)];
          }
      }
      assert rs[..|rs|] == rs;
      records := [];
      return Some(vertices);
    }
  }

  /** Every accessed page, and no other, is either quiet or active, and the quiet ones are those with little of the
      busiest page's activity. */
  ghost predicate IsSplit(quiet: set<uint64>, active: set<uint64>, records: seq<Record>, pageSize: nat, fraction: nat)
    requires pageSize > 0
  {
    exists busiest: nat ::
      IsBusiest(busiest, records, pageSize) && SplitBy(busiest, quiet, active, records, pageSize, fraction)
  }

  ghost predicate SplitBy(busiest: nat, quiet: set<uint64>, active: set<uint64>, records: seq<Record>, pageSize: nat,
                          fraction: nat)
    requires pageSize > 0
  {
    forall page: uint64 :: var n := Activity(records, pageSize, page);
      && (page in quiet <==> n > 0 && IsQuiet(n, busiest, fraction))
      && (page in active <==> n > 0 && !IsQuiet(n, busiest, fraction))
  }

  lemma PagesAreSplit(m: map<uint64, nat>, busiest: nat, quiet: set<uint64>, active: set<uint64>, records: seq<Record>,
                      pageSize: nat, fraction: nat)
    requires pageSize > 0 && IsActivity(m, records, pageSize) && (forall page <- m :: m[page] > 0)
    requires IsBusiest(busiest, records, pageSize)
    requires quiet == (set page | page in m && IsQuiet(m[page], busiest, fraction)) && active == m.Keys - quiet
    ensures IsSplit(quiet, active, records, pageSize, fraction)
    ensures forall r <- records :: r.MemaAccess? ==> r.addr / pageSize in quiet || r.addr / pageSize in active
  {
    hide Activity;
    hide IsBusiest;
    hide IsQuiet;
    assert SplitBy(busiest, quiet, active, records, pageSize, fraction);
    forall r | r in records && r.MemaAccess?
      ensures r.addr / pageSize in m
    {
      AccessedIsActive(records, pageSize, r);
    }
  }

  /** An active page holds an address, of some record. */
  lemma ActivePagesExist(quiet: set<uint64>, active: set<uint64>, records: seq<Record>, pageSize: uint64, fraction: nat)
    requires pageSize > 0 && IsSplit(quiet, active, records, pageSize, fraction)
    ensures forall page <- active :: HoldsAddress(page, pageSize)
  {
    hide Activity;
    hide IsBusiest;
    hide HoldsAddress;
    forall page | page in active
      ensures HoldsAddress(page, pageSize)
    {
      ActiveHoldsAddress(records, pageSize, page);
    }
  }

  lemma {:induction false} ActiveHoldsAddress(records: seq<Record>, pageSize: uint64, page: uint64)
    requires pageSize > 0 && Activity(records, pageSize, page) > 0
    ensures HoldsAddress(page, pageSize)
  {
    var last := records[|records| - 1];
    if last.MemaAccess? && last.addr / pageSize == page {
      Euclid(last.addr, pageSize);
      PageStart(page, pageSize);
    } else {
      ActiveHoldsAddress(records[..|records| - 1], pageSize, page);
    }
  }

  /** Lines 105-108. */
  method Ranks(order: seq<uint64>, ghost pages: set<uint64>) returns (ranks: map<uint64, nat>)
    requires IsOrderOf(order, pages)
    ensures ranks.Keys == pages
    ensures forall i :: 0 <= i < |order| ==> ranks[order[i]] == i
  {
    ranks := map[];
    for i := 0 to |order|
      invariant ranks.Keys == set page | page in order[..i]
      invariant forall k :: 0 <= k < i ==> ranks[order[k]] == k
    {
      ranks := ranks[order[i] := i];
      assert order[..i + 1] == order[..i] + [order[i]];
    }
    assert order[..|order|] == order;
  }

  lemma {:induction false} AccessedIsActive(records: seq<Record>, pageSize: nat, r: Record)
    requires pageSize > 0 && r in records && r.MemaAccess?
    ensures Activity(records, pageSize, r.addr / pageSize) > 0
  {
    var init, last := records[..|records| - 1], records[|records| - 1];
    assert records == init + [last];
    if r != last {
      AccessedIsActive(init, pageSize, r);
    }
  }
}