/** What a drawn block looks like: its addresses from left to right, a stretch for each active page, a row for each
    record. Line numbers are those of memaviz/block.go. */
module Drawing {
  import opened Wrappers
  import opened Bytes
  import opened FuncTree
  import opened Compaction
  import opened Pages

  // ---------- from left to right ----------

  lemma Shares(part: real, whole: real, i: nat, n: nat, rest: nat, c: nat)
    requires c > 0 && part == rest as real + (i + 1) as real * c as real && whole == (n + 1) as real * c as real
    ensures whole > 0.0 && part / whole == ((i + 1) as real + rest as real / c as real) / (n + 1) as real
  {
    var share := rest as real / c as real;
    assert share * c as real == rest as real;
    var x := ((i + 1) as real + share) / (n + 1) as real;
    assert x * (n + 1) as real == (i + 1) as real + share;
    assert x * whole == x * (n + 1) as real * c as real == ((i + 1) as real + share) * c as real == part;
  }

  lemma Product(a: nat, c: nat)
    ensures (a * c) as real == a as real * c as real
  {}

  /** Where an address is drawn: the `n` active pages share the drawing from -2 to 2 with an empty stretch of the same
      width at its left end. */
  lemma AcrossPlace(layout: Layout, order: seq<uint64>, i: nat, addr: uint64)
    requires HasSkips(layout, order) && i < |order| && addr / layout.pageSize == order[i]
    requires (|order| + 1) * layout.pageSize < WORD
    ensures var inPage := (addr % layout.pageSize) as real / layout.pageSize as real;
            Across(layout, addr) == At(-2.0 + 4.0 * (((i + 1) as real + inPage) / (|order| + 1) as real))
  {
    hide Across;
    AcrossFits(layout, order, i, addr);
    ScaledShare(addr, i, |order|, layout.pageSize);
    hide Scaled;
    hide HasSkips;
  }

  lemma ScaledShare(addr: uint64, i: nat, n: nat, c: uint64)
    requires c > 0 && Compacted(addr, i, c) < (n + 1) * c < WORD
    ensures Scaled(Compacted(addr, i, c), (n + 1) * c)
            == At(-2.0 + 4.0 * (((i + 1) as real + (addr % c) as real / c as real) / (n + 1) as real))
  {
    Product(i + 1, c);
    Product(n + 1, c);
    Shares(Compacted(addr, i, c) as real, ((n + 1) * c) as real, i, n, addr % c, c);
  }

  lemma ShareRises(x: real, y: real, n: nat)
    ensures x / (n + 1) as real < y / (n + 1) as real <==> x < y
  {
    var whole := (n + 1) as real;
    var a, b := x / whole, y / whole;
    assert a * whole == x && b * whole == y;
    if a < b { assert (b - a) * whole > 0.0; }
    if a >= b { assert (a - b) * whole >= 0.0; }
  }

  lemma PartOfPage(rest: nat, c: nat)
    requires rest < c
    ensures 0.0 <= rest as real / c as real < 1.0
  {}

  /** The page of rank `i` fills one stretch. */
  lemma StretchOfPage(layout: Layout, order: seq<uint64>, i: nat, addr: uint64)
    requires HasSkips(layout, order) && i < |order| && addr / layout.pageSize == order[i]
    requires (|order| + 1) * layout.pageSize < WORD
    ensures Across(layout, addr).At?
    ensures var n := (|order| + 1) as real;
            -2.0 + 4.0 * ((i + 1) as real / n) <= Across(layout, addr).x < -2.0 + 4.0 * ((i + 2) as real / n)
  {
    hide Across;
    AcrossPlace(layout, order, i, addr);
    var inPage := (addr % layout.pageSize) as real / layout.pageSize as real;
    PartOfPage(addr % layout.pageSize, layout.pageSize);
    ShareRises((i + 1) as real + inPage, (i + 2) as real, |order|);
    ShareRises((i + 1) as real + inPage, (i + 1) as real, |order|);
  }

  /** Addresses of active pages are drawn in their order. */
  lemma AcrossKeepsOrder(layout: Layout, order: seq<uint64>, a: uint64, b: uint64)
    requires HasSkips(layout, order) && (|order| + 1) * layout.pageSize < WORD
    requires a / layout.pageSize in layout.skipped && b / layout.pageSize in layout.skipped
    ensures Across(layout, a).At? && Across(layout, b).At?
    ensures a < b <==> Across(layout, a).x < Across(layout, b).x
  {
    hide Across;
    var i := RankIn(order, layout.skipped.Keys, a / layout.pageSize);
    var j := RankIn(order, layout.skipped.Keys, b / layout.pageSize);
    AcrossFits(layout, order, i, a);
    AcrossFits(layout, order, j, b);
    CompactionKeepsOrder(order, layout.skipped.Keys, i, j, a, b, layout.pageSize);
    ScaledRises(Compacted(a, i, layout.pageSize), Compacted(b, j, layout.pageSize), (|order| + 1) * layout.pageSize);
  }

  lemma ScaledRises(a: uint64, b: uint64, width: uint64)
    requires width > 0
    ensures Scaled(a, width).At? && Scaled(b, width).At?
    ensures a < b <==> Scaled(a, width).x < Scaled(b, width).x
  {
    ShareRises(a as real, b as real, width - 1);
  }

  // ---------- which pages ----------

  /** A page is quiet exactly if `fraction` times one access more than it has is at most what the busiest page has. */
  lemma QuietIsExact(activity: nat, busiest: nat, fraction: nat)
    ensures IsQuiet(activity, busiest, fraction) <==> fraction > 0 && (activity + 1) * fraction <= busiest
  {
    if fraction > 0 {
      Euclid(busiest, fraction);
      if activity < busiest / fraction {
        Grows(activity + 1, busiest / fraction, fraction);
      } else {
        Grows(busiest / fraction + 1, activity + 1, fraction);
        Distribute(busiest / fraction, -1, fraction);
      }
    }
  }

  /** The busiest pages are active, and so is every page that is busier than an active one. */
  lemma BusyIsActive(quiet: set<uint64>, active: set<uint64>, records: seq<Record>, pageSize: nat, fraction: nat,
                     page: uint64)
    requires pageSize > 0 && IsSplit(quiet, active, records, pageSize, fraction) && Activity(records, pageSize, page) > 0
    ensures (forall other: uint64 :: Activity(records, pageSize, other) <= Activity(records, pageSize, page)) ==> page in active
    ensures forall other <- active :: Activity(records, pageSize, other) <= Activity(records, pageSize, page) ==> page in active
  {
    hide Activity;
    var busiest: nat :| IsBusiest(busiest, records, pageSize)
                        && SplitBy(busiest, quiet, active, records, pageSize, fraction);
    if fraction > 0 {
      Euclid(busiest, fraction);
      Grows(1, fraction, busiest / fraction);
    }
  }

  // ---------- rows ----------

  predicate IsDrawn(layout: Layout, r: Record)
    requires layout.pageSize > 0
  {
    r.MemaAccess? ==> r.addr / layout.pageSize !in layout.quiet
  }

  /** The places of the records that are drawn. */
  function DrawnRows(layout: Layout, rs: seq<Record>): seq<nat>
    requires layout.pageSize > 0
  {
    if rs == [] then [] else
    var init := rs[..|rs| - 1];
    DrawnRows(layout, init) + if IsDrawn(layout, rs[|rs| - 1]) then [|init|] else []
  }

  function Rows(vs: seq<Vertex>): (rows: seq<nat>)
    ensures |rows| == |vs|
  {
    seq(|vs|, i requires 0 <= i < |vs| => vs[i].y)
  }

  /** One vertex for each record that is not of a quiet page, in the row of its place. */
  lemma {:induction false} RowsArePlaces(layout: Layout, depth: int, rs: seq<Record>)
    requires layout.pageSize > 0
    ensures Rows(Vertices(layout, depth, rs)) == DrawnRows(layout, rs)
    decreases |rs|
  {
    hide Across;
    if rs != [] {
      var init, last := rs[..|rs| - 1], rs[|rs| - 1];
      RowsArePlaces(layout, depth, init);
      RowOf(layout, Depth(depth, init), |init|, last);
      hide Draw;
      RowsAppend(Vertices(layout, depth, init), Draw(layout, Depth(depth, init), |init|, last));
    }
  }

  lemma RowOf(layout: Layout, depth: int, pos: nat, r: Record)
    requires layout.pageSize > 0
    ensures Rows(Draw(layout, depth, pos, r)) == if IsDrawn(layout, r) then [pos] else []
  {}

  lemma RowsAppend(a: seq<Vertex>, b: seq<Vertex>)
    ensures Rows(a + b) == Rows(a) + Rows(b)
  {}

  // ---------- one small block ----------

  /** A call that reads page 0 and writes page 1. */
  const CALL: seq<Record> := [FuncEnter(5), MemaAccess(0, false), MemaAccess(4096, true), FuncExit(5)]

  lemma ActivitySnoc(rs: seq<Record>, r: Record, pageSize: nat, page: uint64)
    requires pageSize > 0
    ensures Activity(rs + [r], pageSize, page)
            == Activity(rs, pageSize, page) + (if r.MemaAccess? && r.addr / pageSize == page then 1 else 0)
  {
    assert (rs + [r])[..|rs|] == rs;
  }

  lemma VerticesSnoc(layout: Layout, rs: seq<Record>, r: Record)
    requires layout.pageSize > 0
    ensures Vertices(layout, 0, rs + [r]) == Vertices(layout, 0, rs) + Draw(layout, Depth(0, rs), |rs|, r)
    ensures Depth(0, rs + [r]) == Depth(0, rs) + (match r case FuncEnter(_) => 1 case FuncExit(_) => -1 case _ => 0)
  {
    hide Draw;
    assert (rs + [r])[..|rs|] == rs;
  }

  lemma CallActivity(page: uint64)
    ensures Activity(CALL, 4096, page) == if page == 0 || page == 1 then 1 else 0
  {
    assert Activity([], 4096, page) == 0;
    ActivitySnoc([], FuncEnter(5), 4096, page);
    ActivitySnoc([FuncEnter(5)], MemaAccess(0, false), 4096, page);
    ActivitySnoc([FuncEnter(5), MemaAccess(0, false)], MemaAccess(4096, true), 4096, page);
    ActivitySnoc([FuncEnter(5), MemaAccess(0, false), MemaAccess(4096, true)], FuncExit(5), 4096, page);
    hide Activity;
    CallInSteps();
  }

  lemma CallInSteps()
    ensures [] + [FuncEnter(5)] == [FuncEnter(5)]
    ensures [FuncEnter(5)] + [MemaAccess(0, false)] == [FuncEnter(5), MemaAccess(0, false)]
    ensures [FuncEnter(5), MemaAccess(0, false)] + [MemaAccess(4096, true)]
            == [FuncEnter(5), MemaAccess(0, false), MemaAccess(4096, true)]
    ensures [FuncEnter(5), MemaAccess(0, false), MemaAccess(4096, true)] + [FuncExit(5)] == CALL
  {}

  lemma CallPages(quiet: set<uint64>, active: set<uint64>, order: seq<uint64>)
    requires IsSplit(quiet, active, CALL, 4096, 0) && IsOrderOf(order, active)
    ensures quiet == {} && active == {0, 1} && order == [0, 1]
  {
    hide Activity;
    hide CALL;
    forall page: uint64
      ensures page !in quiet && (page in active <==> page == 0 || page == 1)
    {
      CallActivity(page);
    }
    assert active == {0, 1};
    OrderLength(order, active);
    assert 0 in order && 1 in order;
  }

  lemma CallPlaces(layout: Layout)
    requires layout.pageSize == 4096 && HasSkips(layout, [0, 1])
    ensures Across(layout, 0) == At(-2.0 / 3.0) && Across(layout, 4096) == At(2.0 / 3.0)
  {
    hide Across;
    AcrossPlace(layout, [0, 1], 0, 0);
    AcrossPlace(layout, [0, 1], 1, 4096);
  }

  lemma CallVertices(layout: Layout)
    requires layout.pageSize == 4096 && layout.quiet == {} && HasSkips(layout, [0, 1])
    ensures Vertices(layout, 0, CALL)
            == [Vertex(At(2.0125), 0, 64, 64, 255), Vertex(At(-2.0 / 3.0), 1, 0, 255, 0),
                Vertex(At(2.0 / 3.0), 2, 255, 0, 0), Vertex(At(2.0125), 3, 255, 64, 64)]
  {
    hide Across;
    CallPlaces(layout);
    CallInSteps();
    assert Vertices(layout, 0, []) == [] && Depth(0, []) == 0;
    VerticesSnoc(layout, [], FuncEnter(5));
    VerticesSnoc(layout, [FuncEnter(5)], MemaAccess(0, false));
    VerticesSnoc(layout, [FuncEnter(5), MemaAccess(0, false)], MemaAccess(4096, true));
    VerticesSnoc(layout, [FuncEnter(5), MemaAccess(0, false), MemaAccess(4096, true)], FuncExit(5));
    hide Vertices;
    hide Depth;
    hide HasSkips;
  }

  /** Entry, read, write and exit, each in its place and colour. */
  method DrawCall() returns (vertices: Option<seq<Vertex>>)
    ensures vertices == Some([Vertex(At(2.0125), 0, 64, 64, 255), Vertex(At(-2.0 / 3.0), 1, 0, 255, 0),
                              Vertex(At(2.0 / 3.0), 2, 255, 0, 0), Vertex(At(2.0125), 3, 255, 64, 64)])
  {
    hide Vertices;
    hide IsSplit;
    var block := new Block(4096, 0, 0, CALL);
    block.ActiveRegionIDs();
    CallPages(block.quietPages, block.activePages, block.order);
    NeverOutOfRange(block.TheLayout(), block.order, CALL);
    CallVertices(block.TheLayout());
    vertices := block.GenerateVertices();
  }
}
