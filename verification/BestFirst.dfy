/** The order in which a best-first search takes cells, without its queues, and when that order gives cheapest routes. */
module BestFirst {
  import opened AStarSearch

  ghost function CellsOf(taken: seq<Node>): set<Cell> {
    set n | n in taken :: n.cell
  }

  /** `n` may be taken after `before`. Its level is the least that any cell taken so far offers it, and its priority is
      no greater than what any of them offers any free cell not taken yet. */
  ghost predicate IsTake(p: Problem, before: seq<Node>, n: Node) {
    && n.priority == p.Priority(n.level, n.cell)
    && n.cell !in CellsOf(before)
    && if before == [] then n.cell == p.start && n.level == 0 else
       && n.cell in p.free
       && (exists m <- before, k: Direction :: Step(m.cell, k) == n.cell && n.level == m.level + StepCost(k))
       && (forall m <- before, k: Direction :: Step(m.cell, k) == n.cell ==> n.level <= m.level + StepCost(k))
       && forall m <- before, k: Direction :: Step(m.cell, k) in p.free && Step(m.cell, k) !in CellsOf(before) ==>
            n.priority <= p.Priority(m.level + StepCost(k), Step(m.cell, k))
  }

  /** `taken` is an order of taking. */
  ghost predicate IsSearch(p: Problem, taken: seq<Node>) {
    taken == [] ||
    var init := taken[..|taken| - 1];
    IsSearch(p, init) && IsTake(p, init, taken[|taken| - 1])
  }

  lemma IsSearchSnoc(p: Problem, before: seq<Node>, n: Node)
    requires IsSearch(p, before) && IsTake(p, before, n)
    ensures IsSearch(p, before + [n])
  {
    hide IsTake;
    assert (before + [n])[..|before|] == before;
  }

  lemma {:induction false} IsSearchPrefix(p: Problem, taken: seq<Node>, i: nat)
    requires IsSearch(p, taken) && i <= |taken|
    ensures IsSearch(p, taken[..i])
    ensures i < |taken| ==> IsTake(p, taken[..i], taken[i])
    decreases |taken|
  {
    hide IsTake;
    if i == |taken| {
      assert taken[..i] == taken;
    } else if i < |taken| - 1 {
      IsSearchPrefix(p, taken[..|taken| - 1], i);
      assert taken[..|taken| - 1][..i] == taken[..i];
    }
  }

  lemma CellsOfSnoc(taken: seq<Node>, n: Node)
    ensures CellsOf(taken + [n]) == CellsOf(taken) + {n.cell}
    ensures CellsOf([]) == {}
  {
    forall c | c in CellsOf(taken) + {n.cell}
      ensures c in CellsOf(taken + [n])
    {
      if c == n.cell {
        assert n in taken + [n];
      } else {
        var m :| m in taken && m.cell == c;
        assert m in taken + [n];
      }
    }
  }

  // ---------- the search with queues takes in this order ----------

  /** What the search knows of the cells taken. */
  ghost predicate Records(taken: seq<Node>, s: Search) {
    CellsOf(taken) == s.closed && forall n <- taken :: n.cell in s.level && s.level[n.cell] == n.level
  }

  lemma RecordsLowered(taken: seq<Node>, s: Search, next: Search)
    requires Records(taken, s) && Lowered(s, next)
    ensures Records(taken, next)
  {
    forall n | n in taken
      ensures n.cell in s.closed
    {
      assert n.cell in CellsOf(taken);
    }
  }

  lemma RecordsClosed(taken: seq<Node>, s: Search, n: Node)
    requires Records(taken, s) && n.cell in s.level && s.level[n.cell] == n.level
    ensures Records(taken + [n], Close(s, n.cell))
  {
    CellsOfSnoc(taken, n);
  }

  lemma RecordsFirst(p: Problem, n: Node)
    requires n.cell == p.start && n.level == 0
    ensures Records([n], Search({p.start}, map[], map[], map[p.start := 0]))
  {
    CellsOfSnoc([], n);
    assert [] + [n] == [n];
  }

  /** Somewhere among the cells taken. */
  lemma NodeAt(taken: seq<Node>, s: Search, c: Cell) returns (m: Node)
    requires Records(taken, s) && c in s.closed
    ensures m in taken && m.cell == c && c in s.level && s.level[c] == m.level
  {
    assert c in CellsOf(taken);
    m :| m in taken && m.cell == c;
  }

  lemma IsClosed(taken: seq<Node>, s: Search, m: Node)
    requires Records(taken, s) && m in taken
    ensures m.cell in s.closed && m.cell in s.level && s.level[m.cell] == m.level
  {
    assert m.cell in CellsOf(taken);
  }

  /** An entry of least priority is the next one in the order. */
  lemma BestIsTake(p: Problem, s: Search, q: multiset<Node>, current: Cell, taken: seq<Node>, n: Node)
    requires Searching(p, s, q, current, DIRECTIONS) && Records(taken, s)
    requires n in q && forall m <- q :: n.priority <= m.priority
    ensures IsTake(p, taken, n)
  {
    hide Step;
    InQueue(s, q, n);
    hide Queued;
    var parent := NodeAt(taken, s, p.start);
    ParentOf(p, s, taken, n);
    forall m, k: Direction | m in taken && Step(m.cell, k) == n.cell
      ensures n.level <= m.level + StepCost(k)
    {
      IsClosed(taken, s, m);
    }
    forall m, k: Direction | m in taken && Step(m.cell, k) in p.free && Step(m.cell, k) !in CellsOf(taken)
      ensures n.priority <= p.Priority(m.level + StepCost(k), Step(m.cell, k))
    {
      IsClosed(taken, s, m);
      OfferAtLeast(p, s, q, current, m.cell, k, n);
    }
    hide Frontier;
    hide Settled;
  }

  lemma ParentOf(p: Problem, s: Search, taken: seq<Node>, n: Node)
    requires Tree(p.free, p.start, s) && Records(taken, s)
    requires n.cell in s.open && n.level == s.level[n.cell]
    ensures exists m <- taken, k: Direction :: Step(m.cell, k) == n.cell && n.level == m.level + StepCost(k)
  {
    hide Step;
    var b := s.back[n.cell];
    BackUndoes(n.cell, b);
    var m := NodeAt(taken, s, Step(n.cell, b));
    assert m in taken && Step(m.cell, Back(b)) == n.cell && n.level == m.level + StepCost(Back(b));
  }

  lemma OfferAtLeast(p: Problem, s: Search, q: multiset<Node>, current: Cell, c: Cell, k: Direction, n: Node)
    requires Searching(p, s, q, current, DIRECTIONS) && n in q && forall m <- q :: n.priority <= m.priority
    requires c in s.closed && c in s.level && Step(c, k) in p.free && Step(c, k) !in s.closed
    ensures n.priority <= p.Priority(s.level[c] + StepCost(k), Step(c, k))
  {
    hide Step;
    var d := Step(c, k);
    OpenIsQueued(s, q, d);
    hide Queued;
    assert Node(d, s.level[d], s.open[d]) in q;
  }

  // ---------- cheapest routes ----------

  /** No step lowers the estimate by more than it costs. */
  ghost predicate Consistent(p: Problem) {
    forall c <- p.free, k: Direction :: Step(c, k) in p.free ==>
      10 * p.estimate(c, p.finish) <= StepCost(k) + 10 * p.estimate(Step(c, k), p.finish)
  }

  lemma {:induction false} ConsistentAlong(p: Problem, c: Cell, path: seq<Direction>)
    requires Consistent(p) && c in p.free && Walk(p.free, c, path)
    ensures 10 * p.estimate(c, p.finish) <= WalkCost(path) + 10 * p.estimate(WalkEnd(c, path), p.finish)
    decreases |path|
  {
    hide Step;
    if path != [] {
      ConsistentAlong(p, Step(c, path[0]), path[1..]);
    }
  }

  lemma {:induction false} RouteAppend(free: set<Cell>, from: Cell, path: seq<Direction>, c: Cell, k: Direction)
    requires Route(free, from, path, c) && Step(c, k) in free
    ensures Route(free, from, path + [k], Step(c, k)) && WalkCost(path + [k]) == WalkCost(path) + StepCost(k)
    decreases |path|
  {
    hide Step;
    hide StepCost;
    if path == [] {
      assert path + [k] == [k] && [k][0] == k && [k][1..] == [];
      assert Walk(free, Step(c, k), []) && WalkEnd(Step(c, k), []) == Step(c, k);
      assert Walk(free, from, [k]) && WalkEnd(from, [k]) == Step(c, k) && WalkCost([k]) == StepCost(k);
    } else {
      assert (path + [k])[1..] == path[1..] + [k] && (path + [k])[0] == path[0];
      RouteAppend(free, Step(from, path[0]), path[1..], c, k);
    }
  }

  /** No route to the cell is cheaper than the level of the node. */
  ghost predicate IsNearest(p: Problem, n: Node) {
    forall path: seq<Direction> :: Route(p.free, p.start, path, n.cell) ==> n.level <= WalkCost(path)
  }

  ghost predicate Nearest(p: Problem, taken: seq<Node>) {
    forall m <- taken :: IsNearest(p, m)
  }

  /** A route to the next node that stands, after `prefix`, at a cell taken before. */
  lemma {:induction false} NoShorter(p: Problem, before: seq<Node>, n: Node, prefix: seq<Direction>, c: Cell,
                                     rest: seq<Direction>)
    requires Consistent(p) && Nearest(p, before) && IsTake(p, before, n) && before != []
    requires Route(p.free, p.start, prefix, c) && c in CellsOf(before)
    requires Walk(p.free, c, rest) && WalkEnd(c, rest) == n.cell
    ensures n.level <= WalkCost(prefix) + WalkCost(rest)
    decreases |rest|
  {
    hide Step;
    hide StepCost;
    if rest == [] {
      assert false;
    } else {
      var k, d := rest[0], Step(c, rest[0]);
      var m :| m in before && m.cell == c;
      assert IsNearest(p, m) && m.level <= WalkCost(prefix);
      if d in CellsOf(before) {
        RouteAppend(p.free, p.start, prefix, c, k);
        NoShorter(p, before, n, prefix + [k], d, rest[1..]);
      } else {
        ConsistentAlong(p, d, rest[1..]);
        assert n.priority <= p.Priority(m.level + StepCost(k), d);
      }
    }
  }

  lemma {:induction false} StartTaken(p: Problem, taken: seq<Node>)
    requires IsSearch(p, taken) && taken != []
    ensures taken[0].cell == p.start && taken[0].level == 0
    ensures p.start in CellsOf(taken)
  {
    IsSearchPrefix(p, taken, 0);
    assert taken[..0] == [];
    assert taken[0] in taken;
  }

  lemma NextIsNearest(p: Problem, before: seq<Node>, n: Node)
    requires Consistent(p) && IsSearch(p, before) && Nearest(p, before) && IsTake(p, before, n)
    ensures IsNearest(p, n)
  {
    forall path: seq<Direction> | Route(p.free, p.start, path, n.cell)
      ensures n.level <= WalkCost(path)
    {
      if before != [] {
        StartTaken(p, before);
        assert Route(p.free, p.start, [], p.start) && WalkCost([]) == 0;
        NoShorter(p, before, n, [], p.start, path);
      }
    }
  }

  /** With a consistent estimate every cell is taken at the cost of a cheapest route to it. */
  lemma {:induction false} TakenAtLeastCost(p: Problem, taken: seq<Node>)
    requires Consistent(p) && IsSearch(p, taken)
    ensures Nearest(p, taken)
    decreases |taken|
  {
    hide Consistent;
    hide IsTake;
    hide IsNearest;
    if taken != [] {
      var before, n := taken[..|taken| - 1], taken[|taken| - 1];
      TakenAtLeastCost(p, before);
      NextIsNearest(p, before, n);
      assert taken == before + [n];
    }
  }

  // ---------- the estimate of the program ----------

  /** The whole part of the straight distance, as the program's `estimate` computes it. */
  ghost predicate IsFloorOfDistance(d: nat, c: Cell, finish: Cell) {
    var square := (finish.x - c.x) * (finish.x - c.x) + (finish.y - c.y) * (finish.y - c.y);
    d * d <= square < (d + 1) * (d + 1)
  }

  lemma SquaresRise(a: nat, b: nat)
    requires a * a < b * b
    ensures a < b
  {
    if a >= b { SquaresKeepOrder(b, a); }
  }

  lemma SquaresKeepOrder(a: nat, b: nat)
    requires a <= b
    ensures a * a <= b * b
  {}

  /** The program's estimate is not consistent: three cells off on the diagonal, one diagonal step of cost 14 lowers ten
      times the estimate from 40 to 20. */
  lemma FloorIsNotConsistent(p: Problem)
    requires forall c: Cell :: IsFloorOfDistance(p.estimate(c, p.finish), c, p.finish)
    requires var c := Cell(p.finish.x - 3, p.finish.y - 3); c in p.free && Step(c, 1) in p.free
    ensures !Consistent(p)
  {
    var c, d := Cell(p.finish.x - 3, p.finish.y - 3), Cell(p.finish.x - 2, p.finish.y - 2);
    assert Step(c, 1) == d;
    var e, f := p.estimate(c, p.finish), p.estimate(d, p.finish);
    assert IsFloorOfDistance(e, c, p.finish) && IsFloorOfDistance(f, d, p.finish);
    SquaresRise(4, e + 1);
    SquaresRise(f, 3);
  }
}
