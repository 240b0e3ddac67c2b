/** The A* example: static maps, two priority queues, and the path read off the direction map. Line numbers are
    those of examples/astar/astar.cpp. */
module AStar {
  import opened AStarSearch
  import opened BestFirst

  /** `pathFind` and the static arrays it works on. A priority queue is the multiset of its entries: its top is one of
      the smallest priority, and nothing more is assumed about ties. */
  class PathFinder {
    const grid: array2<int>
    const closedNodesMap: array2<int>
    const openNodesMap: array2<int>
    const dirMap: array2<int>
    const estimate: (Cell, Cell) -> nat
    var pq: multiset<Node>      // pq[pqi]
    var other: multiset<Node>   // pq[1 - pqi]

    /** The nodes taken from the queue by the current search, in order. */
    ghost var taken: seq<Node>

    constructor (grid: array2<int>, estimate: (Cell, Cell) -> nat)
      requires grid.Length0 == WIDTH && grid.Length1 == HEIGHT
      ensures this.grid == grid && this.estimate == estimate && pq == other == multiset{}
      ensures Shape() && fresh(closedNodesMap) && fresh(openNodesMap) && fresh(dirMap)
    {
      this.grid, this.estimate := grid, estimate;
      closedNodesMap, openNodesMap := new int[WIDTH, HEIGHT]((_, _) => 0), new int[WIDTH, HEIGHT]((_, _) => 0);
      dirMap := new int[WIDTH, HEIGHT]((_, _) => 0);
      pq, other, taken := multiset{}, multiset{}, [];
    }

    ghost predicate Shape() {
      && grid.Length0 == closedNodesMap.Length0 == openNodesMap.Length0 == dirMap.Length0 == WIDTH
      && grid.Length1 == closedNodesMap.Length1 == openNodesMap.Length1 == dirMap.Length1 == HEIGHT
      && grid != closedNodesMap && grid != openNodesMap && grid != dirMap
      && closedNodesMap != openNodesMap && closedNodesMap != dirMap && openNodesMap != dirMap
    }

    /** The cells that are not obstacles. */
    ghost function Free(): set<Cell>
      reads grid
      requires Shape()
    {
      set x: int, y: int | 0 <= x < WIDTH && 0 <= y < HEIGHT && grid[x, y] != 1 :: Cell(x, y)
    }

    /** What a call of `pathFind` searches. */
    ghost function TheProblem(start: Cell, finish: Cell): Problem
      reads grid
      requires Shape()
    {
      Problem(Free(), start, finish, estimate)
    }

    /** The arrays say what `s` says. */
    ghost predicate Shows(s: Search)
      reads closedNodesMap, openNodesMap, dirMap
      requires Shape()
    {
      && (forall x: int, y: int :: 0 <= x < WIDTH && 0 <= y < HEIGHT ==>
            && closedNodesMap[x, y] == (if Cell(x, y) in s.closed then 1 else 0)
            && openNodesMap[x, y] == (if Cell(x, y) in s.open then s.open[Cell(x, y)] else 0))
      && forall x: int, y: int :: 0 <= x < WIDTH && 0 <= y < HEIGHT && Cell(x, y) in s.back ==>
            dirMap[x, y] == s.back[Cell(x, y)]
    }

    /** `top` followed by `pop`. */
    method TakeTop() returns (n: Node)
      requires pq != multiset{}
      modifies `pq
      ensures n in old(pq) && pq == old(pq) - multiset{n}
      ensures forall m :: m in old(pq) ==> n.priority <= m.priority
    {
      var left := pq;
      n :| n in left;
      left := left - multiset{n};
      while left != multiset{}
        invariant left <= pq && n in pq
        invariant forall m :: m in pq && m !in left ==> n.priority <= m.priority
        decreases |left|
      {
        var m :| m in left;
        left := left[m := 0];
        if m.priority < n.priority { n := m; }
      }
      pq := pq - multiset{n};
    }

    /** One entry moved over, and the next one taken. */
    lemma Moved(before: multiset<Node>, after: multiset<Node>, over: multiset<Node>, top: Node, next: Node)
      requires next in before && after == before - multiset{next}
      ensures after + (over + multiset{top}) + multiset{next} == before + over + multiset{top}
    {}

    lemma Remaining(all: multiset<Node>, left: multiset<Node>, over: multiset<Node>, top: Node)
      requires all == left + over + multiset{top}
      ensures left + over == all - multiset{top}
      ensures forall m :: m in all ==> m in left || m in over || m == top
      ensures forall m :: m in left || m == top ==> m in all
    {}

    /** Lines 184-190: moves entries over until the one of `worse` is on top, and drops that one. */
    method MoveUntil(d: Cell, ghost worse: Node)
      requires worse in pq && other == multiset{} && worse.cell == d
      requires forall m :: m in pq && m.cell == d ==> m == worse
      modifies `pq, `other
      ensures pq + other == old(pq) - multiset{worse}
    {
      ghost var all := pq;
      var top := TakeTop();
      Moved(all, pq, other, top, top);
      while top.cell != d
        invariant all == pq + other + multiset{top} && worse !in other
        decreases |pq|
      {
        Remaining(all, pq, other, top);
        ghost var before, over, previous := pq, other, top;
        other := other + multiset{top};
        top := TakeTop();
        Moved(before, pq, over, previous, top);
      }
      Remaining(all, pq, other, top);
    }

    /** Lines 194-198. */
    method Pour()
      modifies `pq, `other
      ensures pq == multiset{} && other == old(pq) + old(other)
    {
      while pq != multiset{}
        invariant pq + other == old(pq) + old(other)
        decreases |pq|
      {
        var n := TakeTop();
        other := other + multiset{n};
      }
    }

    /** Lines 184-200: replaces the entry of a cell by emptying one queue into the other. */
    method Replace(d: Cell, better: Node, ghost worse: Node)
      requires worse in pq && other == multiset{} && worse.cell == better.cell == d && better.priority < worse.priority
      requires forall m :: m in pq && m.cell == d ==> m == worse
      modifies `pq, `other
      ensures pq == old(pq) - multiset{worse} + multiset{better} && other == multiset{}
    {
      MoveUntil(d, worse);
      if |pq| > |other| { pq, other := other, pq; }
      Pour();
      pq, other := other, pq;
      pq := pq + multiset{better};
    }

    /** Lines 168-171 and 176-178. */
    method SetOpen(d: Cell, priority: nat, back: Direction, ghost s: Search, ghost next: Search)
      requires Shape() && Shows(s) && Inside(d)
      requires next.closed == s.closed && next.open == s.open[d := priority] && next.back == s.back[d := back]
      modifies openNodesMap, dirMap
      ensures Shows(next)
    {
      openNodesMap[d.x, d.y] := priority;
      dirMap[d.x, d.y] := back;
    }

    /** Lines 152-203: one direction from the cell `c`, which has just been closed. No level grows. */
    method Expand(c: Cell, level: nat, i: Direction, finish: Cell, ghost start: Cell, ghost s: Search)
      returns (ghost next: Search)
      requires Shape() && Shows(s) && other == multiset{}
      requires Searching(TheProblem(start, finish), s, pq, c, i) && c in s.closed && c in s.level && s.level[c] == level
      modifies `pq, `other, openNodesMap, dirMap
      ensures Shows(next) && other == multiset{}
      ensures Searching(TheProblem(start, finish), next, pq, c, i + 1) && Lowered(s, next)
    {
      hide Searching;
      hide Lowered;
      hide Step;
      ghost var p := TheProblem(start, finish);
      next := s;
      Unchanged(s);
      var d := Step(c, i);
      CellFacts(p, s, pq, c, i, d);
      if d.x < 0 || d.x > WIDTH - 1 || d.y < 0 || d.y > HEIGHT - 1 || grid[d.x, d.y] == 1
         || closedNodesMap[d.x, d.y] == 1 {
        PassStep(p, s, pq, c, i);
        return;
      }
      assert d in Free();
      var m := Node(d, level + StepCost(i), level + StepCost(i) + 10 * estimate(d, finish));
      if openNodesMap[d.x, d.y] == 0 {
        ReachStep(p, s, pq, c, i, m);
        next := Reach(s, c, i, m.priority);
        SetOpen(d, m.priority, Back(i), s, next);
        pq := pq + multiset{m};
      } else if openNodesMap[d.x, d.y] > m.priority {
        ImproveStep(p, s, pq, c, i, m);
        next := Reach(s, c, i, m.priority);
        SetOpen(d, m.priority, Back(i), s, next);
        Replace(d, m, Node(d, s.level[d], s.open[d]));
      } else {
        PassStep(p, s, pq, c, i);
      }
    }

    lemma Unchanged(s: Search)
      ensures Lowered(s, s)
    {}

    /** Lines 134-142: follows the direction map back from the finish. */
    method ReadPath(start: Cell, finish: Cell, ghost s: Search) returns (path: seq<Direction>)
      requires Shape() && Shows(s) && Tree(Free(), start, s) && finish in s.closed
      requires Inside(start)
      ensures Route(Free(), start, path, finish) && WalkCost(path) == s.level[finish]
    {
      path := [];
      var c := finish;
      while c != start
        invariant c in s.closed && Route(Free(), c, path, finish)
        invariant s.level[c] + WalkCost(path) == s.level[finish]
        decreases s.level[c]
      {
        assert c in Free();
        var j := dirMap[c.x, c.y];
        BackUndoes(c, j);
        RoutePrepend(Free(), Step(c, j), Back(j), path, finish);
        path := [Back(j)] + path;
        c := Step(c, j);
      }
    }

    /** Lines 97-105. */
    method ResetMaps()
      requires Shape()
      modifies closedNodesMap, openNodesMap
      ensures Shows(Search({}, map[], map[], map[]))
    {
      for y := 0 to HEIGHT
        invariant forall x: int, k: int :: 0 <= x < WIDTH && 0 <= k < y ==>
                    closedNodesMap[x, k] == 0 && openNodesMap[x, k] == 0
      {
        for x := 0 to WIDTH
          invariant forall h: int, k: int :: 0 <= h < WIDTH && 0 <= k < y ==>
                      closedNodesMap[h, k] == 0 && openNodesMap[h, k] == 0
          invariant forall h: int :: 0 <= h < x ==> closedNodesMap[h, y] == 0 && openNodesMap[h, y] == 0
        {
          closedNodesMap[x, y], openNodesMap[x, y] := 0, 0;
        }
      }
    }

    /** Lines 118-126: takes the best node and closes its cell. The first one is the start, which no map shows. */
    method CloseBest(ghost p: Problem, ghost before: Cell, ghost s: Search, ghost first: bool)
      returns (n: Node, ghost next: Search)
      requires Shape() && Shows(s) && pq != multiset{} && p.free == Free() && Inside(p.start)
      requires Ready(p, s, pq, before, first, taken)
      modifies `pq, `taken, closedNodesMap, openNodesMap
      ensures Shows(next) && Inside(n.cell)
      ensures n in old(pq) && pq == old(pq) - multiset{n} && taken == old(taken) + [n]
      ensures forall m :: m in old(pq) ==> n.priority <= m.priority
      ensures Searching(p, next, pq, n.cell, 0)
      ensures n.cell !in s.closed && next.closed == s.closed + {n.cell} && next.closed <= p.free + {p.start}
      ensures n.cell in next.level && next.level[n.cell] == n.level
      ensures IsTake(p, old(taken), n) && Records(taken, next)
    {
      hide Searching;
      hide Shows;
      hide Free;
      hide IsTake;
      hide Records;
      n := TakeTop();
      if first {
        next := Search({p.start}, map[], map[], map[p.start := 0]);
        FirstStep(p, pq);
        FirstIsTake(p, n);
      } else {
        CloseStep(p, s, old(pq), before, n);
        next := Close(s, n.cell);
        FreeInside(n.cell);
        BestIsTake(p, s, old(pq), before, taken, n);
        RecordsClosed(taken, s, n);
      }
      MarkClosed(n.cell, s, next);
      taken := taken + [n];
    }

    lemma FirstIsTake(p: Problem, n: Node)
      requires n == Node(p.start, 0, p.Priority(0, p.start))
      ensures IsTake(p, [], n) && Records([] + [n], Search({p.start}, map[], map[], map[p.start := 0]))
    {
      RecordsFirst(p, n);
      assert [] + [n] == [n];
    }

    lemma FreeInside(c: Cell)
      requires Shape() && c in Free()
      ensures Inside(c)
    {}

    /** Lines 124-126. */
    method MarkClosed(c: Cell, ghost s: Search, ghost next: Search)
      requires Shape() && Shows(s) && Inside(c)
      requires next.closed == s.closed + {c} && next.open == s.open - {c} && next.back == s.back
      modifies closedNodesMap, openNodesMap
      ensures Shows(next)
    {
      openNodesMap[c.x, c.y] := 0;
      closedNodesMap[c.x, c.y] := 1;
    }

    /** Lines 152-204: all eight directions. */
    method ExpandAll(n: Node, finish: Cell, ghost start: Cell, ghost s: Search) returns (ghost next: Search)
      requires Shape() && Shows(s) && other == multiset{}
      requires Searching(TheProblem(start, finish), s, pq, n.cell, 0)
      requires n.cell in s.closed && n.cell in s.level && s.level[n.cell] == n.level
      modifies `pq, `other, openNodesMap, dirMap
      ensures Shows(next) && other == multiset{}
      ensures Searching(TheProblem(start, finish), next, pq, n.cell, DIRECTIONS) && Lowered(s, next)
    {
      hide Searching;
      hide Shows;
      next := s;
      for i := 0 to DIRECTIONS
        invariant Shows(next) && other == multiset{} && Lowered(s, next)
        invariant Searching(TheProblem(start, finish), next, pq, n.cell, i)
        invariant n.cell in next.level && next.level[n.cell] == n.level
      {
        ghost var before := next;
        next := Expand(n.cell, n.level, i, finish, start, next);
        LoweredTwice(s, before, next);
      }
    }

    /** The next node of the order is taken and its cell closed. */
    method TakeNext(ghost p: Problem, ghost before: Cell, ghost s: Search, ghost first: bool)
      returns (n: Node, ghost next: Search)
      requires Shape() && Shows(s) && pq != multiset{} && p.free == Free() && Inside(p.start)
      requires Ready(p, s, pq, before, first, taken) && IsSearch(p, taken) && Avoids(taken, p.finish)
      modifies `pq, `taken, closedNodesMap, openNodesMap
      ensures Shows(next) && Inside(n.cell) && Searching(p, next, pq, n.cell, 0)
      ensures n.cell !in s.closed && next.closed == s.closed + {n.cell} && next.closed <= p.free + {p.start}
      ensures n.cell in next.level && next.level[n.cell] == n.level
      ensures taken != [] && taken[|taken| - 1] == n && IsSearch(p, taken) && Records(taken, next)
      ensures Avoids(taken[..|taken| - 1], p.finish) && (n.cell != p.finish ==> Avoids(taken, p.finish))
    {
      hide Ready;
      hide Searching;
      hide Shows;
      hide Free;
      hide Records;
      hide IsSearch;
      hide IsTake;
      hide Avoids;
      ghost var order := taken;
      n, next := CloseBest(p, before, s, first);
      IsSearchSnoc(p, order, n);
      AvoidsSnoc(order, n, p.finish);
    }

    /** What the way back from the finish is worth, under a consistent estimate too. */
    lemma Worth(p: Problem, n: Node, s: Search, cell: Cell, path: seq<Direction>)
      requires Searching(p, s, pq, cell, 0) && n.cell == p.finish
      requires IsSearch(p, taken) && taken != [] && taken[|taken| - 1] == n
      requires Route(p.free, p.start, path, p.finish) && WalkCost(path) == n.level
      ensures Reachable(p.free, p.start, p.finish) && (p.start != p.finish ==> path != [])
      ensures Consistent(p) ==>
                forall another :: Route(p.free, p.start, another, p.finish) ==> WalkCost(path) <= WalkCost(another)
    {
      hide Searching;
      hide IsSearch;
      hide Consistent;
      hide Reachable;
      RouteReaches(p.free, p.start, path, p.finish);
      if Consistent(p) { CheapestTaken(p, taken, path); }
    }

    /** `pathFind`. Both queues are empty between calls. The cells are taken in the order of a best-first search, up to
        the finish if it is ever taken. A route is found exactly when there is one; it is legal, it costs the level of the
        finish, and under a consistent estimate no other costs less. */
    method PathFind(start: Cell, finish: Cell) returns (path: seq<Direction>, ghost found: bool)
      requires Shape() && Inside(start) && Inside(finish)
      requires pq == other == multiset{}
      modifies this, closedNodesMap, openNodesMap, dirMap
      ensures pq == other == multiset{}
      ensures taken != [] && IsSearch(TheProblem(start, finish), taken)
      ensures Avoids(taken[..|taken| - 1], finish)
      ensures found <==> taken[|taken| - 1].cell == finish
      ensures found <==> Reachable(Free(), start, finish)
      ensures found ==> Route(Free(), start, path, finish) && WalkCost(path) == taken[|taken| - 1].level
      ensures found && Consistent(TheProblem(start, finish)) ==>
                forall another :: Route(Free(), start, another, finish) ==> WalkCost(path) <= WalkCost(another)
      ensures !found ==> path == []
      ensures start != finish ==> (path != [] <==> Reachable(Free(), start, finish))
    {
      hide Ready;
      hide Searching;
      hide Shows;
      hide Free;
      hide Records;
      hide IsSearch;
      hide IsTake;
      hide Consistent;
      hide Reachable;
      hide Route;
      hide Avoids;
      ghost var p := TheProblem(start, finish);
      ResetMaps();
      ghost var s, cell, first := Search({}, map[], map[], map[]), start, true;
      pq, taken := multiset{Node(start, 0, 10 * estimate(start, finish))}, [];
      NothingTaken(p);
      ReadyFirst(p);
      while pq != multiset{}
        invariant other == multiset{} && Shows(s) && finish !in s.closed
        invariant Ready(p, s, pq, cell, first, taken)
        invariant IsSearch(p, taken) && Avoids(taken, finish)
        decreases p.free + {start} - s.closed
      {
        var n;
        n, s := TakeNext(p, cell, s, first);
        first, cell := false, n.cell;
        if n.cell == finish {
          SearchingTree(p, s, pq, cell, 0);
          path := ReadPath(start, finish, s);
          Worth(p, n, s, cell, path);
          pq := multiset{};
          return path, true;
        }
        ghost var closed := s;
        s := ExpandAll(n, finish, start, s);
        RecordsLowered(taken, closed, s);
        ReadyAgain(p, s, pq, cell, taken);
      }
      NothingLeft(p, s, pq, cell, first, taken, finish);
      AvoidsLast(taken, finish);
      return [], false;
    }
  }

  /** Between two cells: the start is queued alone, or the search stands where a cell has been expanded. */
  ghost predicate Ready(p: Problem, s: Search, q: multiset<Node>, cell: Cell, first: bool, taken: seq<Node>) {
    if first then
      s == Search({}, map[], map[], map[]) && taken == [] && q == multiset{Node(p.start, 0, p.Priority(0, p.start))}
    else Searching(p, s, q, cell, DIRECTIONS) && Records(taken, s) && taken != []
  }

  lemma ReadyFirst(p: Problem)
    ensures Ready(p, Search({}, map[], map[], map[]), multiset{Node(p.start, 0, p.Priority(0, p.start))}, p.start, true, [])
  {}

  lemma ReadyAgain(p: Problem, s: Search, q: multiset<Node>, cell: Cell, taken: seq<Node>)
    requires Searching(p, s, q, cell, DIRECTIONS) && Records(taken, s) && taken != []
    ensures Ready(p, s, q, cell, false, taken)
  {}

  lemma NothingLeft(p: Problem, s: Search, q: multiset<Node>, cell: Cell, first: bool, taken: seq<Node>, finish: Cell)
    requires Ready(p, s, q, cell, first, taken) && q == multiset{} && finish !in s.closed
    ensures !Reachable(p.free, p.start, finish) && taken != []
  {
    NotReachable(p, s, cell, finish);
    hide Searching;
    hide Reachable;
  }

  /** None of the nodes is at the cell. */
  ghost predicate Avoids(taken: seq<Node>, finish: Cell) {
    forall n <- taken :: n.cell != finish
  }

  lemma AvoidsSnoc(taken: seq<Node>, n: Node, finish: Cell)
    requires Avoids(taken, finish)
    ensures (taken + [n])[..|taken + [n]| - 1] == taken
    ensures n.cell != finish ==> Avoids(taken + [n], finish)
  {}

  lemma AvoidsLast(taken: seq<Node>, finish: Cell)
    requires Avoids(taken, finish) && taken != []
    ensures Avoids(taken[..|taken| - 1], finish) && taken[|taken| - 1].cell != finish
  {}

  lemma NothingTaken(p: Problem)
    ensures IsSearch(p, []) && forall finish :: Avoids([], finish)
  {}

  lemma RouteReaches(free: set<Cell>, from: Cell, path: seq<Direction>, to: Cell)
    requires Route(free, from, path, to)
    ensures Reachable(free, from, to)
    ensures from != to ==> path != []
  {}

  lemma CheapestTaken(p: Problem, taken: seq<Node>, path: seq<Direction>)
    requires Consistent(p) && IsSearch(p, taken) && taken != [] && taken[|taken| - 1].level == WalkCost(path)
    requires taken[|taken| - 1].cell == p.finish
    ensures forall another :: Route(p.free, p.start, another, p.finish) ==> WalkCost(path) <= WalkCost(another)
  {
    TakenAtLeastCost(p, taken);
    assert IsNearest(p, taken[|taken| - 1]);
  }
}
