/** The grid of the A* example, its walks, and what the search keeps, on values. */
module AStarSearch {

  const WIDTH := 60
  const HEIGHT := 60
  const DIRECTIONS := 8

  /** A direction, numbered as in the tables. */
  type Direction = i: int | 0 <= i < DIRECTIONS

  datatype Cell = Cell(x: int, y: int)

  /** A queue entry: a cell, the distance travelled to it and its priority, smaller first. */
  datatype Node = Node(cell: Cell, level: nat, priority: nat)

  /** The tables `dx` and `dy`. */
  function Dx(i: Direction): int {
    [1, 1, 0, -1, -1, -1, 0, 1][i]
  }

  function Dy(i: Direction): int {
    [0, 1, 1, 1, 0, -1, -1, -1][i]
  }

  function Step(c: Cell, i: Direction): Cell {
    Cell(c.x + Dx(i), c.y + Dy(i))
  }

  /** `(i + dir / 2) % dir`: the way back. */
  function Back(i: Direction): Direction { (i + DIRECTIONS / 2) % DIRECTIONS }

  /** `nextLevel`: straight moves cost less than diagonal ones. */
  function StepCost(i: Direction): nat { if i % 2 == 0 then 10 else 14 }

  lemma BackUndoes(c: Cell, i: Direction)
    ensures Step(Step(c, i), Back(i)) == c
    ensures StepCost(Back(i)) == StepCost(i) && Back(Back(i)) == i
  {
    assert i == 0 || i == 1 || i == 2 || i == 3 || i == 4 || i == 5 || i == 6 || i == 7;
  }

  predicate Inside(c: Cell) { 0 <= c.x < WIDTH && 0 <= c.y < HEIGHT }

  // ---------- walks ----------

  /** A walk of single steps from `c` over cells of `free`; the first cell need not be one. */
  ghost predicate Walk(free: set<Cell>, c: Cell, path: seq<Direction>)
    decreases |path|
  {
    path == [] || (Step(c, path[0]) in free && Walk(free, Step(c, path[0]), path[1..]))
  }

  ghost function WalkEnd(c: Cell, path: seq<Direction>): Cell
    decreases |path|
  {
    if path == [] then c else WalkEnd(Step(c, path[0]), path[1..])
  }

  ghost function WalkCost(path: seq<Direction>): nat {
    if path == [] then 0 else StepCost(path[0]) + WalkCost(path[1..])
  }

  ghost predicate Route(free: set<Cell>, from: Cell, path: seq<Direction>, to: Cell) {
    && Walk(free, from, path)
    && WalkEnd(from, path) == to
  }

  ghost predicate Reachable(free: set<Cell>, from: Cell, to: Cell) {
    exists path :: Route(free, from, path, to)
  }

  // ---------- the search ----------

  /** What is searched: the cells that may be entered, where from, where to, and the estimate that guides it. */
  datatype Problem = Problem(free: set<Cell>, start: Cell, finish: Cell, estimate: (Cell, Cell) -> nat) {
    /** `updatePriority`. */
    function Priority(level: nat, c: Cell): nat { level + 10 * estimate(c, finish) }
  }

  /** Cells tried, open cells with their priorities, and for each of them where it was reached from and how far it is. */
  datatype Search = Search(closed: set<Cell>, open: map<Cell, nat>, back: map<Cell, Direction>, level: map<Cell, nat>)

  /** Everything reached hangs on a chain of closed cells back to the start, at the sum of its step costs. */
  ghost predicate Tree(free: set<Cell>, start: Cell, s: Search) {
    && start in s.closed && s.closed !! s.open.Keys
    && s.level.Keys == s.closed + s.open.Keys && s.level[start] == 0
    && forall c <- s.level.Keys :: c != start ==>
         && c in free && c in s.back
         && Step(c, s.back[c]) in s.closed
         && s.level[c] == s.level[Step(c, s.back[c])] + StepCost(s.back[c])
  }

  /** Every free neighbour of a closed cell has been reached, except in the directions from `next` on of `current`. */
  ghost predicate Frontier(free: set<Cell>, s: Search, current: Cell, next: nat) {
    forall c <- s.closed, i: Direction :: !(c == current && i >= next) && Step(c, i) in free ==>
      Step(c, i) in s.level
  }

  /** No open cell is farther than a step from any closed neighbour, with the same exception. */
  ghost predicate Settled(s: Search, current: Cell, next: nat) {
    forall c <- s.closed, i: Direction :: !(c == current && i >= next) && Step(c, i) in s.open ==>
      c in s.level && Step(c, i) in s.level && s.level[Step(c, i)] <= s.level[c] + StepCost(i)
  }

  /** The queue holds each open cell once, with its priority and level, and nothing else. */
  ghost predicate Queued(s: Search, q: multiset<Node>) {
    forall n: Node :: q[n] ==
      if n.cell in s.open && n.cell in s.level && n.priority == s.open[n.cell] && n.level == s.level[n.cell] then 1 else 0
  }

  /** Priorities are positive sums of level and estimate. */
  ghost predicate Priced(p: Problem, s: Search) {
    forall c <- s.open :: c in s.level && s.open[c] == p.Priority(s.level[c], c) && s.open[c] > 0
  }

  ghost predicate Searching(p: Problem, s: Search, q: multiset<Node>, current: Cell, next: nat) {
    && Tree(p.free, p.start, s)
    && Frontier(p.free, s, current, next)
    && Settled(s, current, next)
    && Queued(s, q)
    && Priced(p, s)
  }

  function Close(s: Search, c: Cell): Search {
    s.(closed := s.closed + {c}, open := s.open - {c})
  }

  function Reach(s: Search, c: Cell, i: Direction, priority: nat): Search
    requires c in s.level
  {
    var d := Step(c, i);
    s.(open := s.open[d := priority], back := s.back[d := Back(i)], level := s.level[d := s.level[c] + StepCost(i)])
  }

  /** Levels of closed cells stay, and no level grows. */
  ghost predicate Lowered(s: Search, next: Search) {
    && next.closed == s.closed
    && (forall c <- s.level :: c in next.level && next.level[c] <= s.level[c])
    && forall c <- s.closed :: c in s.level ==> next.level[c] == s.level[c]
  }

  lemma LoweredTwice(a: Search, b: Search, c: Search)
    requires Lowered(a, b) && Lowered(b, c)
    ensures Lowered(a, c)
  {}

  lemma SearchingTree(p: Problem, s: Search, q: multiset<Node>, current: Cell, next: nat)
    requires Searching(p, s, q, current, next)
    ensures Tree(p.free, p.start, s)
  {}

  lemma FirstStep(p: Problem, q: multiset<Node>)
    requires q == multiset{}
    ensures Searching(p, Search({p.start}, map[], map[], map[p.start := 0]), q, p.start, 0)
  {}

  // ---------- closing ----------

  lemma InQueue(s: Search, q: multiset<Node>, n: Node)
    requires Queued(s, q) && n in q
    ensures n.cell in s.open && n.cell in s.level && n.priority == s.open[n.cell] && n.level == s.level[n.cell]
  {
    assert q[n] > 0;
  }

  lemma CloseTree(free: set<Cell>, start: Cell, s: Search, c: Cell)
    requires Tree(free, start, s) && c in s.open
    ensures Tree(free, start, Close(s, c))
    ensures c in free && c !in s.closed && s.closed <= free + {start}
  {
    hide Step;
  }

  lemma CloseFrontier(free: set<Cell>, s: Search, current: Cell, c: Cell)
    requires Frontier(free, s, current, DIRECTIONS) && Settled(s, current, DIRECTIONS)
    ensures Frontier(free, Close(s, c), c, 0) && Settled(Close(s, c), c, 0)
  {
    hide Step;
  }

  lemma CloseQueue(s: Search, q: multiset<Node>, n: Node)
    requires Queued(s, q) && n in q
    ensures Queued(Close(s, n.cell), q - multiset{n})
  {
    InQueue(s, q, n);
    assert q[n] == 1;
  }

  lemma CloseStep(p: Problem, s: Search, q: multiset<Node>, current: Cell, n: Node)
    requires Searching(p, s, q, current, DIRECTIONS) && n in q
    ensures n.cell in s.open && n.cell in p.free && n.cell !in s.closed && n.cell in s.level
    ensures s.closed <= p.free + {p.start}
    ensures s.level[n.cell] == n.level
    ensures Searching(p, Close(s, n.cell), q - multiset{n}, n.cell, 0)
  {
    InQueue(s, q, n);
    CloseTree(p.free, p.start, s, n.cell);
    CloseFrontier(p.free, s, current, n.cell);
    CloseQueue(s, q, n);
    hide Tree;
    hide Frontier;
    hide Settled;
    hide Queued;
  }

  // ---------- reaching and improving ----------

  lemma ReachTree(free: set<Cell>, start: Cell, s: Search, c: Cell, i: Direction, priority: nat)
    requires Tree(free, start, s) && c in s.closed
    requires Step(c, i) in s.open || (Step(c, i) in free && Step(c, i) !in s.level)
    ensures Tree(free, start, Reach(s, c, i, priority))
  {
    BackUndoes(c, i);
    hide Step;
    var d, next := Step(c, i), Reach(s, c, i, priority);
    forall x | x in next.level.Keys && x != start
      ensures x in free && x in next.back && Step(x, next.back[x]) in next.closed
      ensures next.level[x] == next.level[Step(x, next.back[x])] + StepCost(next.back[x])
    {
      if x != d {
        assert Step(x, s.back[x]) in s.closed && next.back[x] == s.back[x];
      }
    }
  }

  lemma ReachLowers(free: set<Cell>, start: Cell, s: Search, c: Cell, i: Direction, priority: nat)
    requires Tree(free, start, s) && c in s.closed && Step(c, i) !in s.closed
    requires Step(c, i) in s.level ==> s.level[c] + StepCost(i) <= s.level[Step(c, i)]
    ensures Lowered(s, Reach(s, c, i, priority))
  {
    hide Step;
  }

  lemma ReachFrontier(free: set<Cell>, s: Search, c: Cell, i: Direction, priority: nat)
    requires Frontier(free, s, c, i) && Settled(s, c, i) && c in s.closed && c in s.level && Step(c, i) !in s.closed
    requires if Step(c, i) in s.level then s.level[c] + StepCost(i) <= s.level[Step(c, i)] else Step(c, i) in free
    requires Step(c, i) in s.level ==> Step(c, i) in s.open
    ensures Frontier(free, Reach(s, c, i, priority), c, i + 1) && Settled(Reach(s, c, i, priority), c, i + 1)
  {
    hide Step;
  }

  lemma ReachQueue(s: Search, q: multiset<Node>, c: Cell, i: Direction, n: Node)
    requires Queued(s, q) && c in s.level && Step(c, i) !in s.open
    requires n.cell == Step(c, i) && n.level == s.level[c] + StepCost(i)
    ensures Queued(Reach(s, c, i, n.priority), q + multiset{n})
  {
    hide Step;
  }

  lemma ReachPriced(p: Problem, s: Search, c: Cell, i: Direction, priority: nat)
    requires Priced(p, s) && c in s.level
    requires priority == p.Priority(s.level[c] + StepCost(i), Step(c, i))
    ensures Priced(p, Reach(s, c, i, priority))
  {
    hide Step;
  }

  lemma ReachStep(p: Problem, s: Search, q: multiset<Node>, c: Cell, i: Direction, n: Node)
    requires Searching(p, s, q, c, i) && c in s.closed
    requires n.cell == Step(c, i) && n.cell in p.free && n.cell !in s.level
    requires n.level == s.level[c] + StepCost(i) && n.priority == p.Priority(n.level, n.cell)
    ensures var next := Reach(s, c, i, n.priority);
            Searching(p, next, q + multiset{n}, c, i + 1) && Lowered(s, next)
  {
    hide Step;
    ReachTree(p.free, p.start, s, c, i, n.priority);
    ReachLowers(p.free, p.start, s, c, i, n.priority);
    ReachFrontier(p.free, s, c, i, n.priority);
    ReachQueue(s, q, c, i, n);
    ReachPriced(p, s, c, i, n.priority);
    hide Frontier;
    hide Settled;
    hide Queued;
    hide Priced;
    hide Lowered;
  }

  lemma ImproveQueue(s: Search, q: multiset<Node>, c: Cell, i: Direction, n: Node)
    requires Queued(s, q) && c in s.level && Step(c, i) in s.open && Step(c, i) in s.level
    requires n.cell == Step(c, i) && n.level == s.level[c] + StepCost(i)
    ensures var worse := Node(n.cell, s.level[n.cell], s.open[n.cell]);
            worse in q && Queued(Reach(s, c, i, n.priority), q - multiset{worse} + multiset{n})
  {
    hide Step;
    var worse := Node(n.cell, s.level[n.cell], s.open[n.cell]);
    assert q[worse] == 1;
  }

  /** A smaller priority is a smaller level, and both of an open cell only ever fall. */
  lemma ImproveStep(p: Problem, s: Search, q: multiset<Node>, c: Cell, i: Direction, n: Node)
    requires Searching(p, s, q, c, i) && c in s.closed
    requires n.cell == Step(c, i) && n.cell in s.open && n.priority < s.open[n.cell]
    requires n.level == s.level[c] + StepCost(i) && n.priority == p.Priority(n.level, n.cell)
    ensures n.level < s.level[n.cell]
    ensures var worse, next := Node(n.cell, s.level[n.cell], s.open[n.cell]), Reach(s, c, i, n.priority);
            && worse in q && Searching(p, next, q - multiset{worse} + multiset{n}, c, i + 1)
            && Lowered(s, next)
  {
    hide Step;
    ReachTree(p.free, p.start, s, c, i, n.priority);
    ReachLowers(p.free, p.start, s, c, i, n.priority);
    ReachFrontier(p.free, s, c, i, n.priority);
    ImproveQueue(s, q, c, i, n);
    ReachPriced(p, s, c, i, n.priority);
    hide Frontier;
    hide Settled;
    hide Queued;
    hide Lowered;
  }

  /** What the arrays tell about a cell during the search. */
  lemma CellFacts(p: Problem, s: Search, q: multiset<Node>, c: Cell, i: nat, d: Cell)
    requires Searching(p, s, q, c, i)
    ensures d in s.level <==> d in s.closed || d in s.open
    ensures d in s.open ==> && s.open[d] > 0 && d !in s.closed && d in p.free && s.open[d] == p.Priority(s.level[d], d)
                            && forall m <- q :: m.cell == d ==> m == Node(d, s.level[d], s.open[d])
  {
    hide Frontier;
    hide Settled;
    hide Step;
  }

  lemma PassStep(p: Problem, s: Search, q: multiset<Node>, c: Cell, i: Direction)
    requires Searching(p, s, q, c, i) && c in s.level
    requires Step(c, i) in p.free ==> Step(c, i) in s.level
    requires Step(c, i) in s.open ==> s.level[Step(c, i)] <= s.level[c] + StepCost(i)
    ensures Searching(p, s, q, c, i + 1)
  {
    hide Step;
    hide Queued;
    hide Priced;
  }

  lemma OpenIsQueued(s: Search, q: multiset<Node>, d: Cell)
    requires Queued(s, q) && d in s.open && d in s.level
    ensures Node(d, s.level[d], s.open[d]) in q
  {
    assert q[Node(d, s.level[d], s.open[d])] == 1;
  }

  lemma QueueEmpty(s: Search, q: multiset<Node>)
    requires Queued(s, q) && q == multiset{} && s.open.Keys <= s.level.Keys
    ensures s.open == map[]
  {
    hide Queued;
    if d :| d in s.open {
      OpenIsQueued(s, q, d);
      assert false;
    }
  }

  /** With nothing left to try, only closed cells can be reached. */
  lemma {:induction false} ClosedIsAll(free: set<Cell>, s: Search, current: Cell, c: Cell, path: seq<Direction>)
    requires Frontier(free, s, current, DIRECTIONS) && s.level.Keys == s.closed && c in s.closed
    requires Walk(free, c, path)
    ensures WalkEnd(c, path) in s.closed
    decreases |path|
  {
    if path != [] {
      ClosedIsAll(free, s, current, Step(c, path[0]), path[1..]);
    }
  }

  lemma NotReachable(p: Problem, s: Search, current: Cell, finish: Cell)
    requires Searching(p, s, multiset{}, current, DIRECTIONS) && finish !in s.closed
    ensures !Reachable(p.free, p.start, finish)
  {
    hide Settled;
    hide Priced;
    QueueEmpty(s, multiset{});
    forall path | Walk(p.free, p.start, path)
      ensures WalkEnd(p.start, path) != finish
    {
      ClosedIsAll(p.free, s, current, p.start, path);
    }
  }

  /** One more step in front of a route. */
  lemma RoutePrepend(free: set<Cell>, from: Cell, i: Direction, path: seq<Direction>, to: Cell)
    requires Route(free, Step(from, i), path, to) && Step(from, i) in free
    ensures Route(free, from, [i] + path, to) && WalkCost([i] + path) == StepCost(i) + WalkCost(path)
  {
    assert ([i] + path)[1..] == path;
  }
}
