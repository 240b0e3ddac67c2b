/** A map on which the A* example does not find a cheapest route. Its estimate, ten times the whole part of the distance,
    draws the search into the longer way, and a cell once taken is not taken again. */
module Detour {
  import opened AStarSearch
  import opened BestFirst
  import opened AStar

  const START := Cell(6, 5)
  const FINISH := Cell(0, 1)
  const MEETING := Cell(2, 3)
  const LAST := Cell(1, 2)

  /** Two ways to the meeting cell, along the diagonal or around it, and one way on from there. */
  const FREE: set<Cell> := {
    START, Cell(5, 6), Cell(4, 5), Cell(3, 4), Cell(6, 4), Cell(5, 3), Cell(4, 2), Cell(3, 3), MEETING, LAST, FINISH
  }

  /** The way around, as it is taken. */
  const ORDER: seq<Node> := [
    Node(START, 0, 70), Node(Cell(6, 4), 10, 70), Node(Cell(5, 3), 24, 74),
    Node(Cell(4, 2), 38, 78), Node(Cell(3, 3), 52, 82), Node(MEETING, 62, 82)
  ]

  /** The search of this map with the estimate of the program. */
  ghost predicate IsDetour(p: Problem) {
    && p.free == FREE && p.start == START && p.finish == FINISH
    && forall c: Cell :: IsFloorOfDistance(p.estimate(c, FINISH), c, FINISH)
  }

  lemma EstimateIs(p: Problem, c: Cell, d: nat)
    requires IsDetour(p)
    requires IsFloorOfDistance(d, c, FINISH)
    ensures p.estimate(c, FINISH) == d
  {
    var e := p.estimate(c, FINISH);
    assert IsFloorOfDistance(e, c, FINISH);
    SquaresRise(e, d + 1);
    SquaresRise(d, e + 1);
  }

  lemma Estimates(p: Problem)
    requires IsDetour(p)
    ensures forall i :: 0 <= i < 6 ==> ORDER[i].priority == p.Priority(ORDER[i].level, ORDER[i].cell)
    ensures p.estimate(Cell(5, 6), FINISH) == 7 && p.estimate(Cell(3, 4), FINISH) == 4
  {
    EstimateIs(p, START, 7);
    EstimateIs(p, Cell(6, 4), 6);
    EstimateIs(p, Cell(5, 3), 5);
    EstimateIs(p, Cell(4, 2), 4);
    EstimateIs(p, Cell(3, 3), 3);
    EstimateIs(p, MEETING, 2);
    EstimateIs(p, Cell(5, 6), 7);
    EstimateIs(p, Cell(3, 4), 4);
  }

  /** A step changes each coordinate by one at most, and costs more if it changes both. */
  lemma StepIsNear(c: Cell, k: Direction)
    ensures var d := Step(c, k);
            && d != c && -1 <= d.x - c.x <= 1 && -1 <= d.y - c.y <= 1
            && StepCost(k) == if d.x == c.x || d.y == c.y then 10 else 14
  {
    assert k == 0 || k == 1 || k == 2 || k == 3 || k == 4 || k == 5 || k == 6 || k == 7;
  }

  /** From the cells on the way around one can only go along it, or over to the diagonal. */
  lemma FromOrder(j: nat, d: Cell, k: Direction)
    requires j < 5 && d in FREE && Step(ORDER[j].cell, k) == d
    ensures || (j > 0 && d == ORDER[j - 1].cell)
            || (d == ORDER[j + 1].cell && StepCost(k) == ORDER[j + 1].level - ORDER[j].level)
            || (j == 0 && d == Cell(5, 6) && StepCost(k) == 14)
            || (j == 4 && d == Cell(3, 4) && StepCost(k) == 10)
  {
    hide Step;
    hide StepCost;
    StepIsNear(ORDER[j].cell, k);
    assert j == 0 || j == 1 || j == 2 || j == 3 || j == 4;
  }

  /** The directions of the way around. */
  lemma Along(i: nat) returns (k: Direction)
    requires 1 <= i < 6
    ensures Step(ORDER[i - 1].cell, k) == ORDER[i].cell && StepCost(k) == ORDER[i].level - ORDER[i - 1].level
  {
    k := [6, 5, 5, 3, 4][i - 1];
    assert i == 1 || i == 2 || i == 3 || i == 4 || i == 5;
  }

  /** What can be reached by a step from the first `i` cells of the way around. */
  lemma Reached(i: nat, m: Node, c: Cell, k: Direction)
    requires i < 6 && m in ORDER[..i] && Step(m.cell, k) == c && c in FREE && c !in CellsOf(ORDER[..i])
    ensures || (c == ORDER[i].cell && m.level + StepCost(k) == ORDER[i].level)
            || (c == Cell(5, 6) && m.level + StepCost(k) == 14)
            || (c == Cell(3, 4) && m.level + StepCost(k) == 62)
  {
    hide Step;
    hide StepCost;
    var j: nat :| j < i && ORDER[j] == m;
    FromOrder(j, c, k);
    if j > 0 { assert ORDER[j - 1] in ORDER[..i]; }
    if j + 1 < i { assert ORDER[j + 1] in ORDER[..i]; }
  }

  /** The other cells in reach have greater priorities. */
  lemma NextOfOrder(p: Problem, i: nat, n: Node)
    requires IsDetour(p) && i < 6 && IsTake(p, ORDER[..i], n)
    ensures n == ORDER[i]
  {
    Estimates(p);
    hide IsDetour;
    hide Step;
    hide StepCost;
    hide CellsOf;
    if i > 0 {
      var along := Along(i);
      assert ORDER[i - 1] in ORDER[..i];
      NotBefore(i);
      assert n.priority <= ORDER[i].priority;
      var m, k: Direction :| m in ORDER[..i] && Step(m.cell, k) == n.cell && n.level == m.level + StepCost(k);
      Reached(i, m, n.cell, k);
      Priorities(i);
    }
  }

  lemma Priorities(i: nat)
    requires i < 6
    ensures ORDER[i].priority <= 82
  {}

  lemma NotBefore(i: nat)
    requires i < 6
    ensures ORDER[i].cell in FREE && ORDER[i].cell !in CellsOf(ORDER[..i])
  {
    assert i == 0 || i == 1 || i == 2 || i == 3 || i == 4 || i == 5;
  }

  /** Every search of the map begins with the way around. */
  lemma {:induction false} BeginsWithOrder(p: Problem, taken: seq<Node>, i: nat)
    requires IsDetour(p) && IsSearch(p, taken) && i <= 6 && i <= |taken|
    ensures taken[..i] == ORDER[..i]
  {
    hide IsDetour;
    hide IsTake;
    hide IsSearch;
    if i > 0 {
      BeginsWithOrder(p, taken, i - 1);
      IsSearchPrefix(p, taken, i - 1);
      NextOfOrder(p, i - 1, taken[i - 1]);
      assert taken[..i] == taken[..i - 1] + [taken[i - 1]] && ORDER[..i] == ORDER[..i - 1] + [ORDER[i - 1]];
    }
  }

  /** No cell is taken twice. */
  lemma TakenOnce(p: Problem, taken: seq<Node>, i: nat, j: nat)
    requires IsSearch(p, taken) && i < j < |taken|
    ensures taken[i].cell != taken[j].cell
  {
    IsSearchPrefix(p, taken, j);
    assert taken[i] in taken[..j];
  }

  /** Where a cell that is not the start was reached from. */
  lemma ParentIndex(p: Problem, taken: seq<Node>, a: nat) returns (b: nat, k: Direction)
    requires IsSearch(p, taken) && 0 < a < |taken|
    ensures b < a && Step(taken[b].cell, k) == taken[a].cell && taken[a].level == taken[b].level + StepCost(k)
    ensures taken[b].cell in p.free + {p.start}
  {
    hide Step;
    hide StepCost;
    IsSearchPrefix(p, taken, a);
    var m, i: Direction :| m in taken[..a] && Step(m.cell, i) == taken[a].cell && taken[a].level == m.level + StepCost(i);
    k := i;
    b :| b < a && taken[b] == m;
    IsSearchPrefix(p, taken, b);
  }

  /** The cells beyond the meeting cell have one way in each. */
  lemma FromLast(c: Cell, k: Direction)
    requires c in FREE
    ensures Step(c, k) == FINISH ==> c == LAST && StepCost(k) == 14
    ensures Step(c, k) == LAST ==> c == FINISH || (c == MEETING && StepCost(k) == 14)
  {
    hide Step;
    hide StepCost;
    StepIsNear(c, k);
  }

  /** If the finish is taken last, the cell before it was taken at 76. */
  lemma LastIsLate(p: Problem, taken: seq<Node>, a: nat)
    requires IsDetour(p) && IsSearch(p, taken) && taken != [] && taken[|taken| - 1].cell == FINISH
    requires a < |taken| && taken[a].cell == LAST
    ensures taken[a].level == 76
  {
    hide IsSearch;
    hide Step;
    hide StepCost;
    BeginsWithOrder(p, taken, if |taken| < 6 then |taken| else 6);
    assert forall i :: 0 <= i < |taken| && i < 6 ==> taken[i] == taken[..if |taken| < 6 then |taken| else 6][i] == ORDER[i];
    var b, k := ParentIndex(p, taken, a);
    FromLast(taken[b].cell, k);
    if taken[b].cell == FINISH {
      TakenOnce(p, taken, b, |taken| - 1);
    } else if b < 5 {
      NotMeeting(b);
    } else if b > 5 {
      TakenOnce(p, taken, 5, b);
    }
  }

  lemma NotMeeting(i: nat)
    requires i < 6
    ensures ORDER[i].cell != FINISH && ORDER[i].cell != LAST && (ORDER[i].cell == MEETING <==> i == 5)
  {}

  lemma Diagonal(whole: seq<Direction>, c: Cell, d: Cell, k: Direction)
    requires whole != [] && whole[0] == k && Step(c, k) == d && d in FREE && Route(FREE, d, whole[1..], FINISH)
    ensures Route(FREE, c, whole, FINISH) && WalkCost(whole) == StepCost(k) + WalkCost(whole[1..])
  {}

  lemma DiagonalIsRoute()
    ensures Route(FREE, START, [3, 5, 5, 5, 5, 5], FINISH) && WalkCost([3, 5, 5, 5, 5, 5]) == 84
  {
    var whole: seq<Direction> := [3, 5, 5, 5, 5, 5];
    assert whole[1..][1..][1..][1..][1..][1..] == [];
    assert Route(FREE, FINISH, [], FINISH) && WalkCost([]) == 0;
    hide Route;
    hide WalkCost;
    Diagonal(whole[1..][1..][1..][1..][1..], LAST, FINISH, 5);
    Diagonal(whole[1..][1..][1..][1..], MEETING, LAST, 5);
    Diagonal(whole[1..][1..][1..], Cell(3, 4), MEETING, 5);
    Diagonal(whole[1..][1..], Cell(4, 5), Cell(3, 4), 5);
    Diagonal(whole[1..], Cell(5, 6), Cell(4, 5), 5);
    Diagonal(whole, START, Cell(5, 6), 3);
  }

  /** On this map every search that takes the finish takes it at 90, and the diagonal costs 84. */
  lemma NotAlwaysCheapest(p: Problem, taken: seq<Node>)
    requires IsDetour(p) && IsSearch(p, taken) && taken != [] && taken[|taken| - 1].cell == FINISH
    ensures taken[|taken| - 1].level == 90
    ensures Route(p.free, START, [3, 5, 5, 5, 5, 5], FINISH) && WalkCost([3, 5, 5, 5, 5, 5]) == 84
  {
    DiagonalIsRoute();
    hide IsSearch;
    hide Step;
    hide StepCost;
    hide Route;
    hide WalkCost;
    StartTaken(p, taken);
    var b, k := ParentIndex(p, taken, |taken| - 1);
    FromLast(taken[b].cell, k);
    LastIsLate(p, taken, b);
  }

  lemma FinishIsReachable(p: Problem)
    requires IsDetour(p)
    ensures Reachable(p.free, p.start, p.finish) && p.free == FREE && p.start == START && p.finish == FINISH
  {
    DiagonalIsRoute();
    hide Route;
  }

  /** The program itself, on this map: it finds the way around. */
  method FindDetour(finder: PathFinder) returns (path: seq<Direction>)
    requires finder.Shape() && finder.pq == finder.other == multiset{}
    requires IsDetour(finder.TheProblem(START, FINISH))
    modifies finder, finder.closedNodesMap, finder.openNodesMap, finder.dirMap
    ensures Route(finder.Free(), START, path, FINISH) && WalkCost(path) == 90
    ensures exists another :: Route(finder.Free(), START, another, FINISH) && WalkCost(another) == 84
  {
    hide IsDetour;
    hide IsSearch;
    hide Avoids;
    hide Consistent;
    hide Route;
    hide WalkCost;
    hide Reachable;
    hide FREE;
    ghost var p := finder.TheProblem(START, FINISH);
    FinishIsReachable(p);
    ghost var found;
    path, found := finder.PathFind(START, FINISH);
    NotAlwaysCheapest(p, finder.taken);
    assert finder.TheProblem(START, FINISH) == p;
  }

  /** The whole part of a square root. */
  function Root(n: nat): (r: nat)
    ensures r * r <= n < (r + 1) * (r + 1)
  {
    if n == 0 then 0 else
    var r := Root(n - 1);
    if (r + 1) * (r + 1) <= n then r + 1 else r
  }

  lemma SquareIsPositive(n: int)
    ensures n * n >= 0
  {}

  function Estimate(c: Cell, finish: Cell): (d: nat)
    ensures IsFloorOfDistance(d, c, finish)
  {
    SquareIsPositive(finish.x - c.x);
    SquareIsPositive(finish.y - c.y);
    Root((finish.x - c.x) * (finish.x - c.x) + (finish.y - c.y) * (finish.y - c.y))
  }

  /** A map with a 1 at every cell but these, which hold 0 or 2, searched with the estimate of the program. */
  method WalkDetour() returns (path: seq<Direction>)
    ensures Route(FREE, START, path, FINISH) && WalkCost(path) == 90
  {
    var grid := new int[WIDTH, HEIGHT]((x, y) => if Cell(x, y) in FREE then x % 2 * 2 else 1);
    var finder := new PathFinder(grid, Estimate);
    FreeCells(finder);
    hide Route;
    hide WalkCost;
    path := FindDetour(finder);
    FreeCells(finder);
  }

  lemma FreeCells(finder: PathFinder)
    requires finder.Shape()
    requires forall x: int, y: int :: 0 <= x < WIDTH && 0 <= y < HEIGHT ==>
               finder.grid[x, y] == if Cell(x, y) in FREE then x % 2 * 2 else 1
    ensures finder.Free() == FREE
  {
    forall c | c in FREE
      ensures c in finder.Free()
    {
      assert 0 <= c.x < WIDTH && 0 <= c.y < HEIGHT && finder.grid[c.x, c.y] != 1 && Cell(c.x, c.y) == c;
    }
  }
}
