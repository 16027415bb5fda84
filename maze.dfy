/**
 * The maze: an N-dimensional torus of cells whose walls are stored as one
 * flat vector of booleans (true = wall present), a start and an end cell,
 * the player's position, and the two axes currently shown on screen.
 */
module Mazes {
  import opened Torus
  import BinaryHeap

  /** The number of walls that are open (false) in a wall vector. */
  function CountOpen(walls: seq<bool>): (n: nat)
    ensures n <= |walls|
  {
    if walls == [] then 0
    else CountOpen(walls[..|walls| - 1]) + (if walls[|walls| - 1] then 0 else 1)
  }

  /** Opening one closed wall raises the open count by exactly one. */
  lemma {:induction false} OpenOneMore(walls: seq<bool>, i: nat)
    requires i < |walls| && walls[i]
    ensures CountOpen(walls[i := false]) == CountOpen(walls) + 1
    decreases |walls|
  {
    var last := |walls| - 1;
    var after := walls[i := false];
    assert after[..last] == if i == last then walls[..last] else walls[..last][i := false];
    if i != last {
      OpenOneMore(walls[..last], i);
    }
  }

  /** A vector with every wall present has no open wall. */
  lemma {:induction false} AllClosedNoneOpen(walls: seq<bool>)
    requires forall i :: 0 <= i < |walls| ==> walls[i]
    ensures CountOpen(walls) == 0
  {
    if walls != [] {
      AllClosedNoneOpen(walls[..|walls| - 1]);
    }
  }

  /**
   * Writing one wall's slot changes that wall and no other: reading any
   * valid wall afterwards gives the written value for that wall and the old
   * value for every other one.
   */
  lemma WriteOneWall(shape: seq<nat>, walls: seq<bool>, w: Wall, other: Wall, value: bool)
    requires ValidShape(shape) && |walls| == WallCount(shape)
    requires ValidWall(shape, w) && ValidWall(shape, other)
    ensures walls[WallIndex(shape, w) := value][WallIndex(shape, other)]
         == if other == w then value else walls[WallIndex(shape, other)]
  {
    if other != w && WallIndex(shape, other) == WallIndex(shape, w) {
      WallIndexInjective(shape, w, other);
    }
  }

  /**
   * The wall a step forward crosses is the wall the step back crosses, so a
   * move can always be undone unless a wall was put in between.
   */
  lemma CrossingSymmetric(shape: seq<nat>, p: seq<nat>, axis: nat)
    requires ValidShape(shape) && ValidCell(shape, p) && axis < |shape|
    ensures Crossing(shape, Traverse(shape, p, axis, true), axis, false) == Crossing(shape, p, axis, true)
  {
    TraverseInverse(shape, p, axis, true);
  }

  /**
   * Where one move of the player from `p` along `axis` ends: the next cell in
   * direction `sign`, unless the wall crossed on the way is present.
   */
  ghost function Step(shape: seq<nat>, walls: seq<bool>, p: seq<nat>, axis: nat, sign: bool): (r: seq<nat>)
    requires ValidShape(shape) && |walls| == WallCount(shape) && ValidCell(shape, p) && axis < |shape|
    ensures ValidCell(shape, r)
    ensures r == p || r == Traverse(shape, p, axis, sign)
  {
    if walls[WallIndex(shape, Crossing(shape, p, axis, sign))] then p else Traverse(shape, p, axis, sign)
  }

  /**
   * A move the walls let through can be undone by the opposite move, which
   * crosses the same (open) wall: the player is back where they started.
   */
  lemma StepBack(shape: seq<nat>, walls: seq<bool>, p: seq<nat>, axis: nat, sign: bool)
    requires ValidShape(shape) && |walls| == WallCount(shape) && ValidCell(shape, p) && axis < |shape|
    requires Step(shape, walls, p, axis, sign) != p
    ensures Step(shape, walls, Step(shape, walls, p, axis, sign), axis, !sign) == p
  {
    var n := Traverse(shape, p, axis, sign);
    TraverseInverse(shape, p, axis, sign);
    if sign {
      CrossingSymmetric(shape, p, axis);
    } else {
      assert Crossing(shape, n, axis, true) == Crossing(shape, p, axis, false);
    }
  }

  /**
   * Removes slot `k` by moving the last element into it, as `Vec::swap_remove`
   * does: exactly one copy of `s[k]` leaves, every other element stays.
   */
  function SwapRemove<T>(s: seq<T>, k: nat): (r: seq<T>)
    requires k < |s|
    ensures |r| == |s| - 1
    ensures multiset(r) == multiset(s) - multiset{s[k]}
    ensures forall x :: x in r ==> x in s
    ensures forall x :: x in s && x != s[k] ==> x in r
  {
    var last := |s| - 1;
    var r := s[k := s[last]][..last];
    if k == last then
      assert s == r + [s[k]];
      r
    else
      assert s == s[..k] + [s[k]] + s[k + 1..last] + [s[last]];
      assert r == s[..k] + [s[last]] + s[k + 1..last];
      r
  }

  /** Every wall in `ws` is a wall of the maze. */
  ghost predicate WallsValid(shape: seq<nat>, ws: seq<Wall>)
  {
    forall i :: 0 <= i < |ws| ==> ValidWall(shape, ws[i])
  }

  /** The walls among the first `n` of `ws` that are present in `walls`, in order. */
  function ClosedWalls(shape: seq<nat>, walls: seq<bool>, ws: seq<Wall>, n: nat): (r: seq<Wall>)
    requires ValidShape(shape) && |walls| == WallCount(shape)
    requires WallsValid(shape, ws) && n <= |ws|
    ensures |r| <= n
  {
    if n == 0 then []
    else
      assert ValidWall(shape, ws[n - 1]);
      ClosedWalls(shape, walls, ws, n - 1) + if walls[WallIndex(shape, ws[n - 1])] then [ws[n - 1]] else []
  }

  /**
   * Taking wall `i` of `ws` into account appends it to a queue ending in the
   * present walls among the first `i`, exactly when it is present.
   */
  lemma ClosedWallsNext(shape: seq<nat>, walls: seq<bool>, ws: seq<Wall>, i: nat, prefix: seq<Wall>, queue: seq<Wall>)
    requires ValidShape(shape) && |walls| == WallCount(shape)
    requires WallsValid(shape, ws) && i < |ws|
    requires queue == prefix + ClosedWalls(shape, walls, ws, i)
    ensures ValidWall(shape, ws[i])
    ensures walls[WallIndex(shape, ws[i])] ==> queue + [ws[i]] == prefix + ClosedWalls(shape, walls, ws, i + 1)
    ensures !walls[WallIndex(shape, ws[i])] ==> queue == prefix + ClosedWalls(shape, walls, ws, i + 1)
  {
    assert ValidWall(shape, ws[i]);
    var queued := ClosedWalls(shape, walls, ws, i);
    if walls[WallIndex(shape, ws[i])] {
      assert ClosedWalls(shape, walls, ws, i + 1) == queued + [ws[i]];
      assert queue + [ws[i]] == prefix + (queued + [ws[i]]);
    } else {
      assert ClosedWalls(shape, walls, ws, i + 1) == queued + [];
      assert queued + [] == queued;
    }
  }

  /** `ClosedWalls` keeps exactly the walls among the first `n` of `ws` that are present. */
  lemma {:induction false} ClosedWallsMembers(shape: seq<nat>, walls: seq<bool>, ws: seq<Wall>, n: nat)
    requires ValidShape(shape) && |walls| == WallCount(shape)
    requires WallsValid(shape, ws) && n <= |ws|
    ensures forall w :: w in ClosedWalls(shape, walls, ws, n) ==> w in ws && ValidWall(shape, w) && walls[WallIndex(shape, w)]
    ensures forall i :: 0 <= i < n && ValidWall(shape, ws[i]) && walls[WallIndex(shape, ws[i])] ==> ws[i] in ClosedWalls(shape, walls, ws, n)
  {
    if n != 0 {
      ClosedWallsMembers(shape, walls, ws, n - 1);
      assert ValidWall(shape, ws[n - 1]);
    }
  }

  /** Every visited cell is a cell of the maze. */
  ghost predicate CellsValid(shape: seq<nat>, visited: set<seq<nat>>)
  {
    forall c :: c in visited ==> ValidCell(shape, c)
  }

  /** Every frontier wall is valid and has at least one visited cell beside it. */
  ghost predicate FrontierTouches(shape: seq<nat>, visited: set<seq<nat>>, frontier: seq<Wall>)
    requires ValidShape(shape)
  {
    forall w :: w in frontier ==>
      ValidWall(shape, w) && (w.position in visited || Traverse(shape, w.position, w.axis, true) in visited)
  }

  /** Every open wall has a visited cell on both sides. */
  ghost predicate OpenJoinsVisited(shape: seq<nat>, walls: seq<bool>, visited: set<seq<nat>>)
    requires ValidShape(shape) && |walls| == WallCount(shape)
  {
    forall w :: ValidWall(shape, w) && !walls[WallIndex(shape, w)] ==>
      w.position in visited && Traverse(shape, w.position, w.axis, true) in visited
  }

  /**
   * From every visited cell, each step forward either leads to a visited cell
   * or crosses a wall still waiting in the frontier.
   */
  ghost predicate StepsCovered(shape: seq<nat>, visited: set<seq<nat>>, frontier: seq<Wall>)
    requires ValidShape(shape)
  {
    forall c: seq<nat>, axis: nat :: c in visited && ValidCell(shape, c) && axis < |shape| ==>
      Wall(c, axis) in frontier || Traverse(shape, c, axis, true) in visited
  }

  /** What the generator's loop keeps: the grown region, its frontier, and one opened wall per visited cell beyond the first. */
  ghost predicate GrowthInvariant(shape: seq<nat>, walls: seq<bool>, visited: set<seq<nat>>, frontier: seq<Wall>)
  {
    && ValidShape(shape)
    && |walls| == WallCount(shape)
    && CellsValid(shape, visited)
    && FrontierTouches(shape, visited, frontier)
    && OpenJoinsVisited(shape, walls, visited)
    && StepsCovered(shape, visited, frontier)
    && CountOpen(walls) + 1 == |visited|
  }

  /** With every wall present, the start cell alone and its walls as frontier satisfy the invariant. */
  lemma GrowthStart(shape: seq<nat>, walls: seq<bool>, start: seq<nat>)
    requires ValidShape(shape) && |walls| == WallCount(shape) && ValidCell(shape, start)
    requires forall i :: 0 <= i < |walls| ==> walls[i]
    ensures GrowthInvariant(shape, walls, {start}, WallsOfCell(shape, start))
  {
    AllClosedNoneOpen(walls);
    WallsOfCellAllTouch(shape, start);
    forall axis: nat | axis < |shape|
      ensures Wall(start, axis) in WallsOfCell(shape, start)
    {
      assert WallsOfCell(shape, start)[2 * axis] == Wall(start, axis);
    }
  }

  /** Dropping a frontier wall whose two cells are both visited keeps the invariant. */
  lemma GrowthSkip(shape: seq<nat>, walls: seq<bool>, visited: set<seq<nat>>, frontier: seq<Wall>, k: nat)
    requires GrowthInvariant(shape, walls, visited, frontier) && k < |frontier|
    requires ValidWall(shape, frontier[k])
    requires frontier[k].position in visited
    requires Traverse(shape, frontier[k].position, frontier[k].axis, true) in visited
    ensures GrowthInvariant(shape, walls, visited, SwapRemove(frontier, k))
  {
  }

  lemma WallsOfCellAreValid(shape: seq<nat>, n: seq<nat>)
    requires ValidShape(shape) && ValidCell(shape, n)
    ensures WallsOfCellValid(shape, n)
  {
    forall i | 0 <= i < 2 * |shape|
      ensures ValidWall(shape, WallsOfCell(shape, n)[i])
    {
      WallsOfCellTouch(shape, n, i);
    }
  }

  /** Frontier walls after a visit still touch the (grown) visited region. */
  lemma VisitKeepsFrontier(shape: seq<nat>, walls: seq<bool>, visited: set<seq<nat>>, rest: seq<Wall>, n: seq<nat>)
    requires ValidShape(shape) && |walls| == WallCount(shape) && ValidCell(shape, n)
    requires FrontierTouches(shape, visited, rest)
    ensures WallsOfCellValid(shape, n)
    ensures FrontierTouches(shape, visited + {n}, rest + ClosedWalls(shape, walls, WallsOfCell(shape, n), 2 * |shape|))
  {
    WallsOfCellAllTouch(shape, n);
    WallsOfCellAreValid(shape, n);
    ClosedWallsMembers(shape, walls, WallsOfCell(shape, n), 2 * |shape|);
  }

  /** Opening the wall `w` between two visited cells keeps every open wall between visited cells. */
  lemma OpenKeepsJoins(shape: seq<nat>, walls: seq<bool>, visited: set<seq<nat>>, w: Wall)
    requires ValidShape(shape) && |walls| == WallCount(shape) && ValidWall(shape, w)
    requires OpenJoinsVisited(shape, walls, visited)
    requires w.position in visited && Traverse(shape, w.position, w.axis, true) in visited
    ensures OpenJoinsVisited(shape, walls[WallIndex(shape, w) := false], visited)
  {
    forall u | ValidWall(shape, u) && !walls[WallIndex(shape, w) := false][WallIndex(shape, u)]
      ensures u.position in visited && Traverse(shape, u.position, u.axis, true) in visited
    {
      WriteOneWall(shape, walls, w, u, false);
    }
  }

  /** Steps from the newly visited cell `n` are covered by its queued walls or lead to visited cells. */
  lemma VisitKeepsCovered(shape: seq<nat>, walls: seq<bool>, visited: set<seq<nat>>, frontier: seq<Wall>, k: nat, n: seq<nat>)
    requires ValidShape(shape) && |walls| == WallCount(shape) && ValidCell(shape, n) && k < |frontier|
    requires ValidWall(shape, frontier[k]) && WallsOfCellValid(shape, n)
    requires OpenJoinsVisited(shape, walls, visited) && StepsCovered(shape, visited, frontier)
    requires n == frontier[k].position || n == Traverse(shape, frontier[k].position, frontier[k].axis, true)
    ensures StepsCovered(shape, visited + {n}, SwapRemove(frontier, k) + ClosedWalls(shape, walls, WallsOfCell(shape, n), 2 * |shape|))
  {
    var w := frontier[k];
    var visited' := visited + {n};
    var frontier' := SwapRemove(frontier, k) + ClosedWalls(shape, walls, WallsOfCell(shape, n), 2 * |shape|);
    ClosedWallsMembers(shape, walls, WallsOfCell(shape, n), 2 * |shape|);
    forall c: seq<nat>, axis: nat | c in visited' && ValidCell(shape, c) && axis < |shape|
      ensures Wall(c, axis) in frontier' || Traverse(shape, c, axis, true) in visited'
    {
      if c == n {
        assert WallsOfCell(shape, n)[2 * axis] == Wall(n, axis);
      } else if Wall(c, axis) == w {
        assert Traverse(shape, c, axis, true) in visited';
      } else {
        assert Wall(c, axis) in frontier || Traverse(shape, c, axis, true) in visited;
      }
    }
  }

  /**
   * Visiting the one unvisited cell `n` beside frontier wall `frontier[k]`,
   * queueing the present walls of `n` and opening `frontier[k]` keeps the
   * invariant; that wall was present before.
   */
  lemma GrowthVisit(shape: seq<nat>, walls: seq<bool>, visited: set<seq<nat>>, frontier: seq<Wall>, k: nat, n: seq<nat>)
    requires GrowthInvariant(shape, walls, visited, frontier) && k < |frontier|
    requires ValidWall(shape, frontier[k])
    requires n == frontier[k].position || n == Traverse(shape, frontier[k].position, frontier[k].axis, true)
    requires n !in visited
    ensures walls[WallIndex(shape, frontier[k])]
    ensures WallsOfCellValid(shape, n)
    ensures GrowthInvariant(shape, walls[WallIndex(shape, frontier[k]) := false], visited + {n},
                           SwapRemove(frontier, k) + ClosedWalls(shape, walls, WallsOfCell(shape, n), 2 * |shape|))
  {
    var w := frontier[k];
    var other := if n == w.position then Traverse(shape, w.position, w.axis, true) else w.position;
    assert other in visited;
    assert ValidCell(shape, n);
    VisitKeepsFrontier(shape, walls, visited, SwapRemove(frontier, k), n);
    OpenKeepsJoins(shape, walls, visited + {n}, w);
    VisitKeepsCovered(shape, walls, visited, frontier, k, n);
    OpenOneMore(walls, WallIndex(shape, w));
  }

  /** Every wall of `n` is valid (the precondition of `ClosedWalls` over them). */
  ghost predicate WallsOfCellValid(shape: seq<nat>, n: seq<nat>)
    requires ValidShape(shape)
  {
    ValidCell(shape, n) && WallsValid(shape, WallsOfCell(shape, n))
  }

  /** Once the frontier is empty, every cell of the torus has been visited. */
  lemma GrowthDone(shape: seq<nat>, walls: seq<bool>, visited: set<seq<nat>>, start: seq<nat>)
    requires GrowthInvariant(shape, walls, visited, []) && ValidCell(shape, start) && start in visited
    ensures visited == AllCells(shape)
    ensures CountOpen(walls) + 1 == CellCount(shape)
  {
    EveryCellReached(shape, visited, start);
    forall c | c in visited
      ensures c in AllCells(shape)
    {
      AllCellsExactly(shape, c);
    }
    forall c | c in AllCells(shape)
      ensures c in visited
    {
      AllCellsExactly(shape, c);
    }
    AllCellsCard(shape);
  }

  datatype SolveError =
    | NoPathFound   // the open set ran out before the end cell was reached
    | MissingLink   // path reconstruction met a cell with no recorded predecessor

  datatype Result<T, E> = Ok(value: T) | Err(error: E)

  /** `n` is one step from `p` along some axis, through a wall that is open. */
  ghost predicate OpenStep(shape: seq<nat>, walls: seq<bool>, p: seq<nat>, n: seq<nat>)
    requires ValidShape(shape) && |walls| == WallCount(shape)
  {
    && ValidCell(shape, p)
    && exists axis: nat, sign: bool ::
         axis < |shape| && n == Traverse(shape, p, axis, sign) && !walls[WallIndex(shape, Crossing(shape, p, axis, sign))]
  }

  /** Each cell of `path` is one open step from the one before it. */
  ghost predicate OpenPath(shape: seq<nat>, walls: seq<bool>, path: seq<seq<nat>>)
    requires ValidShape(shape) && |walls| == WallCount(shape)
  {
    forall i :: 0 <= i < |path| - 1 ==> OpenStep(shape, walls, path[i], path[i + 1])
  }
  /** `path` leads from `from` to `to`, one open step at a time. */
  ghost predicate PathBetween(shape: seq<nat>, walls: seq<bool>, path: seq<seq<nat>>, from: seq<nat>, to: seq<nat>)
    requires ValidShape(shape) && |walls| == WallCount(shape)
  {
    && |path| >= 1
    && path[0] == from
    && path[|path| - 1] == to
    && OpenPath(shape, walls, path)
  }

  /** Putting a cell one open step before the head of an open path gives an open path. */
  lemma OpenPathPrepend(shape: seq<nat>, walls: seq<bool>, c: seq<nat>, path: seq<seq<nat>>)
    requires ValidShape(shape) && |walls| == WallCount(shape)
    requires OpenPath(shape, walls, path)
    requires path != [] ==> OpenStep(shape, walls, c, path[0])
    ensures OpenPath(shape, walls, [c] + path)
  {
    var p := [c] + path;
    forall i | 0 <= i < |p| - 1
      ensures OpenStep(shape, walls, p[i], p[i + 1])
    {
      if i > 0 {
        assert p[i] == path[i - 1] && p[i + 1] == path[i];
      }
    }
  }

  /** Opening a wall keeps every open step open. */
  lemma OpenStepStaysOpen(shape: seq<nat>, walls: seq<bool>, index: nat, p: seq<nat>, n: seq<nat>)
    requires ValidShape(shape) && |walls| == WallCount(shape) && index < |walls|
    requires OpenStep(shape, walls, p, n)
    ensures OpenStep(shape, walls[index := false], p, n)
  {
    var axis: nat, sign: bool :|
      axis < |shape| && n == Traverse(shape, p, axis, sign) && !walls[WallIndex(shape, Crossing(shape, p, axis, sign))];
    assert !walls[index := false][WallIndex(shape, Crossing(shape, p, axis, sign))];
  }

  /** Opening a wall keeps every open path open. */
  lemma OpenPathStaysOpen(shape: seq<nat>, walls: seq<bool>, index: nat, path: seq<seq<nat>>)
    requires ValidShape(shape) && |walls| == WallCount(shape) && index < |walls|
    requires OpenPath(shape, walls, path)
    ensures OpenPath(shape, walls[index := false], path)
  {
    forall i | 0 <= i < |path| - 1
      ensures OpenStep(shape, walls[index := false], path[i], path[i + 1])
    {
      OpenStepStaysOpen(shape, walls, index, path[i], path[i + 1]);
    }
  }

  /** Once wall `w` is open, each of its two cells is one open step from the other. */
  lemma StepThrough(shape: seq<nat>, walls: seq<bool>, w: Wall, o: seq<nat>, n: seq<nat>)
    requires ValidShape(shape) && |walls| == WallCount(shape) && ValidWall(shape, w)
    requires !walls[WallIndex(shape, w)]
    requires || (o == w.position && n == Traverse(shape, w.position, w.axis, true))
             || (n == w.position && o == Traverse(shape, w.position, w.axis, true))
    ensures OpenStep(shape, walls, o, n)
  {
    if o == w.position && n == Traverse(shape, w.position, w.axis, true) {
      assert Crossing(shape, o, w.axis, true) == w;
    } else {
      TraverseInverse(shape, n, w.axis, true);
      assert Crossing(shape, o, w.axis, false) == w;
    }
  }

  /** Putting a cell one open step after the last cell of an open path gives an open path. */
  lemma OpenPathAppend(shape: seq<nat>, walls: seq<bool>, path: seq<seq<nat>>, n: seq<nat>)
    requires ValidShape(shape) && |walls| == WallCount(shape)
    requires OpenPath(shape, walls, path) && path != []
    requires OpenStep(shape, walls, path[|path| - 1], n)
    ensures OpenPath(shape, walls, path + [n])
  {
    var p := path + [n];
    forall i | 0 <= i < |p| - 1
      ensures OpenStep(shape, walls, p[i], p[i + 1])
    {
      if i < |path| - 1 {
        assert p[i] == path[i] && p[i + 1] == path[i + 1];
      }
    }
  }

  /** `to` can be reached from `from` through open walls. */
  ghost predicate Reachable(shape: seq<nat>, walls: seq<bool>, from: seq<nat>, to: seq<nat>)
    requires ValidShape(shape) && |walls| == WallCount(shape)
  {
    exists path :: PathBetween(shape, walls, path, from, to)
  }

  /** `routes` holds, for every cell in `cells`, an open path to it from `from`. */
  ghost predicate RoutesFrom(shape: seq<nat>, walls: seq<bool>, from: seq<nat>, cells: set<seq<nat>>,
                             routes: map<seq<nat>, seq<seq<nat>>>)
    requires ValidShape(shape) && |walls| == WallCount(shape)
  {
    forall c :: c in cells ==> c in routes && PathBetween(shape, walls, routes[c], from, c)
  }

  /** The start cell is reached by the path made of itself alone. */
  lemma RoutesStart(shape: seq<nat>, walls: seq<bool>, start: seq<nat>)
    requires ValidShape(shape) && |walls| == WallCount(shape)
    ensures RoutesFrom(shape, walls, start, {start}, map[start := [start]])
  {
    assert PathBetween(shape, walls, [start], start, start);
  }

  /**
   * Opening wall `w`, whose cell `o` is already reached, reaches its other
   * cell `n` by one more step, and keeps every route found so far.
   */
  lemma RoutesVisit(shape: seq<nat>, walls: seq<bool>, from: seq<nat>, cells: set<seq<nat>>,
                    routes: map<seq<nat>, seq<seq<nat>>>, w: Wall, o: seq<nat>, n: seq<nat>)
    requires ValidShape(shape) && |walls| == WallCount(shape) && ValidWall(shape, w)
    requires RoutesFrom(shape, walls, from, cells, routes) && o in cells
    requires || (o == w.position && n == Traverse(shape, w.position, w.axis, true))
             || (n == w.position && o == Traverse(shape, w.position, w.axis, true))
    ensures RoutesFrom(shape, walls[WallIndex(shape, w) := false], from, cells + {n}, routes[n := routes[o] + [n]])
  {
    var walls' := walls[WallIndex(shape, w) := false];
    forall c | c in cells
      ensures OpenPath(shape, walls', routes[c])
    {
      OpenPathStaysOpen(shape, walls, WallIndex(shape, w), routes[c]);
    }
    StepThrough(shape, walls', w, o, n);
    OpenPathAppend(shape, walls', routes[o], n);
  }

  /** Once every cell has a route, every cell is reachable. */
  lemma RoutesReach(shape: seq<nat>, walls: seq<bool>, from: seq<nat>, routes: map<seq<nat>, seq<seq<nat>>>)
    requires ValidShape(shape) && |walls| == WallCount(shape)
    requires RoutesFrom(shape, walls, from, AllCells(shape), routes)
    ensures forall c :: ValidCell(shape, c) ==> Reachable(shape, walls, from, c)
  {
    forall c | ValidCell(shape, c)
      ensures Reachable(shape, walls, from, c)
    {
      AllCellsExactly(shape, c);
      assert PathBetween(shape, walls, routes[c], from, c);
    }
  }

  /** Every recorded predecessor link `n -> links[n]` is an open step from `links[n]` to `n`. */
  ghost predicate LinksOpen(shape: seq<nat>, walls: seq<bool>, links: map<seq<nat>, seq<nat>>)
    requires ValidShape(shape) && |walls| == WallCount(shape)
  {
    forall n :: n in links ==> ValidCell(shape, n) && OpenStep(shape, walls, links[n], n)
  }

  /**
   * Every cell one open step away from a visited cell is visited or pending
   * (in the open set, or just taken out of it).
   */
  ghost predicate FrontierComplete(shape: seq<nat>, walls: seq<bool>, visited: set<seq<nat>>, pending: set<seq<nat>>)
    requires ValidShape(shape) && |walls| == WallCount(shape)
  {
    forall v: seq<nat>, axis: nat, sign: bool ::
      v in visited && ValidCell(shape, v) && axis < |shape|
      && !walls[WallIndex(shape, Crossing(shape, v, axis, sign))]
      && Traverse(shape, v, axis, sign) !in visited
      ==> Traverse(shape, v, axis, sign) in pending
  }
  /**
   * The state of the search between two rounds: visited and pending cells
   * are valid, every link is an open step, and every open step out of a
   * visited cell leads to a visited or pending cell.
   */
  ghost predicate Searching(shape: seq<nat>, walls: seq<bool>, visited: set<seq<nat>>, pending: set<seq<nat>>,
                            links: map<seq<nat>, seq<nat>>)
    requires ValidShape(shape) && |walls| == WallCount(shape)
  {
    && (forall c :: c in visited ==> ValidCell(shape, c))
    && (forall c :: c in pending ==> ValidCell(shape, c))
    && LinksOpen(shape, walls, links)
    && FrontierComplete(shape, walls, visited, pending)
  }


  /** Every cell one open step from `x` that is not visited is in `keys`. */
  ghost predicate NeighboursPending(shape: seq<nat>, walls: seq<bool>, visited: set<seq<nat>>, x: seq<nat>, keys: set<seq<nat>>)
    requires ValidShape(shape) && |walls| == WallCount(shape) && ValidCell(shape, x)
  {
    forall axis: nat, sign: bool ::
      axis < |shape|
      && !walls[WallIndex(shape, Crossing(shape, x, axis, sign))]
      && Traverse(shape, x, axis, sign) !in visited
      ==> Traverse(shape, x, axis, sign) in keys
  }

  /** The first `i` pairs of `Neighbours(x)` that cross an open wall to an unvisited cell lead into `keys`. */
  ghost predicate PendingUpTo(shape: seq<nat>, walls: seq<bool>, visited: set<seq<nat>>, x: seq<nat>, keys: set<seq<nat>>, i: nat)
    requires ValidShape(shape) && |walls| == WallCount(shape) && ValidCell(shape, x) && i <= 2 * |shape|
  {
    forall j :: 0 <= j < i
      && !walls[WallIndex(shape, Torus.Neighbours(shape, x)[j].0)]
      && Torus.Neighbours(shape, x)[j].1 !in visited
      ==> Torus.Neighbours(shape, x)[j].1 in keys
  }

  /**
   * Handling pair `i` of `Neighbours(x)` extends `PendingUpTo` by one: the
   * keys only grow, and the pair's cell is in the new keys whenever its wall
   * is open and the cell is unvisited.
   */
  lemma PendingStep(shape: seq<nat>, walls: seq<bool>, visited: set<seq<nat>>, x: seq<nat>,
                    keys: set<seq<nat>>, keys': set<seq<nat>>, i: nat)
    requires ValidShape(shape) && |walls| == WallCount(shape) && ValidCell(shape, x) && i < 2 * |shape|
    requires PendingUpTo(shape, walls, visited, x, keys, i) && keys <= keys'
    requires !walls[WallIndex(shape, Torus.Neighbours(shape, x)[i].0)] && Torus.Neighbours(shape, x)[i].1 !in visited
             ==> Torus.Neighbours(shape, x)[i].1 in keys'
    ensures PendingUpTo(shape, walls, visited, x, keys', i + 1)
  {
  }

  /** The cell of pair `i` of `Neighbours(x)` is one open step from `x` when the pair's wall is open. */
  lemma NeighbourStep(shape: seq<nat>, walls: seq<bool>, x: seq<nat>, i: nat)
    requires ValidShape(shape) && |walls| == WallCount(shape) && ValidCell(shape, x) && i < 2 * |shape|
    requires !walls[WallIndex(shape, Torus.Neighbours(shape, x)[i].0)]
    ensures OpenStep(shape, walls, x, Torus.Neighbours(shape, x)[i].1)
  {
    var axis, sign := i / 2, i % 2 == 1;
    assert Torus.Neighbours(shape, x)[i] == (Crossing(shape, x, axis, sign), Traverse(shape, x, axis, sign));
  }

  /** Recording `p` as the predecessor of `n`, one open step after it, keeps every link open. */
  lemma LinksExtend(shape: seq<nat>, walls: seq<bool>, links: map<seq<nat>, seq<nat>>, n: seq<nat>, p: seq<nat>)
    requires ValidShape(shape) && |walls| == WallCount(shape)
    requires LinksOpen(shape, walls, links) && ValidCell(shape, n) && OpenStep(shape, walls, p, n)
    ensures LinksOpen(shape, walls, links[n := p])
  {
  }

  /** Going through all `2 * D` pairs of `Neighbours(x)` covers every open step from `x`. */
  lemma AllNeighboursPending(shape: seq<nat>, walls: seq<bool>, visited: set<seq<nat>>, x: seq<nat>, keys: set<seq<nat>>)
    requires ValidShape(shape) && |walls| == WallCount(shape) && ValidCell(shape, x)
    requires PendingUpTo(shape, walls, visited, x, keys, 2 * |shape|)
    ensures NeighboursPending(shape, walls, visited, x, keys)
  {
    forall axis: nat, sign: bool |
      axis < |shape|
      && !walls[WallIndex(shape, Crossing(shape, x, axis, sign))]
      && Traverse(shape, x, axis, sign) !in visited
      ensures Traverse(shape, x, axis, sign) in keys
    {
      var j := 2 * axis + if sign then 1 else 0;
      assert Torus.Neighbours(shape, x)[j] == (Crossing(shape, x, axis, sign), Traverse(shape, x, axis, sign));
    }
  }

  /**
   * Once every open, unvisited neighbour of `x` is in `keys`, and the old
   * pending set `earlier + {x}` only lost `x`, visiting `x` keeps the frontier
   * complete.
   */
  lemma FrontierAfterVisit(shape: seq<nat>, walls: seq<bool>, visited: set<seq<nat>>, x: seq<nat>,
                           earlier: set<seq<nat>>, keys: set<seq<nat>>)
    requires ValidShape(shape) && |walls| == WallCount(shape) && ValidCell(shape, x)
    requires FrontierComplete(shape, walls, visited, earlier + {x}) && earlier <= keys
    requires NeighboursPending(shape, walls, visited, x, keys)
    ensures FrontierComplete(shape, walls, visited + {x}, keys)
  {
  }

  /** A visited cell's open, unvisited neighbours were already pending before it was taken out. */
  lemma VisitedNeighboursPending(shape: seq<nat>, walls: seq<bool>, visited: set<seq<nat>>, x: seq<nat>, earlier: set<seq<nat>>)
    requires ValidShape(shape) && |walls| == WallCount(shape) && ValidCell(shape, x)
    requires FrontierComplete(shape, walls, visited, earlier + {x}) && x in visited
    ensures NeighboursPending(shape, walls, visited, x, earlier)
  {
  }

  /** Visiting a cell of `all` not visited before leaves fewer cells of `all` unvisited. */
  lemma VisitShrinks(all: set<seq<nat>>, visited: set<seq<nat>>, x: seq<nat>)
    requires x in all && x !in visited
    ensures |all - (visited + {x})| < |all - visited|
  {
    assert all - (visited + {x}) == (all - visited) - {x};
  }

  /** Following one link consumes it: the rest of the links stay open and are fewer. */
  lemma LinksRemove(shape: seq<nat>, walls: seq<bool>, links: map<seq<nat>, seq<nat>>, n: seq<nat>)
    requires ValidShape(shape) && |walls| == WallCount(shape)
    requires LinksOpen(shape, walls, links) && n in links
    ensures LinksOpen(shape, walls, links - {n}) && |links - {n}| < |links|
  {
    assert (links - {n}).Keys == links.Keys - {n};
  }

  /** Removing a key from a map and adding it back to the key set gives the old key set. */
  lemma RemoveThenAdd<K, V>(m: map<K, V>, k: K)
    requires k in m
    ensures (m - {k}).Keys + {k} == m.Keys
  {
  }

  /** Visiting a cell already visited leaves the set of unvisited cells as it was. */
  lemma RevisitKeeps(all: set<seq<nat>>, visited: set<seq<nat>>, x: seq<nat>)
    requires x in visited
    ensures all - (visited + {x}) == all - visited
  {
    assert visited + {x} == visited;
  }

  /**
   * With nothing pending, every open step out of a visited cell stays among
   * the visited cells, so an open path that starts there stays there too.
   */
  lemma {:induction false} PathStaysVisited(shape: seq<nat>, walls: seq<bool>, visited: set<seq<nat>>,
                                            links: map<seq<nat>, seq<nat>>, path: seq<seq<nat>>, i: nat)
    requires ValidShape(shape) && |walls| == WallCount(shape)
    requires Searching(shape, walls, visited, {}, links)
    requires OpenPath(shape, walls, path) && i < |path| && path[0] in visited
    ensures path[i] in visited
  {
    if i > 0 {
      PathStaysVisited(shape, walls, visited, links, path, i - 1);
      assert OpenStep(shape, walls, path[i - 1], path[i]);
      var axis: nat, sign: bool :| axis < |shape| && path[i] == Traverse(shape, path[i - 1], axis, sign)
        && !walls[WallIndex(shape, Crossing(shape, path[i - 1], axis, sign))];
    }
  }

  /**
   * A search that ran out of pending cells, having visited `from` but not
   * `to`, shows that `to` cannot be reached from `from` through open walls.
   */
  lemma SearchExhausted(shape: seq<nat>, walls: seq<bool>, visited: set<seq<nat>>,
                        links: map<seq<nat>, seq<nat>>, from: seq<nat>, to: seq<nat>)
    requires ValidShape(shape) && |walls| == WallCount(shape)
    requires Searching(shape, walls, visited, {}, links)
    requires from in visited && to !in visited
    ensures !Reachable(shape, walls, from, to)
  {
    forall path | |path| >= 1 && path[0] == from && OpenPath(shape, walls, path)
      ensures path[|path| - 1] in visited
    {
      PathStaysVisited(shape, walls, visited, links, path, |path| - 1);
    }
  }

  class Maze {
    const dimensions: seq<nat>
    var start: seq<nat>
    var end: seq<nat>
    var position: seq<nat>
    /** The two axes shown on screen (rows, columns). */
    const axes: array<nat>
    /** One slot per wall, at `WallIndex(dimensions, wall)`; true means the wall is there. */
    const walls: array<bool>

    ghost predicate Valid()
      reads this
    {
      && ValidShape(dimensions)
      && walls.Length == WallCount(dimensions)
      && axes.Length == 2
      && ValidCell(dimensions, start)
      && ValidCell(dimensions, end)
      && ValidCell(dimensions, position)
    }

    /**
     * A maze with every wall present, start, end and position at the origin,
     * and the first two axes on screen.
     */
    constructor (dimensions: seq<nat>)
      ensures this.dimensions == dimensions
      ensures |start| == |end| == |position| == |dimensions|
      ensures forall i :: 0 <= i < |dimensions| ==> start[i] == 0 && end[i] == 0 && position[i] == 0
      ensures axes.Length == 2 && axes[0] == 0 && axes[1] == 1
      ensures walls.Length == CellCount(dimensions) * |dimensions|
      ensures forall i :: 0 <= i < walls.Length ==> walls[i]
      ensures fresh(axes) && fresh(walls)
      ensures ValidShape(dimensions) ==> Valid()
    {
      this.dimensions := dimensions;
      var zeros := seq(|dimensions|, _ => 0);
      start := zeros;
      end := zeros;
      position := zeros;
      axes := new nat[] [0, 1];
      walls := new bool[CellCount(dimensions) * |dimensions|](_ => true);
    }

    /**
     * The slot of `wall`: its coordinates read as a mixed-radix number
     * (first axis least significant), plus the cell count times its axis.
     */
    method ComputeWallIndex(wall: Wall) returns (index: nat)
      requires |wall.position| == |dimensions|
      ensures index == WallIndex(dimensions, wall)
    {
      index := 0;
      var stride := 1;
      for i := 0 to |dimensions|
        invariant index == Flatten(dimensions[..i], wall.position[..i])
        invariant stride == CellCount(dimensions[..i])
      {
        FlattenSnoc(dimensions[..i], wall.position[..i], dimensions[i], wall.position[i]);
        CellCountSnoc(dimensions[..i], dimensions[i]);
        assert dimensions[..i + 1] == dimensions[..i] + [dimensions[i]];
        assert wall.position[..i + 1] == wall.position[..i] + [wall.position[i]];
        index := index + stride * wall.position[i];
        stride := stride * dimensions[i];
      }
      assert dimensions[..|dimensions|] == dimensions;
      assert wall.position[..|dimensions|] == wall.position;
      index := index + stride * wall.axis;
    }

    /** Every pair (wall, neighbour cell) around `position`. */
    method Neighbours(position: seq<nat>) returns (result: seq<(Wall, seq<nat>)>)
      requires Valid() && ValidCell(dimensions, position)
      ensures result == Torus.Neighbours(dimensions, position)
    {
      result := [];
      for axis := 0 to |dimensions|
        invariant |result| == 2 * axis
        invariant forall i :: 0 <= i < |result| ==> result[i] == Torus.Neighbours(dimensions, position)[i]
      {
        var back := Traverse(dimensions, position, axis, false);
        result := result + [(Wall(back, axis), back)];
        var forth := Traverse(dimensions, position, axis, true);
        result := result + [(Wall(position, axis), forth)];
      }
    }

    /** Puts every wall back. */
    method ResetWalls()
      modifies walls
      ensures forall i :: 0 <= i < walls.Length ==> walls[i]
    {
      forall i | 0 <= i < walls.Length {
        walls[i] := true;
      }
    }

    /** Whether `wall` is present. */
    method GetWall(wall: Wall) returns (present: bool)
      requires Valid() && ValidWall(dimensions, wall)
      ensures present == walls[WallIndex(dimensions, wall)]
    {
      var index := ComputeWallIndex(wall);
      present := walls[index];
    }

    /** Puts up (`value`) or takes down (`!value`) `wall`, leaving every other slot alone. */
    method SetWall(wall: Wall, value: bool)
      requires Valid() && ValidWall(dimensions, wall)
      modifies walls
      ensures walls[..] == old(walls[..])[WallIndex(dimensions, wall) := value]
    {
      var index := ComputeWallIndex(wall);
      walls[index] := value;
    }

    /** Moves the player back to the start cell. */
    method Start()
      requires Valid()
      modifies this`position
      ensures Valid() && position == start
    {
      position := start;
    }

    /** Shows `axis` as screen axis `viewAxis`; ignores out-of-range requests. */
    method SetViewAxis(viewAxis: nat, axis: nat)
      requires Valid()
      modifies axes
      ensures viewAxis < 2 && axis < |dimensions| ==> axes[..] == old(axes[..])[viewAxis := axis]
      ensures !(viewAxis < 2 && axis < |dimensions|) ==> axes[..] == old(axes[..])
    {
      if viewAxis < 2 && axis < |dimensions| {
        axes[viewAxis] := axis;
      }
    }

    /**
     * Moves the player one cell along screen axis `viewAxis` (forward when
     * `sign` holds), unless the wall between the two cells is present.
     */
    method Walk(viewAxis: nat, sign: bool)
      requires Valid() && viewAxis < 2 && axes[viewAxis] < |dimensions|
      modifies this`position
      ensures Valid()
      ensures position == Step(dimensions, walls[..], old(position), axes[viewAxis], sign)
    {
      var a := axes[viewAxis];
      ghost var from, present := position, walls[..];
      if sign {
        var blocked := GetWall(Wall(position, a));
        assert Wall(from, a) == Crossing(dimensions, from, a, true);
        if blocked {
          return;
        }
        if position[a] != dimensions[a] - 1 {
          position := position[a := position[a] + 1];
        } else {
          position := position[a := 0];
        }
        assert position == Traverse(dimensions, from, a, true);
      } else {
        var oldValue := position[a];
        if position[a] != 0 {
          position := position[a := position[a] - 1];
        } else {
          position := position[a := dimensions[a] - 1];
        }
        assert position == Traverse(dimensions, from, a, false);
        var blocked := GetWall(Wall(position, a));
        assert Wall(position, a) == Crossing(dimensions, from, a, false);
        if blocked {
          position := position[a := oldValue];
          assert position == from;
        }
      }
      assert walls[..] == present;
    }

    /** Visits `cell`: queues each of its walls that is present and marks it visited. */
    method VisitCell(cell: seq<nat>, visited: set<seq<nat>>, frontier: seq<Wall>)
      returns (visited': set<seq<nat>>, frontier': seq<Wall>)
      requires Valid() && ValidCell(dimensions, cell)
      ensures WallsOfCellValid(dimensions, cell)
      ensures visited' == visited + {cell}
      ensures frontier' == frontier + ClosedWalls(dimensions, walls[..], WallsOfCell(dimensions, cell), 2 * |dimensions|)
    {
      var cellWalls := FromCell(dimensions, cell);
      WallsOfCellAreValid(dimensions, cell);
      ghost var present := walls[..];
      frontier' := frontier;
      for i := 0 to |cellWalls|
        invariant frontier' == frontier + ClosedWalls(dimensions, present, cellWalls, i)
      {
        var closed := GetWall(cellWalls[i]);
        ClosedWallsNext(dimensions, present, cellWalls, i, frontier, frontier');
        if closed {
          frontier' := frontier' + [cellWalls[i]];
        }
      }
      visited' := visited + {cell};
    }

    /**
     * Picks a random start and end, then grows a maze from the start. Exactly
     * one wall fewer than there are cells ends up open, and every cell can be
     * reached from the start through open walls: the open walls form a
     * spanning tree of the torus.
     */
    method Generate()
      requires Valid()
      modifies this`start, this`end, walls
      ensures Valid()
      ensures CountOpen(walls[..]) + 1 == CellCount(dimensions)
      ensures forall c :: ValidCell(dimensions, c) ==> Reachable(dimensions, walls[..], start, c)
    {
      for i := 0 to |dimensions|
        invariant Valid()
      {
        var value :| 0 <= value < dimensions[i];
        start := start[i := value];
      }
      for i := 0 to |dimensions|
        invariant Valid()
      {
        var value :| 0 <= value < dimensions[i];
        end := end[i := value];
      }
      Grow();
    }

    /**
     * Grows a maze from `start` with every wall put back first: a random
     * frontier wall is taken out, and when it leads to an unvisited cell that
     * cell is visited, its present walls join the frontier and the wall is
     * opened.
     */
    method Grow()
      requires Valid()
      modifies walls
      ensures CountOpen(walls[..]) + 1 == CellCount(dimensions)
      ensures forall c :: ValidCell(dimensions, c) ==> Reachable(dimensions, walls[..], start, c)
    {
      var visited := {start};
      var frontier := FromCell(dimensions, start);
      ghost var routes := map[start := [start]];

      ResetWalls();
      GrowthStart(dimensions, walls[..], start);
      RoutesStart(dimensions, walls[..], start);
      while |frontier| != 0
        invariant start in visited
        invariant GrowthInvariant(dimensions, walls[..], visited, frontier)
        invariant RoutesFrom(dimensions, walls[..], start, visited, routes)
        decreases walls.Length - CountOpen(walls[..]), |frontier|
      {
        var k :| 0 <= k < |frontier|;
        var wall := frontier[k];
        var cells := NeighbourCells(dimensions, wall);
        ghost var walls0, visited0, frontier0 := walls[..], visited, frontier;
        frontier := SwapRemove(frontier, k);

        var okay := false;
        ghost var reached, via := cells[0], cells[1];
        if cells[0] !in visited {
          GrowthVisit(dimensions, walls0, visited, frontier0, k, cells[0]);
          visited, frontier := VisitCell(cells[0], visited, frontier);
          okay := true;
        }
        if cells[1] !in visited {
          GrowthVisit(dimensions, walls0, visited0, frontier0, k, cells[1]);
          visited, frontier := VisitCell(cells[1], visited, frontier);
          okay := true;
          reached, via := cells[1], cells[0];
        }

        if okay {
          assert via in visited0;
          RoutesVisit(dimensions, walls0, start, visited0, routes, wall, via, reached);
          routes := routes[reached := routes[via] + [reached]];
          OpenOneMore(walls0, WallIndex(dimensions, wall));
          SetWall(wall, false);
          assert CountOpen(walls[..]) == CountOpen(walls0) + 1;
        } else {
          GrowthSkip(dimensions, walls0, visited, frontier0, k);
        }
      }
      GrowthDone(dimensions, walls[..], visited, start);
      RoutesReach(dimensions, walls[..], start, routes);
    }

    /**
     * Best-first search from `start` to `end` through open walls, ordered by
     * `distance` plus steps taken, followed by a walk back along the recorded
     * predecessor links. A returned path starts at `start`, ends at `end` and
     * moves one open step at a time.
     */
    method Solve(distance: (seq<nat>, seq<nat>) -> nat) returns (result: Result<seq<seq<nat>>, SolveError>)
      requires Valid()
      ensures result.Ok? ==> PathBetween(dimensions, walls[..], result.value, start, end)
      ensures start == end ==> result == Ok([start])
      ensures result == Err(NoPathFound) ==> !Reachable(dimensions, walls[..], start, end)
    {
      ghost var present, origin := walls[..], start;
      var goal := end;
      var open := new BinaryHeap.BinaryHashHeap<seq<nat>, nat>();
      var _ := open.Push(BinaryHeap.Keep, BinaryHeap.Item(start, distance(start, end), 0));

      var visited: set<seq<nat>> := {};
      var links: map<seq<nat>, seq<nat>> := map[];

      var next := open.Pop();
      assert next.Some? && next.value.key == start && open.contents == map[];
      assert open.contents.Keys + {next.value.key} == {start};
      assert Searching(dimensions, present, visited, {start}, links);
      while next.Some?
        invariant open.Valid() && fresh(open) && walls[..] == present
        invariant Searching(dimensions, present, visited,
                            open.contents.Keys + (if next.Some? then {next.value.key} else {}), links)
        invariant origin == goal ==> next.Some? && next.value.key == origin
        invariant goal !in visited
        invariant origin in visited + open.contents.Keys + (if next.Some? then {next.value.key} else {})
        invariant next.None? ==> open.contents == map[]
        decreases |AllCells(dimensions) - visited|, |open.items| + if next.Some? then 1 else 0
      {
        var node := next.value;
        if node.key == goal {
          result := FollowLinks(links);
          return;
        }
        visited, links, next := Advance(open, node, visited, links, distance);
      }
      assert open.contents.Keys + {} == {};
      SearchExhausted(dimensions, present, visited, links, origin, goal);
      result := Err(NoPathFound);
    }

    /**
     * One round of the search once `node`, not the end, has been taken out of
     * the open set: expand it, mark it visited and take out the next node.
     * Keeps the search's invariants, and leaves fewer unvisited cells, or as
     * many and fewer nodes in the open set.
     */
    method Advance(open: BinaryHeap.BinaryHashHeap<seq<nat>, nat>, node: BinaryHeap.Item<seq<nat>, nat>,
                   visited: set<seq<nat>>, links: map<seq<nat>, seq<nat>>, distance: (seq<nat>, seq<nat>) -> nat)
      returns (visited': set<seq<nat>>, links': map<seq<nat>, seq<nat>>,
               next: BinaryHeap.Option<BinaryHeap.Item<seq<nat>, nat>>)
      requires Valid() && open.Valid()
      requires Searching(dimensions, walls[..], visited, open.contents.Keys + {node.key}, links)
      modifies open
      ensures open.Valid() && visited' == visited + {node.key}
      ensures Searching(dimensions, walls[..], visited',
                        open.contents.Keys + (if next.Some? then {next.value.key} else {}), links')
      ensures old(open.contents).Keys + {node.key}
           <= visited' + open.contents.Keys + (if next.Some? then {next.value.key} else {})
      ensures next.None? ==> open.contents == map[]
      ensures || |AllCells(dimensions) - visited'| < |AllCells(dimensions) - visited|
              || (&& |AllCells(dimensions) - visited'| == |AllCells(dimensions) - visited|
                  && |open.items| + (if next.Some? then 1 else 0) <= old(|open.items|))
    {
      ghost var present, earlier := walls[..], open.contents.Keys;
      assert ValidCell(dimensions, node.key);
      if node.key in visited {
        VisitedNeighboursPending(dimensions, present, visited, node.key, earlier);
        RevisitKeeps(AllCells(dimensions), visited, node.key);
      } else {
        AllCellsExactly(dimensions, node.key);
        VisitShrinks(AllCells(dimensions), visited, node.key);
      }
      links' := Expand(open, node, visited, links, distance);
      FrontierAfterVisit(dimensions, present, visited, node.key, earlier, open.contents.Keys);
      visited' := visited + {node.key};
      ghost var before := open.contents;
      assert Searching(dimensions, present, visited', before.Keys, links');
      next := open.Pop();
      if next.Some? {
        RemoveThenAdd(before, next.value.key);
      }
      assert open.contents.Keys + (if next.Some? then {next.value.key} else {}) == before.Keys;
      assert walls[..] == present;
    }

    /**
     * Pushes every neighbour of `node` that is not visited and lies behind an
     * open wall, with one more step than `node` and `distance` to the end
     * added; records `node` as the predecessor of each neighbour whose push
     * took effect.
     */
    method Expand(open: BinaryHeap.BinaryHashHeap<seq<nat>, nat>, node: BinaryHeap.Item<seq<nat>, nat>,
                  visited: set<seq<nat>>, links: map<seq<nat>, seq<nat>>, distance: (seq<nat>, seq<nat>) -> nat)
      returns (links': map<seq<nat>, seq<nat>>)
      requires Valid() && open.Valid() && ValidCell(dimensions, node.key)
      requires forall k :: k in open.contents ==> ValidCell(dimensions, k)
      requires LinksOpen(dimensions, walls[..], links)
      modifies open
      ensures open.Valid()
      ensures forall k :: k in open.contents ==> ValidCell(dimensions, k)
      ensures old(open.contents).Keys <= open.contents.Keys
      ensures NeighboursPending(dimensions, walls[..], visited, node.key, old(open.contents).Keys) ==>
        |open.items| == old(|open.items|)
      ensures NeighboursPending(dimensions, walls[..], visited, node.key, open.contents.Keys)
      ensures LinksOpen(dimensions, walls[..], links')
    {
      ghost var present := walls[..];
      var neighbours := Neighbours(node.key);
      links' := links;
      for i := 0 to |neighbours|
        invariant open.Valid()
        invariant forall k :: k in open.contents ==> ValidCell(dimensions, k)
        invariant old(open.contents).Keys <= open.contents.Keys
        invariant NeighboursPending(dimensions, present, visited, node.key, old(open.contents).Keys) ==>
          |open.items| == old(|open.items|)
        invariant PendingUpTo(dimensions, present, visited, node.key, open.contents.Keys, i)
        invariant LinksOpen(dimensions, present, links')
      {
        ghost var keys := open.contents.Keys;
        var (wall, position) := neighbours[i];
        if position in visited {
          PendingStep(dimensions, present, visited, node.key, keys, keys, i);
          continue;
        }
        var closed := GetWall(wall);
        if closed {
          PendingStep(dimensions, present, visited, node.key, keys, keys, i);
          continue;
        }
        NeighbourStep(dimensions, present, node.key, i);
        var g := node.data + 1;
        var f := g + distance(position, end);
        var pushed := open.Push(BinaryHeap.DecreaseKey, BinaryHeap.Item(position, f, g));
        PendingStep(dimensions, present, visited, node.key, keys, open.contents.Keys, i);
        if !pushed {
          continue;
        }
        LinksExtend(dimensions, present, links', position, node.key);
        links' := links'[position := node.key];
      }
      AllNeighboursPending(dimensions, walls[..], visited, node.key, open.contents.Keys);
    }

    /**
     * Walks the predecessor links back from `end` to `start`, consuming each
     * link once, and returns the cells in order from `start` to `end`.
     */
    method FollowLinks(links: map<seq<nat>, seq<nat>>) returns (result: Result<seq<seq<nat>>, SolveError>)
      requires Valid() && LinksOpen(dimensions, walls[..], links)
      ensures result.Ok? ==> PathBetween(dimensions, walls[..], result.value, start, end)
      ensures start == end ==> result == Ok([start])
      ensures result != Err(NoPathFound)
    {
      ghost var present := walls[..];
      assert ValidShape(dimensions) && |present| == WallCount(dimensions);
      var remaining := links;
      var path: seq<seq<nat>> := [];
      var current := end;
      while current != start
        invariant ValidCell(dimensions, current)
        invariant LinksOpen(dimensions, present, remaining)
        invariant path == [] ==> current == end
        invariant start == end ==> path == []
        invariant path != [] ==> path[|path| - 1] == end && OpenStep(dimensions, present, current, path[0])
        invariant OpenPath(dimensions, present, path)
        decreases |remaining|
      {
        if current !in remaining {
          assert start != end;
          return Err(MissingLink);
        }
        var previous := remaining[current];
        OpenPathPrepend(dimensions, present, current, path);
        LinksRemove(dimensions, present, remaining, current);
        remaining := remaining - {current};
        path := [current] + path;
        current := previous;
      }
      OpenPathPrepend(dimensions, present, current, path);
      assert start == end ==> [current] + path == [start];
      path := [current] + path;
      assert PathBetween(dimensions, present, path, start, end);
      result := Ok(path);
    }
  }
}
