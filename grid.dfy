/**
 * The static occupancy grid, the Manhattan heuristic and the expansion of a
 * cell into its walkable orthogonal neighbours.
 */
module Grid {

  /** A cell as (row, column); coordinates are unbounded and never validated. */
  type Pos = (int, int)

  /** A maze is a non-empty list of rows, all as long as the first one;
      0 marks a walkable cell, anything else a blocked one. */
  predicate IsGrid(maze: seq<seq<int>>)
  {
    |maze| > 0 && forall r :: 0 <= r < |maze| ==> |maze[r]| == |maze[0]|
  }

  predicate InBounds(maze: seq<seq<int>>, p: Pos)
    requires IsGrid(maze)
  {
    0 <= p.0 < |maze| && 0 <= p.1 < |maze[0]|
  }

  /** In bounds and holding 0. */
  predicate Walkable(maze: seq<seq<int>>, p: Pos)
    requires IsGrid(maze)
  {
    InBounds(maze, p) && maze[p.0][p.1] == 0
  }

  /** Every in-bounds cell of the maze. */
  ghost function Cells(maze: seq<seq<int>>): (cells: set<Pos>)
    requires IsGrid(maze)
    ensures forall p :: Walkable(maze, p) ==> p in cells
  {
    var cells := set r, c | 0 <= r < |maze| && 0 <= c < |maze[0]| :: (r, c);
    assert forall p :: Walkable(maze, p) ==> p == (p.0, p.1);
    cells
  }

  function Abs(x: int): (r: nat)
    ensures r == x || r == -x
  {
    if x < 0 then -x else x
  }

  /** The heuristic: |row difference| + |column difference|. */
  function Manhattan(p: Pos, q: Pos): (d: nat)
    ensures d == 0 <==> p == q
  {
    Abs(p.0 - q.0) + Abs(p.1 - q.1)
  }

  /** One orthogonal step apart. */
  predicate Adjacent(p: Pos, q: Pos)
  {
    Manhattan(p, q) == 1
  }

  /** The moves tried, in this order: right, down, left, up. */
  const PossibleMoves: seq<(int, int)> := [(0, 1), (1, 0), (0, -1), (-1, 0)]

  function Step(p: Pos, move: (int, int)): Pos
  {
    (p.0 + move.0, p.1 + move.1)
  }

  /** The targets of `moves` from `p` that are walkable, in the order of `moves`. */
  function WalkableSteps(maze: seq<seq<int>>, p: Pos, moves: seq<(int, int)>): seq<Pos>
    requires IsGrid(maze)
  {
    if moves == [] then []
    else
      var next := Step(p, moves[|moves| - 1]);
      WalkableSteps(maze, p, moves[..|moves| - 1]) + (if Walkable(maze, next) then [next] else [])
  }

  /** A sequence of cells from `a` to `b`, each one step from the one before,
      every cell after the first walkable (the first is never checked). */
  predicate IsWalk(maze: seq<seq<int>>, a: Pos, b: Pos, w: seq<Pos>)
    requires IsGrid(maze)
  {
    |w| > 0 && w[0] == a && w[|w| - 1] == b &&
    (forall i :: 0 <= i < |w| - 1 ==> Adjacent(w[i], w[i + 1])) &&
    (forall i :: 0 < i < |w| ==> Walkable(maze, w[i]))
  }

  predicate NoDuplicates(w: seq<Pos>)
  {
    forall i, j :: 0 <= i < j < |w| ==> w[i] != w[j]
  }

  /** A walk that visits no cell twice. */
  predicate IsPath(maze: seq<seq<int>>, a: Pos, b: Pos, w: seq<Pos>)
    requires IsGrid(maze)
  {
    IsWalk(maze, a, b, w) && NoDuplicates(w)
  }

  /** `find_walkable_neighbors`: try each move in turn and keep the targets
      that are in bounds and hold 0. */
  method FindWalkableNeighbors(position: Pos, maze: seq<seq<int>>) returns (neighbors: seq<Pos>)
    requires IsGrid(maze)
    ensures neighbors == WalkableSteps(maze, position, PossibleMoves)
    ensures |neighbors| <= 4
    ensures forall q :: q in neighbors <==> Walkable(maze, q) && Adjacent(position, q)
  {
    var mazeHeight, mazeWidth := |maze|, |maze[0]|;
    neighbors := [];
    for i := 0 to |PossibleMoves|
      invariant neighbors == WalkableSteps(maze, position, PossibleMoves[..i])
    {
      var move := PossibleMoves[i];
      var next := Step(position, move);
      var isWithinBounds := 0 <= next.0 < mazeHeight && 0 <= next.1 < mazeWidth;
      var isWalkable := isWithinBounds && maze[next.0][next.1] == 0;
      assert PossibleMoves[..i + 1][..i] == PossibleMoves[..i];
      if isWalkable {
        neighbors := neighbors + [next];
      }
    }
    assert PossibleMoves[..4] == PossibleMoves;
    WalkableStepsMembers(maze, position, PossibleMoves);
    forall q ensures (exists m :: m in PossibleMoves && q == Step(position, m)) <==> Adjacent(position, q) {
      OneMoveIsAdjacent(position, q);
    }
  }

  /** What `WalkableSteps` keeps: exactly the walkable targets, at most one per move. */
  lemma {:induction false} WalkableStepsMembers(maze: seq<seq<int>>, p: Pos, moves: seq<(int, int)>)
    requires IsGrid(maze)
    ensures |WalkableSteps(maze, p, moves)| <= |moves|
    ensures forall q :: q in WalkableSteps(maze, p, moves) <==>
      Walkable(maze, q) && exists m :: m in moves && q == Step(p, m)
  {
    if moves != [] {
      var init := moves[..|moves| - 1];
      WalkableStepsMembers(maze, p, init);
      assert moves == init + [moves[|moves| - 1]];
    }
  }

  /** The four moves reach exactly the cells at Manhattan distance 1. */
  lemma {:induction false} OneMoveIsAdjacent(p: Pos, q: Pos)
    ensures (exists m :: m in PossibleMoves && q == Step(p, m)) <==> Adjacent(p, q)
  {
    if Adjacent(p, q) {
      var m := (q.0 - p.0, q.1 - p.1);
      assert m in PossibleMoves && q == Step(p, m);
    }
  }

  /** Manhattan distance is a metric: symmetric and obeying the triangle inequality. */
  lemma {:induction false} ManhattanMetric(a: Pos, b: Pos, c: Pos)
    ensures Manhattan(a, b) == Manhattan(b, a)
    ensures Manhattan(a, c) <= Manhattan(a, b) + Manhattan(b, c)
  {
  }

  /** One orthogonal step changes the distance to any fixed cell by exactly one. */
  lemma {:induction false} HeuristicStep(p: Pos, q: Pos, goal: Pos)
    requires Adjacent(p, q)
    ensures Manhattan(q, goal) == Manhattan(p, goal) + 1 || Manhattan(q, goal) == Manhattan(p, goal) - 1
  {
  }

  /** Admissibility: no walk from `a` to `b` has fewer steps than Manhattan(a, b). */
  lemma {:induction false} Admissible(maze: seq<seq<int>>, a: Pos, b: Pos, w: seq<Pos>)
    requires IsGrid(maze)
    requires IsWalk(maze, a, b, w)
    ensures Manhattan(a, b) <= |w| - 1
    decreases |w|
  {
    if |w| > 1 {
      var rest := w[1..];
      assert IsWalk(maze, w[1], b, rest);
      Admissible(maze, w[1], b, rest);
      ManhattanMetric(a, w[1], b);
    }
  }

  /** A set that holds `a` and every walkable neighbour of each of its cells
      holds every cell a walk from `a` can reach. */
  lemma {:induction false} WalksStayInClosedSet(maze: seq<seq<int>>, s: set<Pos>, a: Pos, b: Pos, w: seq<Pos>)
    requires IsGrid(maze)
    requires a in s
    requires forall c, q {:trigger Adjacent(c, q)} :: c in s && Walkable(maze, q) && Adjacent(c, q) ==> q in s
    requires IsWalk(maze, a, b, w)
    ensures b in s
    decreases |w|
  {
    if |w| > 1 {
      assert IsWalk(maze, w[1], b, w[1..]);
      WalksStayInClosedSet(maze, s, w[1], b, w[1..]);
    }
  }
}
