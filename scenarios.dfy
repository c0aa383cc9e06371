/**
 * Consequences of the search contracts for particular inputs: a goal walled
 * in on all four sides, the five-by-five demonstration maze, and a start
 * that already is the goal.
 */
module Scenarios {
  import opened Wrappers
  import opened Grid
  import opened Search

  /** A walk into a goal with no walkable neighbour must step into it
      straight from its first cell, which is the only one never checked. */
  lemma {:induction false} OnlyFirstCellTouchesEnclosedGoal(maze: seq<seq<int>>, a: Pos, b: Pos, w: seq<Pos>)
    requires IsGrid(maze)
    requires IsWalk(maze, a, b, w) && |w| > 1
    requires forall q :: Walkable(maze, q) ==> !Adjacent(q, b)
    ensures |w| == 2 && Adjacent(a, b)
  {
    var k := |w| - 2;
    assert Adjacent(w[k], w[k + 1]);
  }

  /** A goal none of whose orthogonal neighbours is walkable cannot be
      reached, unless the (never checked) start is one of those neighbours. */
  lemma {:induction false} EnclosedGoalUnreachable(maze: seq<seq<int>>, start: Pos, goal: Pos)
    requires IsGrid(maze)
    requires start != goal && !Adjacent(start, goal)
    requires forall q :: Walkable(maze, q) ==> !Adjacent(q, goal)
    ensures forall w :: !IsWalk(maze, start, goal, w)
  {
    forall w | IsWalk(maze, start, goal, w) ensures false {
      OnlyFirstCellTouchesEnclosedGoal(maze, start, goal, w);
    }
  }

  /** Both searches give up on an enclosed goal. */
  method SearchEnclosedGoal(maze: seq<seq<int>>, start: Pos, goal: Pos)
    returns (greedy: Option<seq<Pos>>, astar: Option<seq<Pos>>)
    requires IsGrid(maze)
    requires start != goal && !Adjacent(start, goal)
    requires forall q :: Walkable(maze, q) ==> !Adjacent(q, goal)
    ensures greedy == None && astar == None
  {
    EnclosedGoalUnreachable(maze, start, goal);
    greedy := GreedyBestFirstSearch(maze, start, goal);
    astar := AStarSearch(maze, start, goal);
  }

  /** The demonstration maze: a wall down column 3 with a gap in the last row. */
  const DemoGrid: seq<seq<int>> := [
    [0, 0, 0, 1, 0],
    [0, 1, 0, 1, 0],
    [0, 0, 0, 1, 0],
    [0, 1, 0, 1, 0],
    [0, 0, 0, 0, 0]
  ]

  /** Down the first column, then along the last row. */
  lemma {:induction false} DemoGridHasWalk()
    ensures IsGrid(DemoGrid)
    ensures IsWalk(DemoGrid, (0, 0), (4, 4), [(0, 0), (1, 0), (2, 0), (3, 0), (4, 0), (4, 1), (4, 2), (4, 3), (4, 4)])
  {
    var w := [(0, 0), (1, 0), (2, 0), (3, 0), (4, 0), (4, 1), (4, 2), (4, 3), (4, 4)];
    assert IsGrid(DemoGrid);
    forall i | 0 <= i < |w| - 1 ensures Adjacent(w[i], w[i + 1]) {
    }
    forall i | 0 < i < |w| ensures Walkable(DemoGrid, w[i]) {
    }
  }

  /** On the demonstration maze from (0, 0) to (4, 4) both searches find a
      path, and neither path is shorter than the Manhattan bound of 8 steps. */
  method SearchDemoGrid() returns (greedy: Option<seq<Pos>>, astar: Option<seq<Pos>>)
    ensures greedy.Some? && IsPath(DemoGrid, (0, 0), (4, 4), greedy.value) && |greedy.value| >= 9
    ensures astar.Some? && IsPath(DemoGrid, (0, 0), (4, 4), astar.value) && |astar.value| >= 9
  {
    DemoGridHasWalk();
    greedy := GreedyBestFirstSearch(DemoGrid, (0, 0), (4, 4));
    Admissible(DemoGrid, (0, 0), (4, 4), greedy.value);
    astar := AStarSearch(DemoGrid, (0, 0), (4, 4));
    Admissible(DemoGrid, (0, 0), (4, 4), astar.value);
  }

  /** A start that is the goal is returned alone, wall or not. */
  method SearchStartIsGoal(maze: seq<seq<int>>, start: Pos)
    returns (greedy: Option<seq<Pos>>, astar: Option<seq<Pos>>)
    requires IsGrid(maze)
    ensures greedy == Some([start]) && astar == Some([start])
  {
    greedy := GreedyBestFirstSearch(maze, start, start);
    astar := AStarSearch(maze, start, start);
  }
}
