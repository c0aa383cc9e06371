/**
 * The two searches, `greedy_best_first_search` and `a_star_search`. They run
 * the same loop and differ only in the cost a new node records and in the
 * priority under which it enters the open set.
 */
module Search {
  import opened Wrappers
  import opened Grid
  import opened Nodes
  import opened Frontier

  datatype Strategy = Greedy | AStar

  /** Cost recorded for a node reached from a node of cost `parentCost`: A*
      adds one per step; Greedy leaves the default 0. */
  function StepCost(strategy: Strategy, parentCost: int): int
  {
    if strategy == AStar then parentCost + 1 else 0
  }

  /** Queue key: the estimate alone for Greedy, the total distance for A*. */
  function Priority(strategy: Strategy, node: PathNode): int
  {
    if strategy == Greedy then node.estimatedDistanceToGoal else node.TotalDistance()
  }

  /** Node `i > 0` was created while expanding its predecessor. */
  ghost predicate Reached(maze: seq<seq<int>>, goal: Pos, strategy: Strategy, arena: seq<PathNode>, i: nat)
    requires IsGrid(maze) && 0 < i < |arena|
  {
    var node := arena[i];
    node.previous.Some? && node.previous.value < i &&
    var parent := arena[node.previous.value];
    Adjacent(parent.position, node.position) && Walkable(maze, node.position) &&
    node.distanceFromStart == StepCost(strategy, parent.distanceFromStart) &&
    node.estimatedDistanceToGoal == Manhattan(node.position, goal)
  }

  /** The nodes a search has created: the start node first, every other node
      reached from an earlier one, and no position created twice. */
  ghost predicate ArenaInv(maze: seq<seq<int>>, start: Pos, goal: Pos, strategy: Strategy, arena: seq<PathNode>)
    requires IsGrid(maze)
  {
    Linked(arena) && |arena| > 0 &&
    arena[0] == PathNode(start, 0, Manhattan(start, goal), None) &&
    (forall i :: 0 < i < |arena| ==> Reached(maze, goal, strategy, arena, i)) &&
    (forall i, j :: 0 <= i < j < |arena| ==> arena[i].position != arena[j].position)
  }

  /** Every open-set entry names a created node under that node's key. */
  ghost predicate EntriesInv(strategy: Strategy, arena: seq<PathNode>, entries: seq<Entry>)
  {
    forall e {:trigger e in entries} :: e in entries ==> e.1 < |arena| && e.0 == Priority(strategy, arena[e.1])
  }

  /** The cells of the created nodes. */
  ghost function Positions(arena: seq<PathNode>): set<Pos>
  {
    if arena == [] then {} else Positions(arena[..|arena| - 1]) + {arena[|arena| - 1].position}
  }

  lemma {:induction false} PositionsAppend(arena: seq<PathNode>, node: PathNode)
    ensures Positions(arena + [node]) == Positions(arena) + {node.position}
  {
  }

  /** A cell is among the positions exactly when some created node holds it. */
  lemma {:induction false} PositionsExact(arena: seq<PathNode>)
    ensures forall i :: 0 <= i < |arena| ==> arena[i].position in Positions(arena)
    ensures forall x :: x in Positions(arena) ==> exists i :: 0 <= i < |arena| && arena[i].position == x
  {
    if arena != [] {
      var init := arena[..|arena| - 1];
      PositionsExact(init);
      forall x | x in Positions(arena) ensures exists i :: 0 <= i < |arena| && arena[i].position == x {
        if x in Positions(init) {
          var i :| 0 <= i < |init| && init[i].position == x;
          assert arena[i] == init[i];
        } else {
          assert arena[|arena| - 1].position == x;
        }
      }
      forall i | 0 <= i < |arena| ensures arena[i].position in Positions(arena) {
        if i < |init| { assert init[i] == arena[i]; }
      }
    }
  }

  lemma {:induction false} PositionOf(arena: seq<PathNode>, i: nat)
    requires i < |arena|
    ensures arena[i].position in Positions(arena)
  {
    PositionsExact(arena);
  }

  /** Once the open set is empty, every created node has been expanded. */
  lemma {:induction false} AllExpanded(strategy: Strategy, arena: seq<PathNode>, closed: set<Pos>)
    requires Accounted(strategy, arena, [], closed, -1)
    ensures Positions(arena) <= closed
  {
    PositionsExact(arena);
  }

  lemma {:induction false} UnvisitedShrinks(cells: set<Pos>, visited: set<Pos>, p: Pos)
    requires p in cells && p !in visited
    ensures |cells - (visited + {p})| == |cells - visited| - 1
  {
    assert cells - (visited + {p}) == (cells - visited) - {p};
  }

  /** Every created node is either expanded (its cell is in `closed`), the
      one being expanded (`cur`), or still waiting in the open set. */
  ghost predicate Accounted(strategy: Strategy, arena: seq<PathNode>, entries: seq<Entry>, closed: set<Pos>, cur: int)
  {
    forall i :: 0 <= i < |arena| ==>
      i == cur || arena[i].position in closed || (Priority(strategy, arena[i]), i) in entries
  }

  /** Taking entry `(key, cur)` out of the open set keeps every other created
      node accounted for. */
  lemma {:induction false} PopKeepsInvariants(strategy: Strategy, arena: seq<PathNode>, entries: seq<Entry>, remaining: seq<Entry>,
                           closed: set<Pos>, key: int, cur: nat)
    requires EntriesInv(strategy, arena, entries) && Accounted(strategy, arena, entries, closed, -1)
    requires multiset(remaining) == multiset(entries) - multiset{(key, cur)}
    ensures EntriesInv(strategy, arena, remaining) && Accounted(strategy, arena, remaining, closed, cur)
  {
    forall e | e in remaining ensures e in entries {
      assert e in multiset(remaining);
    }
    forall i | 0 <= i < |arena| && i != cur && arena[i].position !in closed
      ensures (Priority(strategy, arena[i]), i) in remaining
    {
      var e := (Priority(strategy, arena[i]), i);
      assert e in entries;
      assert multiset(remaining)[e] == multiset(entries)[e];
    }
  }

  /** Creating a node for an unvisited walkable neighbour of node `cur` and
      putting it in the open set keeps the invariants of the search. */
  lemma {:induction false} PushKeepsInvariants(maze: seq<seq<int>>, start: Pos, goal: Pos, strategy: Strategy,
                            arena: seq<PathNode>, entries: seq<Entry>, closed: set<Pos>, cur: nat, node: PathNode)
    requires IsGrid(maze) && ArenaInv(maze, start, goal, strategy, arena)
    requires EntriesInv(strategy, arena, entries) && Accounted(strategy, arena, entries, closed, cur)
    requires cur < |arena|
    requires Walkable(maze, node.position) && Adjacent(arena[cur].position, node.position)
    requires node.position !in Positions(arena)
    requires node == PathNode(node.position, StepCost(strategy, arena[cur].distanceFromStart),
                              Manhattan(node.position, goal), Some(cur))
    ensures ArenaInv(maze, start, goal, strategy, arena + [node])
    ensures EntriesInv(strategy, arena + [node], entries + [(Priority(strategy, node), |arena|)])
    ensures Accounted(strategy, arena + [node], entries + [(Priority(strategy, node), |arena|)], closed, cur)
  {
    var longer := arena + [node];
    var n := |arena|;
    var key := Priority(strategy, node);
    var more := entries + [(key, n)];
    PositionsExact(arena);
    forall i | 0 < i < |longer| ensures Reached(maze, goal, strategy, longer, i) {
      if i < n {
        assert Reached(maze, goal, strategy, arena, i);
      }
    }
    forall e | e in more ensures e.1 < |longer| && e.0 == Priority(strategy, longer[e.1]) {
      if e in entries {
        assert longer[e.1] == arena[e.1];
      } else {
        assert e == (key, n);
      }
    }
    forall i | 0 <= i < |longer| && i != cur && longer[i].position !in closed
      ensures (Priority(strategy, longer[i]), i) in more
    {
      if i < n {
        assert longer[i] == arena[i];
        assert (Priority(strategy, arena[i]), i) in entries;
      } else {
        assert more[|entries|] == (Priority(strategy, longer[i]), i);
      }
    }
  }

  /** The back-link chain of every created node is a path from `start` to
      that node's cell. */
  lemma {:induction false} ChainIsPath(maze: seq<seq<int>>, start: Pos, goal: Pos, strategy: Strategy, arena: seq<PathNode>, i: nat)
    requires IsGrid(maze) && ArenaInv(maze, start, goal, strategy, arena) && i < |arena|
    ensures IsPath(maze, start, arena[i].position, Chain(arena, i))
    decreases i
  {
    if i > 0 {
      assert Reached(maze, goal, strategy, arena, i);
      var p := arena[i].previous.value;
      ChainIsPath(maze, start, goal, strategy, arena, p);
      NotInChain(arena, p, arena[i].position);
      ChainShape(arena, p);
    }
  }

  /** What a node's cost and key mean: under A* the cost is the number of
      back-links to the start node and the key adds the distance to the goal;
      under Greedy the cost stays 0 and the key is that distance alone. In both
      the key equals `total_distance`, the quantity `__lt__` compares. */
  lemma {:induction false} CostIsDepth(maze: seq<seq<int>>, start: Pos, goal: Pos, strategy: Strategy, arena: seq<PathNode>, i: nat)
    requires IsGrid(maze) && ArenaInv(maze, start, goal, strategy, arena) && i < |arena|
    ensures arena[i].distanceFromStart == if strategy == AStar then Depth(arena, i) else 0
    ensures arena[i].distanceFromStart == if strategy == AStar then |Chain(arena, i)| - 1 else 0
    ensures Priority(strategy, arena[i]) == arena[i].distanceFromStart + Manhattan(arena[i].position, goal)
    ensures Priority(strategy, arena[i]) == arena[i].TotalDistance()
    decreases i
  {
    ChainShape(arena, i);
    if i > 0 {
      assert Reached(maze, goal, strategy, arena, i);
      CostIsDepth(maze, start, goal, strategy, arena, arena[i].previous.value);
    }
  }

  /** On the nodes of a search, `__lt__` orders exactly as the queue key
      does, so two entries with equal keys are left unordered by the
      comparison that would otherwise break the tie. */
  lemma {:induction false} LessMatchesPriority(maze: seq<seq<int>>, start: Pos, goal: Pos, strategy: Strategy,
                                               arena: seq<PathNode>, i: nat, j: nat)
    requires IsGrid(maze) && ArenaInv(maze, start, goal, strategy, arena) && i < |arena| && j < |arena|
    ensures arena[i].Less(arena[j]) <==> Priority(strategy, arena[i]) < Priority(strategy, arena[j])
    ensures Priority(strategy, arena[i]) == Priority(strategy, arena[j]) ==>
              !arena[i].Less(arena[j]) && !arena[j].Less(arena[i])
  {
    CostIsDepth(maze, start, goal, strategy, arena, i);
    CostIsDepth(maze, start, goal, strategy, arena, j);
  }

  /** Moving the fully expanded node `cur` into `closed` keeps every node
      accounted for with no node in progress, and keeps `closed` closed
      under walkable neighbours within `visited`. */
  lemma {:induction false} CloseKeepsInvariants(maze: seq<seq<int>>, strategy: Strategy, arena: seq<PathNode>,
                                                visited: set<Pos>, entries: seq<Entry>, closed: set<Pos>, cur: nat)
    requires IsGrid(maze) && cur < |arena| && arena[cur].position in visited
    requires Accounted(strategy, arena, entries, closed, cur)
    requires forall c, q {:trigger Adjacent(c, q)} :: c in closed && Walkable(maze, q) && Adjacent(c, q) ==> q in visited
    requires forall q :: Walkable(maze, q) && Adjacent(arena[cur].position, q) ==> q in visited
    ensures Accounted(strategy, arena, entries, closed + {arena[cur].position}, -1)
    ensures forall c, q {:trigger Adjacent(c, q)} ::
              c in closed + {arena[cur].position} && Walkable(maze, q) && Adjacent(c, q) ==> q in visited
  {
  }

  /** The loop shared by both searches. */
  method Search(grid: seq<seq<int>>, start: Pos, goal: Pos, strategy: Strategy) returns (result: Option<seq<Pos>>)
    requires IsGrid(grid)
    ensures result.Some? ==> IsPath(grid, start, goal, result.value)
    ensures result.None? ==> forall w :: !IsWalk(grid, start, goal, w)
    ensures start == goal ==> result == Some([start])
  {
    var startNode := PathNode(start, 0, 0, None);
    startNode := startNode.(estimatedDistanceToGoal := Manhattan(start, goal));

    var openSet := new PriorityQueue();
    openSet.Put(Priority(strategy, startNode), 0);
    var arena := [startNode];
    var visited := {start};
    // positions of the nodes already taken out of the open set and expanded
    ghost var closed: set<Pos> := {};

    var empty := openSet.Empty();
    while !empty
      invariant ArenaInv(grid, start, goal, strategy, arena)
      invariant visited == Positions(arena)
      invariant EntriesInv(strategy, arena, openSet.entries)
      invariant Accounted(strategy, arena, openSet.entries, closed, -1)
      invariant closed <= visited && goal !in closed
      invariant forall c, q {:trigger Adjacent(c, q)} :: c in closed && Walkable(grid, q) && Adjacent(c, q) ==> q in visited
      invariant start == goal ==> openSet.entries == [(Priority(strategy, startNode), 0)]
      invariant empty <==> openSet.entries == []
      decreases |Cells(grid) - visited| + |openSet.entries|
    {
      ghost var entries := openSet.entries;
      var key, cur := openSet.Get();
      PopKeepsInvariants(strategy, arena, entries, openSet.entries, closed, key, cur);
      var current := arena[cur];

      if current.position == goal {
        var path := BuildPath(arena, cur);
        ChainIsPath(grid, start, goal, strategy, arena, cur);
        return Some(path);
      }

      var neighbors := FindWalkableNeighbors(current.position, grid);
      arena, visited := EnqueueUnvisited(grid, start, goal, strategy, arena, visited, openSet, cur, neighbors, closed);
      PositionOf(arena, cur);
      CloseKeepsInvariants(grid, strategy, arena, visited, openSet.entries, closed, cur);
      closed := closed + {current.position};
      empty := openSet.Empty();
    }

    AllExpanded(strategy, arena, closed);
    WalksStayInClosedSetEverywhere(grid, closed, start, goal);
    return None;
  }

  /** What the search knows about its state between two expansions: the
      arena invariant, `visited` as the set of created positions, and every
      created node other than `cur` either closed or queued. */
  ghost predicate SearchState(maze: seq<seq<int>>, start: Pos, goal: Pos, strategy: Strategy, arena: seq<PathNode>,
                           visited: set<Pos>, entries: seq<Entry>, closed: set<Pos>, cur: nat)
  {
    IsGrid(maze) && ArenaInv(maze, start, goal, strategy, arena) && visited == Positions(arena) &&
    EntriesInv(strategy, arena, entries) && Accounted(strategy, arena, entries, closed, cur) &&
    cur < |arena|
  }

  /** Creating one node for an unvisited walkable neighbour of `cur` and
      queueing it keeps `SearchState`, and trades one unvisited cell for one
      queue entry, so the termination measure stays put. */
  lemma {:induction false} EnqueueKeepsSearchState(maze: seq<seq<int>>, start: Pos, goal: Pos, strategy: Strategy,
                                                arena: seq<PathNode>, visited: set<Pos>, entries: seq<Entry>,
                                                closed: set<Pos>, cur: nat, node: PathNode)
    requires IsGrid(maze) && SearchState(maze, start, goal, strategy, arena, visited, entries, closed, cur)
    requires Walkable(maze, node.position) && Adjacent(arena[cur].position, node.position)
    requires node.position !in visited
    requires node == PathNode(node.position, StepCost(strategy, arena[cur].distanceFromStart),
                              Manhattan(node.position, goal), Some(cur))
    ensures SearchState(maze, start, goal, strategy, arena + [node], visited + {node.position},
                     entries + [(Priority(strategy, node), |arena|)], closed, cur)
    ensures (arena + [node])[cur] == arena[cur]
    ensures |Cells(maze) - (visited + {node.position})| + |entries + [(Priority(strategy, node), |arena|)]|
            == |Cells(maze) - visited| + |entries|
  {
    UnvisitedShrinks(Cells(maze), visited, node.position);
    PositionsAppend(arena, node);
    PushKeepsInvariants(maze, start, goal, strategy, arena, entries, closed, cur, node);
  }

  /** How one expansion extends the arena and the open set: the old nodes and
      entries stay as they were; every new node is linked to `cur` and holds
      one of `ns`; and the new entries are the new nodes, in creation order,
      each under its key. */
  ghost predicate GrewBy(strategy: Strategy, arena: seq<PathNode>, arena': seq<PathNode>,
                         entries: seq<Entry>, entries': seq<Entry>, cur: nat, ns: seq<Pos>)
  {
    |arena| <= |arena'| && arena'[..|arena|] == arena &&
    (forall i {:trigger arena'[i]} :: |arena| <= i < |arena'| ==>
       arena'[i].previous == Some(cur) && arena'[i].position in ns) &&
    |entries'| == |entries| + |arena'| - |arena| && entries'[..|entries|] == entries &&
    (forall i {:trigger arena'[i]} :: |arena| <= i < |arena'| ==>
       entries'[|entries| + i - |arena|] == (Priority(strategy, arena'[i]), i))
  }

  /** Handling one more neighbour `n` (skipping it, or creating and queueing
      its node) extends `GrewBy` from `ns` to `ns + [n]`. */
  lemma {:induction false} GrewByStep(strategy: Strategy, arena: seq<PathNode>, a1: seq<PathNode>, a2: seq<PathNode>,
                                      entries: seq<Entry>, e1: seq<Entry>, e2: seq<Entry>,
                                      cur: nat, ns: seq<Pos>, n: Pos, node: PathNode)
    requires GrewBy(strategy, arena, a1, entries, e1, cur, ns)
    requires (a2 == a1 && e2 == e1) ||
             (node.previous == Some(cur) && node.position == n &&
              a2 == a1 + [node] && e2 == e1 + [(Priority(strategy, node), |a1|)])
    ensures GrewBy(strategy, arena, a2, entries, e2, cur, ns + [n])
  {
    assert a2[..|a1|] == a1 && e2[..|e1|] == e1;
    assert a2[..|arena|] == a1[..|arena|];
    assert e2[..|entries|] == e1[..|entries|];
  }

  /** The first `j + 1` neighbours are the first `j` and then neighbour `j`;
      all of them are the whole list. */
  lemma {:induction false} PrefixGrows(ns: seq<Pos>, j: nat)
    requires j <= |ns|
    ensures j < |ns| ==> ns[..j + 1] == ns[..j] + [ns[j]]
    ensures j == |ns| ==> ns[..j] == ns
  {
    if j < |ns| {
      assert ns[..j + 1] == ns[..j] + [ns[j]];
    }
  }

  /** Marking one more neighbour `n` visited extends the visited set by the
      cells of `ns + [n]`. */
  lemma {:induction false} VisitedGrows(visited: set<Pos>, ns: seq<Pos>, n: Pos)
    ensures visited + (set q | q in ns) + {n} == visited + set q | q in ns + [n]
  {
  }

  /** The inner loop of both searches: for each neighbour of node `cur` not
      yet visited, create a node linked back to `cur`, record its cost and
      estimate, put it in the open set and mark its cell visited. */
  method EnqueueUnvisited(grid: seq<seq<int>>, ghost start: Pos, goal: Pos, strategy: Strategy,
                          arena: seq<PathNode>, visited: set<Pos>, openSet: PriorityQueue,
                          cur: nat, neighbors: seq<Pos>, ghost closed: set<Pos>)
    returns (arena': seq<PathNode>, visited': set<Pos>)
    requires IsGrid(grid) && SearchState(grid, start, goal, strategy, arena, visited, openSet.entries, closed, cur)
    requires forall q :: q in neighbors ==> Walkable(grid, q) && Adjacent(arena[cur].position, q)
    modifies openSet
    ensures SearchState(grid, start, goal, strategy, arena', visited', openSet.entries, closed, cur)
    ensures arena'[cur] == arena[cur]
    ensures visited' == visited + set q | q in neighbors
    ensures |arena| <= |arena'| && arena'[..|arena|] == arena
    ensures forall i {:trigger arena'[i]} :: |arena| <= i < |arena'| ==>
              arena'[i].previous == Some(cur) && arena'[i].position in neighbors
    ensures |openSet.entries| == |old(openSet.entries)| + |arena'| - |arena|
    ensures openSet.entries[..|old(openSet.entries)|] == old(openSet.entries)
    ensures forall i {:trigger arena'[i]} :: |arena| <= i < |arena'| ==>
              openSet.entries[|old(openSet.entries)| + i - |arena|] == (Priority(strategy, arena'[i]), i)
    ensures |Cells(grid) - visited'| + |openSet.entries| == |Cells(grid) - visited| + |old(openSet.entries)|
  {
    arena', visited' := arena, visited;
    for j := 0 to |neighbors|
      invariant SearchState(grid, start, goal, strategy, arena', visited', openSet.entries, closed, cur)
      invariant arena'[cur] == arena[cur]
      invariant visited' == visited + set q | q in neighbors[..j]
      invariant GrewBy(strategy, arena, arena', old(openSet.entries), openSet.entries, cur, neighbors[..j])
      invariant |Cells(grid) - visited'| + |openSet.entries| == |Cells(grid) - visited| + |old(openSet.entries)|
    {
      ghost var (a1, e1) := (arena', openSet.entries);
      ghost var node := PathNode(neighbors[j], StepCost(strategy, arena'[cur].distanceFromStart),
                                 Manhattan(neighbors[j], goal), Some(cur));
      arena', visited' := EnqueueIfUnvisited(grid, start, goal, strategy, arena', visited', openSet, cur, neighbors[j], closed);
      GrewByStep(strategy, arena, a1, arena', old(openSet.entries), e1, openSet.entries, cur, neighbors[..j], neighbors[j], node);
      PrefixGrows(neighbors, j);
      VisitedGrows(visited, neighbors[..j], neighbors[j]);
    }
    PrefixGrows(neighbors, |neighbors|);
  }

  /** One pass of the inner loop: a neighbour not yet visited gets a node,
      an open-set entry and a mark in `visited`; a visited one changes
      nothing. */
  method EnqueueIfUnvisited(grid: seq<seq<int>>, ghost start: Pos, goal: Pos, strategy: Strategy,
                            arena: seq<PathNode>, visited: set<Pos>, openSet: PriorityQueue,
                            cur: nat, neighborPos: Pos, ghost closed: set<Pos>)
    returns (arena': seq<PathNode>, visited': set<Pos>)
    requires SearchState(grid, start, goal, strategy, arena, visited, openSet.entries, closed, cur)
    requires Walkable(grid, neighborPos) && Adjacent(arena[cur].position, neighborPos)
    modifies openSet
    ensures SearchState(grid, start, goal, strategy, arena', visited', openSet.entries, closed, cur)
    ensures arena'[cur] == arena[cur]
    ensures visited' == visited + {neighborPos}
    ensures neighborPos in visited ==> arena' == arena && openSet.entries == old(openSet.entries)
    ensures neighborPos !in visited ==>
              var node := PathNode(neighborPos, StepCost(strategy, arena[cur].distanceFromStart),
                                   Manhattan(neighborPos, goal), Some(cur));
              arena' == arena + [node] && openSet.entries == old(openSet.entries) + [(Priority(strategy, node), |arena|)]
    ensures |Cells(grid) - visited'| + |openSet.entries| == |Cells(grid) - visited| + |old(openSet.entries)|
  {
    arena', visited' := arena, visited;
    if neighborPos !in visited {
      var neighbor := PathNode(neighborPos, 0, 0, Some(cur));
      neighbor := neighbor.(distanceFromStart := StepCost(strategy, arena[cur].distanceFromStart));
      neighbor := neighbor.(estimatedDistanceToGoal := Manhattan(neighborPos, goal));
      EnqueueKeepsSearchState(grid, start, goal, strategy, arena, visited, openSet.entries, closed, cur, neighbor);
      arena' := arena + [neighbor];
      openSet.Put(Priority(strategy, neighbor), |arena|);
      visited' := visited + {neighborPos};
    }
  }

  lemma {:induction false} WalksStayInClosedSetEverywhere(maze: seq<seq<int>>, s: set<Pos>, a: Pos, b: Pos)
    requires IsGrid(maze)
    requires a in s && b !in s
    requires forall c, q {:trigger Adjacent(c, q)} :: c in s && Walkable(maze, q) && Adjacent(c, q) ==> q in s
    ensures forall w :: !IsWalk(maze, a, b, w)
  {
    forall w | IsWalk(maze, a, b, w) ensures false {
      WalksStayInClosedSet(maze, s, a, b, w);
    }
  }

  /** `greedy_best_first_search`: keyed by the distance estimate alone. */
  method GreedyBestFirstSearch(grid: seq<seq<int>>, start: Pos, goal: Pos) returns (result: Option<seq<Pos>>)
    requires IsGrid(grid)
    ensures result.Some? ==> IsPath(grid, start, goal, result.value)
    ensures result.None? <==> forall w :: !IsWalk(grid, start, goal, w)
    ensures start == goal ==> result == Some([start])
  {
    result := Search(grid, start, goal, Greedy);
  }

  /** `a_star_search`: keyed by cost so far plus distance estimate. */
  method AStarSearch(grid: seq<seq<int>>, start: Pos, goal: Pos) returns (result: Option<seq<Pos>>)
    requires IsGrid(grid)
    ensures result.Some? ==> IsPath(grid, start, goal, result.value)
    ensures result.None? <==> forall w :: !IsWalk(grid, start, goal, w)
    ensures start == goal ==> result == Some([start])
  {
    result := Search(grid, start, goal, AStar);
  }
}
