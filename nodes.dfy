/**
 * Search nodes and path reconstruction. The nodes of one search live in an
 * arena (a sequence); a node's back-link `previous` is the arena index of the
 * node it was expanded from, always smaller than its own index, so following
 * back-links always ends.
 */
module Nodes {
  import opened Wrappers
  import opened Grid

  /** `PathNode`: a cell, the cost paid to reach it, the estimate of what is
      left, and the node it was reached from. */
  datatype PathNode = PathNode(
    position: Pos,
    distanceFromStart: int,
    estimatedDistanceToGoal: int,
    previous: Option<nat>)
  {
    /** `total_distance`: cost so far plus estimate. */
    function TotalDistance(): int
    {
      distanceFromStart + estimatedDistanceToGoal
    }

    /** `__lt__`: nodes compare by total distance only. */
    predicate Less(other: PathNode)
    {
      TotalDistance() < other.TotalDistance()
    }
  }

  /** Every back-link points to an earlier node of the arena. */
  ghost predicate Linked(arena: seq<PathNode>)
  {
    forall i :: 0 <= i < |arena| && arena[i].previous.Some? ==> arena[i].previous.value < i
  }

  /** The positions of the back-link chain ending at node `i`, oldest first. */
  ghost function Chain(arena: seq<PathNode>, i: nat): seq<Pos>
    requires Linked(arena) && i < |arena|
    decreases i
  {
    match arena[i].previous
    case None => [arena[i].position]
    case Some(p) => Chain(arena, p) + [arena[i].position]
  }

  /** Number of back-links followed from node `i` to a node without one. */
  ghost function Depth(arena: seq<PathNode>, i: nat): nat
    requires Linked(arena) && i < |arena|
    decreases i
  {
    match arena[i].previous
    case None => 0
    case Some(p) => Depth(arena, p) + 1
  }

  /** The node without a back-link at the end of node `i`'s chain. */
  ghost function Root(arena: seq<PathNode>, i: nat): (r: nat)
    requires Linked(arena) && i < |arena|
    ensures r <= i && arena[r].previous.None?
    decreases i
  {
    match arena[i].previous
    case None => i
    case Some(p) => Root(arena, p)
  }

  /** `s` read backwards, as Python's `s[::-1]`. */
  function Reversed(s: seq<Pos>): (r: seq<Pos>)
  {
    if s == [] then [] else [s[|s| - 1]] + Reversed(s[..|s| - 1])
  }

  lemma {:induction false} ReversedAt(s: seq<Pos>, k: nat)
    requires k < |s|
    ensures |Reversed(s)| == |s| && Reversed(s)[k] == s[|s| - 1 - k]
  {
    if k > 0 {
      ReversedAt(s[..|s| - 1], k - 1);
    } else if |s| > 1 {
      ReversedAt(s[..|s| - 1], 0);
    }
  }

  /** The chain of node `i` is non-empty, begins at its root's position, ends
      at node `i`'s own position and has one cell per node on the chain. */
  lemma {:induction false} ChainShape(arena: seq<PathNode>, i: nat)
    requires Linked(arena) && i < |arena|
    ensures var c := Chain(arena, i);
      |c| == Depth(arena, i) + 1 && c[0] == arena[Root(arena, i)].position &&
      c[|c| - 1] == arena[i].position
    decreases i
  {
    match arena[i].previous
    case None =>
    case Some(p) => ChainShape(arena, p);
  }

  /** A position held by no node up to `p` is not on node `p`'s chain. */
  lemma {:induction false} NotInChain(arena: seq<PathNode>, p: nat, x: Pos)
    requires Linked(arena) && p < |arena|
    requires forall j :: 0 <= j <= p ==> arena[j].position != x
    ensures x !in Chain(arena, p)
    decreases p
  {
    match arena[p].previous
    case None =>
    case Some(q) => NotInChain(arena, q, x);
  }

  /** `build_path`: follow the back-links from `endNode`, collecting positions,
      then reverse the collected list. */
  method BuildPath(arena: seq<PathNode>, endNode: nat) returns (path: seq<Pos>)
    requires Linked(arena) && endNode < |arena|
    ensures path == Chain(arena, endNode)
  {
    var collected: seq<Pos> := [];
    var current: Option<nat> := Some(endNode);
    while current.Some?
      invariant current.Some? ==> current.value < |arena|
      invariant Chain(arena, endNode) ==
        (if current.Some? then Chain(arena, current.value) else []) + Reversed(collected)
      decreases if current.Some? then current.value + 1 else 0
    {
      var node := arena[current.value];
      assert Reversed(collected + [node.position]) == [node.position] + Reversed(collected) by {
        assert (collected + [node.position])[..|collected|] == collected;
      }
      collected := collected + [node.position];
      current := node.previous;
    }
    path := Reversed(collected);
  }
}
