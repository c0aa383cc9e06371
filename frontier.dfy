/**
 * The open set: a minimum-priority collection of (priority, node) entries,
 * where a node is an index into the search's node arena. Which of several
 * entries with the same minimum priority comes out first is left open.
 */
module Frontier {

  type Entry = (int, nat)

  /** Entry `k` has a priority no larger than any other entry's. */
  predicate IsMinimum(entries: seq<Entry>, k: int)
  {
    0 <= k < |entries| && forall j :: 0 <= j < |entries| ==> entries[k].0 <= entries[j].0
  }

  /** Some entry of a non-empty sequence has a priority no larger than any other. */
  lemma {:induction false} MinimumExists(entries: seq<Entry>)
    requires entries != []
    ensures exists k :: IsMinimum(entries, k)
  {
    if |entries| > 1 {
      var init := entries[..|entries| - 1];
      MinimumExists(init);
      var k :| IsMinimum(init, k);
      if entries[|entries| - 1].0 < entries[k].0 {
        assert IsMinimum(entries, |entries| - 1) by {
          forall j | 0 <= j < |entries| ensures entries[|entries| - 1].0 <= entries[j].0 {
            if j < |init| { assert entries[j] == init[j]; }
          }
        }
      } else {
        assert IsMinimum(entries, k) by {
          forall j | 0 <= j < |entries| ensures entries[k].0 <= entries[j].0 {
            if j < |init| { assert entries[j] == init[j]; }
          }
        }
      }
    } else {
      assert IsMinimum(entries, 0);
    }
  }

  /** `queue.PriorityQueue` as the searches use it: put, get and empty. */
  class PriorityQueue {
    var entries: seq<Entry>

    constructor ()
      ensures entries == []
    {
      entries := [];
    }

    method Put(priority: int, node: nat)
      modifies this
      ensures entries == old(entries) + [(priority, node)]
    {
      entries := entries + [(priority, node)];
    }

    method Empty() returns (b: bool)
      ensures b <==> entries == []
    {
      b := entries == [];
    }

    /** Removes and returns an entry of minimum priority. */
    method Get() returns (priority: int, node: nat)
      requires entries != []
      modifies this
      ensures (priority, node) in old(entries)
      ensures forall e :: e in old(entries) ==> priority <= e.0
      ensures multiset(entries) == multiset(old(entries)) - multiset{(priority, node)}
      ensures |entries| == |old(entries)| - 1
    {
      MinimumExists(entries);
      var k :| IsMinimum(entries, k);
      ghost var before := entries;
      priority, node := entries[k].0, entries[k].1;
      forall e | e in before ensures priority <= e.0 {
        var j :| 0 <= j < |before| && before[j] == e;
      }
      entries := entries[..k] + entries[k + 1..];
      calc {
        multiset(before);
        { assert before == before[..k] + [before[k]] + before[k + 1..]; }
        multiset(before[..k]) + multiset{before[k]} + multiset(before[k + 1..]);
      }
    }
  }
}
