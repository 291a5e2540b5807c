/**
 * The activity network shared by the validator and the scheduler: the activity record
 * of the global `activities` array, name lookup, and the predecessor graph.
 */
module Network {
  import opened Wrappers

  /** One collected activity: normalised name, integer duration and predecessor names in input order. */
  datatype Activity = Activity(name: string, duration: int, predecessors: seq<string>)

  predicate DistinctNames(acts: seq<Activity>) {
    forall i, j :: 0 <= i < j < |acts| ==> acts[i].name != acts[j].name
  }

  function Names(acts: seq<Activity>): set<string> {
    set a | a in acts :: a.name
  }

  lemma NameAt(acts: seq<Activity>, i: nat)
    requires i < |acts|
    ensures acts[i].name in Names(acts)
  {
    assert acts[i] in acts;
  }

  lemma NamesAppend(acts: seq<Activity>, a: Activity)
    ensures Names(acts + [a]) == Names(acts) + {a.name}
  {
    var both := acts + [a];
    forall n | n in Names(both) ensures n in Names(acts) + {a.name} {
      var b :| b in both && b.name == n;
      if b != a {
        assert b in acts;
      }
    }
    forall n | n in Names(acts) ensures n in Names(both) {
      var b :| b in acts && b.name == n;
      assert b in both;
    }
    assert a in both;
  }

  /**
   * Index of the first activity called `name`: `activities.find(act => act.name === name)`
   * and the lookup `activityMap[name]`; None when no activity has that name.
   */
  function IndexOf(acts: seq<Activity>, name: string): (r: Option<nat>)
    ensures r.Some? ==> r.value < |acts| && acts[r.value].name == name
    ensures r.Some? ==> forall k :: 0 <= k < r.value ==> acts[k].name != name
    ensures r.None? <==> name !in Names(acts)
  {
    if |acts| == 0 then None
    else if acts[0].name == name then Some(0)
    else
      assert Names(acts) == {acts[0].name} + Names(acts[1..]) by {
        assert acts == [acts[0]] + acts[1..];
      }
      match IndexOf(acts[1..], name)
      case None => None
      case Some(k) => Some(k + 1)
  }

  /** With distinct names, the lookup of an activity's own name finds that activity. */
  lemma IndexOfOwnName(acts: seq<Activity>, i: nat)
    requires DistinctNames(acts) && i < |acts|
    ensures IndexOf(acts, acts[i].name) == Some(i)
  {
    NameAt(acts, i);
  }

  /** Activity `j` is a predecessor of activity `i`: i lists j's name. */
  predicate Edge(acts: seq<Activity>, i: int, j: int) {
    0 <= i < |acts| && 0 <= j < |acts| && acts[j].name in acts[i].predecessors
  }

  /** A walk along predecessor edges, given as activity indices. */
  ghost predicate IsPath(acts: seq<Activity>, p: seq<nat>) {
    |p| >= 1 &&
    (forall k :: 0 <= k < |p| ==> p[k] < |acts|) &&
    (forall k :: 0 <= k < |p| - 1 ==> Edge(acts, p[k], p[k + 1]))
  }

  ghost predicate IsCycle(acts: seq<Activity>, p: seq<nat>) {
    IsPath(acts, p) && |p| >= 2 && p[0] == p[|p| - 1]
  }

  /** The predecessor graph has a cycle: some activity depends on itself through its predecessors. */
  ghost predicate HasCycle(acts: seq<Activity>) {
    exists p :: IsCycle(acts, p)
  }

  /**
   * A topological numbering of the network: ranks below the number of activities and
   * every predecessor ranked strictly lower than the activity listing it.
   */
  ghost predicate IsRanking(acts: seq<Activity>, rank: seq<nat>) {
    |rank| == |acts| &&
    (forall i :: 0 <= i < |acts| ==> rank[i] < |acts|) &&
    (forall i, j :: Edge(acts, i, j) ==> rank[j] < rank[i])
  }

  /** Along a walk of a ranked network the rank strictly decreases. */
  lemma {:induction false} RankDecreasesAlongPath(acts: seq<Activity>, rank: seq<nat>, p: seq<nat>)
    requires IsRanking(acts, rank) && IsPath(acts, p) && |p| >= 2
    ensures rank[p[|p| - 1]] < rank[p[0]]
  {
    assert Edge(acts, p[|p| - 2], p[|p| - 1]);
    if |p| > 2 {
      var q := p[..|p| - 1];
      assert IsPath(acts, q) by {
        forall k | 0 <= k < |q| - 1 ensures Edge(acts, q[k], q[k + 1]) {
          assert q[k] == p[k] && q[k + 1] == p[k + 1];
        }
      }
      RankDecreasesAlongPath(acts, rank, q);
    }
  }

  /** A network that has a ranking has no cycle. */
  lemma RankingExcludesCycle(acts: seq<Activity>, rank: seq<nat>)
    requires IsRanking(acts, rank)
    ensures !HasCycle(acts)
  {
    forall p | IsCycle(acts, p) ensures false {
      RankDecreasesAlongPath(acts, rank, p);
    }
  }
}
