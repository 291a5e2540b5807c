/**
 * hasCyclicDependencies: a depth-first search along predecessor edges that keeps the
 * set of visited names and the set of names on the current recursion stack.
 */
module Cycles {
  import opened Network

  // ---- The search invariant, stated over plain values ----

  /** A stack of activity indices, each the predecessor of the one below it. */
  ghost predicate StackOk(acts: seq<Activity>, stack: seq<nat>) {
    (forall t :: 0 <= t < |stack| ==> stack[t] < |acts|) &&
    (forall t :: 0 <= t < |stack| - 1 ==> Edge(acts, stack[t], stack[t + 1]))
  }

  /** The names of the activities on a stack of indices. */
  ghost function StackNames(acts: seq<Activity>, stack: seq<nat>): set<string>
    requires forall t :: 0 <= t < |stack| ==> stack[t] < |acts|
  {
    if stack == [] then {} else StackNames(acts, stack[..|stack| - 1]) + {acts[stack[|stack| - 1]].name}
  }

  lemma {:induction false} InStackNames(acts: seq<Activity>, stack: seq<nat>, name: string)
    requires forall t :: 0 <= t < |stack| ==> stack[t] < |acts|
    ensures name in StackNames(acts, stack) <==> exists t :: 0 <= t < |stack| && acts[stack[t]].name == name
  {
    if stack != [] {
      var s' := stack[..|stack| - 1];
      InStackNames(acts, s', name);
      if name in StackNames(acts, s') {
        var t :| 0 <= t < |s'| && acts[s'[t]].name == name;
        assert stack[t] == s'[t];
      }
      if exists t :: 0 <= t < |stack| && acts[stack[t]].name == name {
        var t :| 0 <= t < |stack| && acts[stack[t]].name == name;
        if t < |s'| {
          assert s'[t] == stack[t];
        }
      }
    }
  }

  /** Activity `u` is fully explored: visited and no longer on the recursion stack. */
  ghost predicate Done(acts: seq<Activity>, visited: set<string>, onStack: set<string>, u: int) {
    0 <= u < |acts| && acts[u].name in visited && acts[u].name !in onStack
  }

  /**
   * The finishing order numbers exactly the explored activities, with numbers below
   * their count, and every predecessor of an explored activity is explored earlier.
   */
  ghost predicate RankOk(acts: seq<Activity>, visited: set<string>, onStack: set<string>, rank: map<nat, nat>) {
    (forall u: nat :: u in rank <==> Done(acts, visited, onStack, u)) &&
    (forall u :: u in rank ==> rank[u] < |rank|) &&
    (forall u, v :: u in rank && Edge(acts, u, v) ==> v in rank && rank[v] < rank[u])
  }

  ghost predicate SearchInv(acts: seq<Activity>, visited: set<string>, onStack: set<string>,
                            stack: seq<nat>, rank: map<nat, nat>) {
    DistinctNames(acts) && StackOk(acts, stack) &&
    onStack == StackNames(acts, stack) && onStack <= visited &&
    RankOk(acts, visited, onStack, rank)
  }

  /** Every activity named in `ps` is fully explored. */
  ghost predicate Explored(acts: seq<Activity>, visited: set<string>, onStack: set<string>, ps: seq<string>) {
    forall v :: 0 <= v < |acts| && acts[v].name in ps ==> Done(acts, visited, onStack, v)
  }

  /** Entering `dfs(activity)` for an unvisited activity keeps the invariant. */
  lemma Push(acts: seq<Activity>, visited: set<string>, onStack: set<string>,
             stack: seq<nat>, rank: map<nat, nat>, i: nat)
    requires SearchInv(acts, visited, onStack, stack, rank)
    requires i < |acts| && acts[i].name !in visited
    requires stack == [] || Edge(acts, stack[|stack| - 1], i)
    ensures SearchInv(acts, visited + {acts[i].name}, onStack + {acts[i].name}, stack + [i], rank)
    ensures i !in rank
  {
    var s := stack + [i];
    assert s[..|s| - 1] == stack;
    forall t | 0 <= t < |s| - 1 ensures Edge(acts, s[t], s[t + 1]) {
      if t < |stack| - 1 {
        assert s[t] == stack[t] && s[t + 1] == stack[t + 1];
      }
    }
    var name := acts[i].name;
    forall u: nat ensures Done(acts, visited, onStack, u) <==> Done(acts, visited + {name}, onStack + {name}, u) {
    }
  }

  /** A name already on the recursion stack closes a cycle through the stack's tail. */
  lemma CycleOnStack(acts: seq<Activity>, stack: seq<nat>, i: nat)
    requires DistinctNames(acts) && StackOk(acts, stack) && i < |acts|
    requires acts[i].name in StackNames(acts, stack)
    requires stack != [] && Edge(acts, stack[|stack| - 1], i)
    ensures HasCycle(acts)
  {
    InStackNames(acts, stack, acts[i].name);
    var t :| 0 <= t < |stack| && acts[stack[t]].name == acts[i].name;
    assert stack[t] == i;
    ClosePath(acts, stack, t, i);
    var p := stack[t..] + [i];
    assert p[0] == i && p[|p| - 1] == i;
    assert IsCycle(acts, p);
  }

  /** The stack from position `t` up, followed by an activity the top lists, is a walk. */
  lemma ClosePath(acts: seq<Activity>, stack: seq<nat>, t: nat, i: nat)
    requires StackOk(acts, stack) && t < |stack| && i < |acts|
    requires Edge(acts, stack[|stack| - 1], i)
    ensures IsPath(acts, stack[t..] + [i])
  {
    var p := stack[t..] + [i];
    assert forall k :: 0 <= k < |p| - 1 ==> p[k] == stack[t + k];
    forall k | 0 <= k < |p| - 1 ensures Edge(acts, p[k], p[k + 1]) {
      if k < |p| - 2 {
        assert p[k + 1] == stack[t + k + 1];
      }
    }
  }

  /** Leaving `dfs(activity)` after all predecessors are explored: pop it and number it. */
  lemma Pop(acts: seq<Activity>, visited: set<string>, onStack: set<string>,
            stack: seq<nat>, rank: map<nat, nat>, i: nat)
    requires SearchInv(acts, visited, onStack, stack, rank)
    requires stack != [] && stack[|stack| - 1] == i && i !in rank
    requires acts[i].name !in StackNames(acts, stack[..|stack| - 1])
    requires Explored(acts, visited, onStack, acts[i].predecessors)
    ensures SearchInv(acts, visited, onStack - {acts[i].name}, stack[..|stack| - 1], rank[i := |rank|])
    ensures Done(acts, visited, onStack - {acts[i].name}, i)
  {
    var name := acts[i].name;
    var s' := stack[..|stack| - 1];
    var onStack' := onStack - {name};
    var rank' := rank[i := |rank|];
    assert StackOk(acts, s') by {
      forall t | 0 <= t < |s'| - 1 ensures Edge(acts, s'[t], s'[t + 1]) {
        assert s'[t] == stack[t] && s'[t + 1] == stack[t + 1];
      }
    }
    forall u: nat ensures u in rank' <==> Done(acts, visited, onStack', u) {
      if u < |acts| && u != i {
        assert acts[u].name != name;
      }
    }
    forall u, v | u in rank' && Edge(acts, u, v) ensures v in rank' && rank'[v] < rank'[u] {
      if u == i {
        assert Done(acts, visited, onStack, v);
      }
    }
  }

  /** Exploring more keeps the activities already explored explored. */
  lemma ExploredGrows(acts: seq<Activity>, before: set<string>, visited: set<string>, onStack: set<string>, ps: seq<string>)
    requires Explored(acts, before, onStack, ps) && before <= visited
    ensures Explored(acts, visited, onStack, ps)
  {
  }

  /** The next predecessor name is explored once its activity (if any) is. */
  lemma ExploredNext(acts: seq<Activity>, visited: set<string>, onStack: set<string>, ps: seq<string>, k: nat)
    requires DistinctNames(acts) && k < |ps| && Explored(acts, visited, onStack, ps[..k])
    requires IndexOf(acts, ps[k]).Some? ==> Done(acts, visited, onStack, IndexOf(acts, ps[k]).value)
    ensures Explored(acts, visited, onStack, ps[..k + 1])
  {
    assert ps[..k + 1] == ps[..k] + [ps[k]];
    forall v | 0 <= v < |acts| && acts[v].name == ps[k] ensures Done(acts, visited, onStack, v) {
      IndexOfOwnName(acts, v);
    }
  }

  lemma ExploredAll(acts: seq<Activity>, visited: set<string>, onStack: set<string>, ps: seq<string>)
    requires Explored(acts, visited, onStack, ps[..|ps|])
    ensures Explored(acts, visited, onStack, ps)
  {
    assert ps[..|ps|] == ps;
  }

  // ---- The search ----

  /** The state shared by the nested `dfs` closure: its two sets, plus the ghost call stack and finishing order. */
  class CycleDetector {
    const acts: seq<Activity>
    var visited: set<string>
    var recursionStack: set<string>
    /** The activities whose `dfs` call is still running, outermost first. */
    ghost var stack: seq<nat>
    /** Finishing order of the fully explored activities. */
    ghost var rank: map<nat, nat>

    ghost predicate Valid()
      reads this
    {
      SearchInv(acts, visited, recursionStack, stack, rank)
    }

    constructor (acts: seq<Activity>)
      requires DistinctNames(acts)
      ensures Valid() && this.acts == acts
      ensures visited == {} && recursionStack == {} && stack == [] && rank == map[]
    {
      this.acts := acts;
      visited, recursionStack := {}, {};
      stack, rank := [], map[];
    }

    /** `dfs(activity)`: true when it meets a name already on the recursion stack. */
    method Dfs(i: nat) returns (found: bool)
      requires Valid() && i < |acts|
      requires stack == [] || Edge(acts, stack[|stack| - 1], i)
      modifies this
      ensures found ==> HasCycle(acts)
      ensures !found ==> Valid() && Done(acts, visited, recursionStack, i)
      ensures !found ==> stack == old(stack) && recursionStack == old(recursionStack)
      ensures !found ==> old(visited) <= visited
      decreases Names(acts) - visited, 0
    {
      var name := acts[i].name;
      if name in recursionStack {
        CycleOnStack(acts, stack, i);
        return true;
      }
      if name in visited {
        return false;
      }
      Enter(i);
      found := VisitPredecessors(i);
      if !found {
        Leave(i);
      }
    }

    /** Marks an unvisited activity visited and puts it on the recursion stack. */
    method Enter(i: nat)
      requires Valid() && i < |acts| && acts[i].name !in visited
      requires stack == [] || Edge(acts, stack[|stack| - 1], i)
      modifies this
      ensures Valid() && i !in rank
      ensures visited == old(visited) + {acts[i].name}
      ensures recursionStack == old(recursionStack) + {acts[i].name}
      ensures stack == old(stack) + [i] && rank == old(rank)
      ensures Names(acts) - visited < old(Names(acts) - visited)
    {
      var name := acts[i].name;
      NameAt(acts, i);
      Push(acts, visited, recursionStack, stack, rank, i);
      visited := visited + {name};
      recursionStack := recursionStack + {name};
      stack := stack + [i];
    }

    /** Takes a fully explored activity off the recursion stack and gives it the next finishing number. */
    method Leave(i: nat)
      requires Valid() && i < |acts| && stack != [] && stack[|stack| - 1] == i && i !in rank
      requires acts[i].name !in StackNames(acts, stack[..|stack| - 1])
      requires Explored(acts, visited, recursionStack, acts[i].predecessors)
      modifies this
      ensures Valid() && Done(acts, visited, recursionStack, i)
      ensures visited == old(visited) && stack == old(stack)[..|old(stack)| - 1]
      ensures recursionStack == old(recursionStack) - {acts[i].name}
    {
      Pop(acts, visited, recursionStack, stack, rank, i);
      recursionStack := recursionStack - {acts[i].name};
      stack := stack[..|stack| - 1];
      rank := rank[i := |rank|];
    }

    /** The loop of `dfs(activity)` over the activity's predecessors, with the activity on the stack. */
    method VisitPredecessors(i: nat) returns (found: bool)
      requires Valid() && i < |acts| && stack != [] && stack[|stack| - 1] == i
      requires acts[i].name in recursionStack && i !in rank
      modifies this
      ensures found ==> HasCycle(acts)
      ensures !found ==> Valid() && i !in rank
      ensures !found ==> Explored(acts, visited, recursionStack, acts[i].predecessors)
      ensures !found ==> stack == old(stack) && recursionStack == old(recursionStack)
      ensures !found ==> old(visited) <= visited
      decreases Names(acts) - visited, 1
    {
      var preds := acts[i].predecessors;
      var k := 0;
      while k < |preds|
        invariant 0 <= k <= |preds|
        invariant Valid()
        invariant stack == old(stack) && recursionStack == old(recursionStack)
        invariant old(visited) <= visited
        invariant i !in rank
        invariant Explored(acts, visited, recursionStack, preds[..k])
      {
        var p := IndexOf(acts, preds[k]);
        if p.Some? {
          assert Edge(acts, i, p.value);
          ghost var before := visited;
          var f := Dfs(p.value);
          if f {
            return true;
          }
          ExploredGrows(acts, before, visited, recursionStack, preds[..k]);
        }
        ExploredNext(acts, visited, recursionStack, preds, k);
        k := k + 1;
      }
      ExploredAll(acts, visited, recursionStack, preds);
      return false;
    }
  }

  /**
   * `hasCyclicDependencies()` over the collected activities: true exactly when the
   * predecessor graph has a cycle; otherwise the finishing order is a ranking.
   */
  method HasCyclicDependencies(acts: seq<Activity>) returns (cyclic: bool, ghost rank: seq<nat>)
    requires DistinctNames(acts)
    ensures cyclic <==> HasCycle(acts)
    ensures !cyclic ==> IsRanking(acts, rank)
  {
    var d := new CycleDetector(acts);
    for t := 0 to |acts|
      invariant d.Valid() && d.acts == acts
      invariant d.stack == [] && d.recursionStack == {}
      invariant VisitedBelow(acts, d.visited, t)
    {
      ghost var before := d.visited;
      var f := d.Dfs(t);
      if f {
        return true, [];
      }
      VisitedNext(acts, before, d.visited, t);
    }
    rank := FinishingOrder(acts, d.visited, d.rank);
    RankingExcludesCycle(acts, rank);
    return false, rank;
  }

  /** The outer loop of hasCyclicDependencies has started a search from every activity below `t`. */
  ghost predicate VisitedBelow(acts: seq<Activity>, visited: set<string>, t: nat) {
    forall u :: 0 <= u < t && u < |acts| ==> acts[u].name in visited
  }

  lemma VisitedNext(acts: seq<Activity>, before: set<string>, visited: set<string>, t: nat)
    requires VisitedBelow(acts, before, t) && before <= visited
    requires t < |acts| && acts[t].name in visited
    ensures VisitedBelow(acts, visited, t + 1)
  {
  }

  /** Once every activity is explored, the finishing numbers form a ranking. */
  ghost function FinishingOrder(acts: seq<Activity>, visited: set<string>, finish: map<nat, nat>): (rank: seq<nat>)
    requires RankOk(acts, visited, {}, finish)
    requires VisitedBelow(acts, visited, |acts|)
    ensures IsRanking(acts, rank)
  {
    assert forall u :: 0 <= u < |acts| ==> Done(acts, visited, {}, u);
    RankKeysBound(finish.Keys, |acts|);
    seq(|acts|, u requires 0 <= u < |acts| => finish[u])
  }

  /** A set of numbers below `n` has at most `n` elements. */
  lemma {:induction false} RankKeysBound(keys: set<nat>, n: nat)
    requires forall u :: u in keys ==> u < n
    ensures |keys| <= n
  {
    if n > 0 {
      var lower := keys - {n - 1};
      RankKeysBound(lower, n - 1);
      if n - 1 in keys {
        assert keys == lower + {n - 1};
      } else {
        assert keys == lower;
      }
    } else {
      assert keys == {};
    }
  }
}
