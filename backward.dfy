/**
 * The project duration and the backward pass of calculatePERT: activities without a
 * successor finish late at the project duration; every other activity gets its late
 * finish once all its successors have one, as the least of their late starts.
 */
module Backward {
  import opened Network
  import opened Forward

  /** `Math.max(...xs)` of a non-empty list. */
  function MaxOf(xs: seq<int>): (r: int)
    requires |xs| > 0
    ensures forall k :: 0 <= k < |xs| ==> xs[k] <= r
    ensures exists k :: 0 <= k < |xs| && xs[k] == r
  {
    if |xs| == 1 then xs[0]
    else
      var m := MaxOf(xs[..|xs| - 1]);
      assert forall k :: 0 <= k < |xs| - 1 ==> xs[..|xs| - 1][k] == xs[k];
      if xs[|xs| - 1] > m then xs[|xs| - 1] else m
  }

  /** `Math.min(...xs)` of a non-empty list. */
  function MinOf(xs: seq<int>): (r: int)
    requires |xs| > 0
    ensures r in xs && forall x :: x in xs ==> r <= x
  {
    if |xs| == 1 then xs[0]
    else
      var m := MinOf(xs[..|xs| - 1]);
      assert forall x :: x in xs ==> x in xs[..|xs| - 1] || x == xs[|xs| - 1];
      if xs[|xs| - 1] < m then xs[|xs| - 1] else m
  }

  /** The late-finish value meaning "not computed yet". */
  const Unset: int := -1

  /** A late start as the source computes it: a number, or `Infinity` for a successor without TL. */
  datatype Bound = Finite(value: int) | Infinity

  /** `activities.filter(a => a.predecessors.includes(name))`, as indices below `m`, in input order. */
  function SuccessorsOf(acts: seq<Activity>, name: string, m: nat): (r: seq<nat>)
    requires m <= |acts|
    ensures forall k :: 0 <= k < |r| ==> r[k] < m
    ensures forall s: nat :: s in r <==> s < m && name in acts[s].predecessors
  {
    if m == 0 then []
    else SuccessorsOf(acts, name, m - 1) + (if name in acts[m - 1].predecessors then [m - 1] else [])
  }

  /** The successors of activity `i`: the activities that list it. */
  function Successors(acts: seq<Activity>, i: nat): (r: seq<nat>)
    requires i < |acts|
    ensures forall k :: 0 <= k < |r| ==> r[k] < |acts|
    ensures forall s: nat :: s in r <==> Edge(acts, s, i)
  {
    SuccessorsOf(acts, acts[i].name, |acts|)
  }

  /** Nobody lists activity `i`. */
  predicate Sink(acts: seq<Activity>, i: int) {
    forall s :: 0 <= s < |acts| ==> !Edge(acts, s, i)
  }

  /** `succAct.tl !== -1 ? succAct.tl - s.duration : Infinity` for each successor. */
  function LateStarts(acts: seq<Activity>, tl: seq<int>, ss: seq<nat>): (r: seq<Bound>)
    requires |tl| == |acts| && forall k :: 0 <= k < |ss| ==> ss[k] < |acts|
    ensures |r| == |ss|
    ensures forall k :: 0 <= k < |ss| ==>
      r[k] == if tl[ss[k]] != Unset then Finite(tl[ss[k]] - acts[ss[k]].duration) else Infinity
    ensures Infinity in r <==> exists k :: 0 <= k < |ss| && tl[ss[k]] == Unset
  {
    seq(|ss|, k requires 0 <= k < |ss| => if tl[ss[k]] != Unset then Finite(tl[ss[k]] - acts[ss[k]].duration) else Infinity)
  }

  function Values(bs: seq<Bound>): (r: seq<int>)
    requires Infinity !in bs
    ensures |r| == |bs| && forall k :: 0 <= k < |bs| ==> bs[k].Finite? && r[k] == bs[k].value
  {
    assert forall k :: 0 <= k < |bs| ==> bs[k] in bs;
    seq(|bs|, k requires 0 <= k < |bs| => bs[k].value)
  }

  // ---- The backward invariant ----

  /** Activity `i` finishes late at the least late start of its successors, each of which has a late finish. */
  ghost predicate LateOk(acts: seq<Activity>, tl: seq<int>, i: int)
    requires |tl| == |acts|
  {
    (forall s :: Edge(acts, s, i) ==> tl[s] != Unset && tl[i] <= tl[s] - acts[s].duration) &&
    (exists s :: Edge(acts, s, i) && tl[i] == tl[s] - acts[s].duration)
  }

  /** Sinks finish late at the project duration; every other activity with a late finish satisfies LateOk. */
  ghost predicate BackInv(acts: seq<Activity>, pd: int, tl: seq<int>) {
    |tl| == |acts| && SinksAt(acts, pd, tl) && LateAll(acts, tl)
  }

  ghost predicate SinksAt(acts: seq<Activity>, pd: int, tl: seq<int>)
    requires |tl| == |acts|
  {
    forall i :: 0 <= i < |acts| && Sink(acts, i) ==> tl[i] == pd
  }

  ghost predicate LateAll(acts: seq<Activity>, tl: seq<int>)
    requires |tl| == |acts|
  {
    forall i :: 0 <= i < |acts| && !Sink(acts, i) && tl[i] != Unset ==> LateOk(acts, tl, i)
  }

  /** An activity still without late finish that has a successor without one too. */
  ghost predicate Stuck(acts: seq<Activity>, tl: seq<int>, i: int)
    requires |tl| == |acts| && 0 <= i < |acts|
  {
    tl[i] == Unset && !Sink(acts, i) ==> exists s :: Edge(acts, s, i) && tl[s] == Unset
  }

  /** The forward pass has settled, durations are non-negative and `pd` is the largest early finish. */
  ghost predicate Scheduled(acts: seq<Activity>, te: seq<int>, tf: seq<int>, pd: int) {
    DistinctNames(acts) && ForwardFixpoint(acts, te, tf) &&
    (forall i :: 0 <= i < |acts| ==> acts[i].duration >= 0 && tf[i] <= pd) &&
    (exists i :: 0 <= i < |acts| && tf[i] == pd)
  }

  /** Every late finish lies between the activity's early finish and the project duration. */
  ghost predicate Bounded(acts: seq<Activity>, tf: seq<int>, pd: int, tl: seq<int>)
    requires |tf| == |acts| && |tl| == |acts|
  {
    forall i :: 0 <= i < |acts| && tl[i] != Unset ==> tf[i] <= tl[i] <= pd
  }

  /** Number of activities with a late finish. */
  function SetCount(tl: seq<int>): (r: nat)
    ensures r <= |tl|
  {
    if tl == [] then 0 else SetCount(tl[..|tl| - 1]) + (if tl[|tl| - 1] != Unset then 1 else 0)
  }

  /** Setting late finishes, and unsetting none, raises the count. */
  lemma {:induction false} SetCountGrows(tl0: seq<int>, tl: seq<int>, j: nat)
    requires |tl0| == |tl| && forall i :: 0 <= i < |tl| && tl0[i] != Unset ==> tl[i] != Unset
    requires j < |tl| && tl0[j] == Unset && tl[j] != Unset
    ensures SetCount(tl0) < SetCount(tl)
  {
    var m := |tl| - 1;
    if j < m {
      SetCountGrows(tl0[..m], tl[..m], j);
    } else {
      SetCountMono(tl0[..m], tl[..m]);
    }
  }

  lemma {:induction false} SetCountMono(tl0: seq<int>, tl: seq<int>)
    requires |tl0| == |tl| && forall i :: 0 <= i < |tl| && tl0[i] != Unset ==> tl[i] != Unset
    ensures SetCount(tl0) <= SetCount(tl)
  {
    if tl != [] {
      var m := |tl| - 1;
      SetCountMono(tl0[..m], tl[..m]);
    }
  }

  /** In a scheduled ranked network with sinks set, an assignment where everything unset is stuck has nothing unset. */
  lemma {:induction false} NothingStuck(acts: seq<Activity>, rank: seq<nat>, pd: int, tl: seq<int>, r: nat)
    requires IsRanking(acts, rank) && |tl| == |acts|
    requires forall i :: 0 <= i < |acts| && Sink(acts, i) ==> tl[i] != Unset
    requires forall i :: 0 <= i < |acts| ==> Stuck(acts, tl, i)
    ensures forall i :: 0 <= i < |acts| && rank[i] >= r ==> tl[i] != Unset
    decreases |acts| - r
  {
    if r < |acts| {
      NothingStuck(acts, rank, pd, tl, r + 1);
      forall i | 0 <= i < |acts| && rank[i] == r ensures tl[i] != Unset {
        assert Stuck(acts, tl, i);
      }
    }
  }

  /** Sinks have a non-negative early finish, so in a scheduled network their late finish is set. */
  lemma DurationNonNegative(acts: seq<Activity>, te: seq<int>, tf: seq<int>, pd: int)
    requires Scheduled(acts, te, tf, pd)
    ensures pd >= 0 && pd != Unset
  {
    var i :| 0 <= i < |acts| && tf[i] == pd;
    assert FwdOk(acts, te, tf, i);
  }

  // ---- One sweep ----

  /** What the sweep keeps while it runs: the invariant, frozen values, and what "no change" means. */
  ghost predicate BackSweepInv(acts: seq<Activity>, pd: int, tl0: seq<int>, tl: seq<int>, pos: int, changed: bool) {
    BackInv(acts, pd, tl) && |tl0| == |acts| && 0 <= pos <= |acts| &&
    (forall j :: 0 <= j < |acts| && tl0[j] != Unset ==> tl[j] == tl0[j]) &&
    (!changed ==> tl == tl0 && forall j :: 0 <= j < pos ==> Stuck(acts, tl, j))
  }

  /** Under Scheduled: late finishes stay in bounds and a change sets a late finish that was unset. */
  ghost predicate BackSweepBounded(acts: seq<Activity>, tf: seq<int>, pd: int, tl0: seq<int>, tl: seq<int>, changed: bool)
    requires |tf| == |acts| && |tl| == |acts| && |tl0| == |acts|
  {
    Bounded(acts, tf, pd, tl) &&
    (changed ==> exists j :: 0 <= j < |acts| && tl0[j] == Unset && tl[j] != Unset)
  }

  /** Setting an unset activity leaves LateOk of every other activity with a late finish as it was. */
  lemma AssignKeepsOthers(acts: seq<Activity>, tl: seq<int>, pos: nat, v: int, i: nat)
    requires |tl| == |acts| && pos < |acts| && i < |acts| && i != pos && tl[pos] == Unset
    requires LateOk(acts, tl, i)
    ensures LateOk(acts, tl[pos := v], i)
  {
    var tl' := tl[pos := v];
    var s :| Edge(acts, s, i) && tl[i] == tl[s] - acts[s].duration;
    assert tl'[i] == tl'[s] - acts[s].duration;
  }

  /** The least late start of the successors is a valid late finish for activity `pos`. */
  lemma AssignKeeps(acts: seq<Activity>, pd: int, tl0: seq<int>, tl: seq<int>, pos: nat, changed: bool, v: int)
    requires BackSweepInv(acts, pd, tl0, tl, pos, changed) && pos < |acts| && tl[pos] == Unset && !Sink(acts, pos)
    requires forall s :: Edge(acts, s, pos) ==> tl[s] != Unset && v <= tl[s] - acts[s].duration
    requires exists s :: Edge(acts, s, pos) && v == tl[s] - acts[s].duration
    ensures BackSweepInv(acts, pd, tl0, tl[pos := v], pos + 1, true)
  {
    AssignBackInv(acts, pd, tl, pos, v);
  }

  lemma AssignBackInv(acts: seq<Activity>, pd: int, tl: seq<int>, pos: nat, v: int)
    requires BackInv(acts, pd, tl) && pos < |acts| && tl[pos] == Unset && !Sink(acts, pos)
    requires forall s :: Edge(acts, s, pos) ==> tl[s] != Unset && v <= tl[s] - acts[s].duration
    requires exists s :: Edge(acts, s, pos) && v == tl[s] - acts[s].duration
    ensures BackInv(acts, pd, tl[pos := v])
  {
    AssignLateAll(acts, tl, pos, v);
    assert SinksAt(acts, pd, tl[pos := v]);
  }

  lemma AssignLateAll(acts: seq<Activity>, tl: seq<int>, pos: nat, v: int)
    requires |tl| == |acts| && LateAll(acts, tl) && pos < |acts| && tl[pos] == Unset
    requires forall s :: Edge(acts, s, pos) ==> tl[s] != Unset && v <= tl[s] - acts[s].duration
    requires exists s :: Edge(acts, s, pos) && v == tl[s] - acts[s].duration
    ensures LateAll(acts, tl[pos := v])
  {
    var tl' := tl[pos := v];
    AssignSelf(acts, tl, pos, v);
    forall i | 0 <= i < |acts| && i != pos && !Sink(acts, i) && tl'[i] != Unset ensures LateOk(acts, tl', i) {
      AssignKeepsOthers(acts, tl, pos, v, i);
    }
  }

  lemma AssignSelf(acts: seq<Activity>, tl: seq<int>, pos: nat, v: int)
    requires |tl| == |acts| && pos < |acts| && tl[pos] == Unset
    requires forall s :: Edge(acts, s, pos) ==> tl[s] != Unset && v <= tl[s] - acts[s].duration
    requires exists s :: Edge(acts, s, pos) && v == tl[s] - acts[s].duration
    ensures LateOk(acts, tl[pos := v], pos)
  {
    var tl' := tl[pos := v];
    var s :| Edge(acts, s, pos) && v == tl[s] - acts[s].duration;
    assert tl'[pos] == tl'[s] - acts[s].duration;
  }

  /** Passing over an activity that keeps its late finish: it is set already, or stuck. */
  lemma SkipKeeps(acts: seq<Activity>, pd: int, tl0: seq<int>, tl: seq<int>, pos: nat, changed: bool)
    requires BackSweepInv(acts, pd, tl0, tl, pos, changed) && pos < |acts|
    requires tl[pos] == Unset ==> Sink(acts, pos) || exists s :: Edge(acts, s, pos) && tl[s] == Unset
    ensures BackSweepInv(acts, pd, tl0, tl, pos + 1, changed)
  {
    assert Stuck(acts, tl, pos);
  }

  /** The assigned value lies in bounds and is set, when the network is scheduled. */
  lemma AssignBounded(acts: seq<Activity>, te: seq<int>, tf: seq<int>, pd: int, tl0: seq<int>, tl: seq<int>,
                      pos: nat, changed: bool, v: int)
    requires Scheduled(acts, te, tf, pd) && |tl| == |acts| && |tl0| == |acts| && pos < |acts|
    requires BackSweepBounded(acts, tf, pd, tl0, tl, changed) && tl0[pos] == Unset
    requires forall s :: Edge(acts, s, pos) ==> tl[s] != Unset && v <= tl[s] - acts[s].duration
    requires exists s :: Edge(acts, s, pos) && v == tl[s] - acts[s].duration
    ensures v != Unset && BackSweepBounded(acts, tf, pd, tl0, tl[pos := v], true)
  {
    var s :| Edge(acts, s, pos) && v == tl[s] - acts[s].duration;
    StartIsLatestPredecessorFinish(acts, te, tf, s);
    assert FwdOk(acts, te, tf, s) && FwdOk(acts, te, tf, pos);
  }

  /**
   * The candidate late finish of activity `i`: the least late start of its successors,
   * available only when it has successors and every one of them has a late finish.
   */
  method SuccessorMinimum(acts: seq<Activity>, tl: seq<int>, i: nat) returns (found: bool, minTL: int)
    requires |tl| == |acts| && i < |acts|
    ensures found ==> forall s :: Edge(acts, s, i) ==> tl[s] != Unset && minTL <= tl[s] - acts[s].duration
    ensures found ==> exists s :: Edge(acts, s, i) && minTL == tl[s] - acts[s].duration
    ensures !found ==> Sink(acts, i) || exists s :: Edge(acts, s, i) && tl[s] == Unset
  {
    var successors := Successors(acts, i);
    if |successors| == 0 {
      return false, 0;
    }
    var successorTLs := LateStarts(acts, tl, successors);
    if Infinity in successorTLs {
      var k :| 0 <= k < |successorTLs| && successorTLs[k] == Infinity;
      assert Edge(acts, successors[k], i) && tl[successors[k]] == Unset;
      return false, 0;
    }
    var values := Values(successorTLs);
    minTL := MinOf(values);
    found := true;
    forall s | Edge(acts, s, i) ensures tl[s] != Unset && minTL <= tl[s] - acts[s].duration {
      var k :| 0 <= k < |successors| && successors[k] == s;
      assert values[k] in values && values[k] == tl[s] - acts[s].duration;
    }
    var k :| 0 <= k < |values| && values[k] == minTL;
    assert Edge(acts, successors[k], i);
  }

  /** One `while` iteration of the backward pass over all activities, in input order. */
  method BackSweep(acts: seq<Activity>, pd: int, tl0: seq<int>, ghost te: seq<int>, ghost tf: seq<int>)
    returns (tl: seq<int>, changed: bool)
    requires BackInv(acts, pd, tl0) && Shape(acts, te, tf)
    requires Scheduled(acts, te, tf, pd) ==> Bounded(acts, tf, pd, tl0)
    ensures BackSweepInv(acts, pd, tl0, tl, |acts|, changed)
    ensures Scheduled(acts, te, tf, pd) ==> BackSweepBounded(acts, tf, pd, tl0, tl, changed)
  {
    ghost var scheduled := Scheduled(acts, te, tf, pd);
    tl, changed := tl0, false;
    var i := 0;
    while i < |acts|
      invariant BackSweepInv(acts, pd, tl0, tl, i, changed)
      invariant scheduled ==> BackSweepBounded(acts, tf, pd, tl0, tl, changed)
    {
      tl, changed := Visit(acts, pd, tl0, tl, i, changed, te, tf, scheduled);
      i := i + 1;
    }
  }

  /** The body of the sweep for activity `i`: a late finish is computed only where none is set yet. */
  method Visit(acts: seq<Activity>, pd: int, tl0: seq<int>, tl: seq<int>, i: nat, changed: bool,
               ghost te: seq<int>, ghost tf: seq<int>, ghost scheduled: bool)
    returns (tl': seq<int>, changed': bool)
    requires BackSweepInv(acts, pd, tl0, tl, i, changed) && i < |acts| && Shape(acts, te, tf)
    requires scheduled ==> Scheduled(acts, te, tf, pd) && BackSweepBounded(acts, tf, pd, tl0, tl, changed)
    ensures BackSweepInv(acts, pd, tl0, tl', i + 1, changed')
    ensures scheduled ==> BackSweepBounded(acts, tf, pd, tl0, tl', changed')
  {
    tl', changed' := tl, changed;
    var found := false;
    if tl[i] == Unset {
      var minTL;
      found, minTL := SuccessorMinimum(acts, tl, i);
      if found {
        assert !Sink(acts, i);
        AssignKeeps(acts, pd, tl0, tl, i, changed, minTL);
        if scheduled {
          AssignBounded(acts, te, tf, pd, tl0, tl, i, changed, minTL);
        }
        tl' := tl[i := minTL];
        changed' := true;
      }
    }
    if !found {
      SkipKeeps(acts, pd, tl0, tl, i, changed);
    }
  }

  // ---- The pass ----

  /**
   * The backward pass: seed the sinks with the project duration, then sweep until a sweep
   * changes nothing or 100 sweeps have run.
   */
  method BackwardPass(acts: seq<Activity>, pd: int, ghost te: seq<int>, ghost tf: seq<int>, ghost rank: seq<nat>)
    returns (tl: seq<int>, sweeps: nat, converged: bool)
    requires Shape(acts, te, tf)
    ensures BackInv(acts, pd, tl) && 1 <= sweeps <= MaxSweeps
    ensures converged ==> forall j :: 0 <= j < |acts| ==> Stuck(acts, tl, j)
    ensures !converged ==> sweeps == MaxSweeps
    ensures Scheduled(acts, te, tf, pd) ==> Bounded(acts, tf, pd, tl)
    ensures Scheduled(acts, te, tf, pd) && IsRanking(acts, rank) && |acts| < MaxSweeps ==>
      converged && sweeps <= |acts| + 1 && forall j :: 0 <= j < |acts| ==> tl[j] != Unset
  {
    ghost var scheduled := Scheduled(acts, te, tf, pd);
    if scheduled {
      DurationNonNegative(acts, te, tf, pd);
    }
    tl := seq(|acts|, _ => Unset);
    for i := 0 to |acts|
      invariant |tl| == |acts|
      invariant forall j :: 0 <= j < i && Sink(acts, j) ==> tl[j] == pd
      invariant forall j :: 0 <= j < |acts| && (i <= j || !Sink(acts, j)) ==> tl[j] == Unset
      invariant scheduled ==> Bounded(acts, tf, pd, tl)
    {
      var hasSuccessors := |Successors(acts, i)| > 0;
      if !hasSuccessors {
        if scheduled {
          assert FwdOk(acts, te, tf, i);
        }
        tl := tl[i := pd];
      } else {
        assert Edge(acts, Successors(acts, i)[0], i);
      }
    }
    var changed := true;
    var iterations := 0;
    while changed && iterations < MaxSweeps
      invariant BackInv(acts, pd, tl) && 0 <= iterations <= MaxSweeps
      invariant iterations == 0 ==> changed
      invariant !changed ==> forall j :: 0 <= j < |acts| ==> Stuck(acts, tl, j)
      invariant scheduled ==> Bounded(acts, tf, pd, tl)
      invariant scheduled ==> (changed ==> iterations <= SetCount(tl)) && iterations <= |acts| + 1
    {
      ghost var before := tl;
      tl, changed := BackSweep(acts, pd, tl, te, tf);
      if scheduled && changed {
        var j :| 0 <= j < |acts| && before[j] == Unset && tl[j] != Unset;
        SetCountGrows(before, tl, j);
      }
      iterations := iterations + 1;
    }
    sweeps, converged := iterations, !changed;
    if scheduled && IsRanking(acts, rank) && |acts| < MaxSweeps {
      forall i | 0 <= i < |acts| && Sink(acts, i) ensures tl[i] != Unset {
      }
      NothingStuck(acts, rank, pd, tl, 0);
    }
  }
}
