/**
 * The forward pass of calculatePERT: sweeps over the activities in input order, each
 * activity's early start becoming the largest early finish among its known predecessors,
 * until a sweep changes nothing or 100 sweeps have run.
 */
module Forward {
  import opened Wrappers
  import opened Network

  /** The sweep cap of both passes, and of nothing else. */
  const MaxSweeps: nat := 100

  /** Early start and finish of every activity, indexed like the activities. */
  predicate Shape(acts: seq<Activity>, te: seq<int>, tf: seq<int>) {
    |te| == |acts| && |tf| == |acts|
  }

  /**
   * `maxPredFinish`: 0, raised to the early finish of every predecessor name that is
   * an activity; names that are not activities are passed over.
   */
  function PredFinish(acts: seq<Activity>, tf: seq<int>, ps: seq<string>): (r: int)
    requires |tf| == |acts|
    ensures r >= 0
  {
    if ps == [] then 0
    else
      var m := PredFinish(acts, tf, ps[..|ps| - 1]);
      match IndexOf(acts, ps[|ps| - 1])
      case None => m
      case Some(j) => if tf[j] > m then tf[j] else m
  }

  /** PredFinish is the largest early finish among the known predecessors, or 0 when that is larger. */
  lemma {:induction false} PredFinishIsMax(acts: seq<Activity>, tf: seq<int>, ps: seq<string>)
    requires |tf| == |acts|
    ensures forall p :: p in ps && IndexOf(acts, p).Some? ==> tf[IndexOf(acts, p).value] <= PredFinish(acts, tf, ps)
    ensures PredFinish(acts, tf, ps) == 0 ||
            exists p :: p in ps && IndexOf(acts, p).Some? && PredFinish(acts, tf, ps) == tf[IndexOf(acts, p).value]
  {
    if ps != [] {
      var init, last := ps[..|ps| - 1], ps[|ps| - 1];
      PredFinishIsMax(acts, tf, init);
      assert forall q :: q in ps <==> q in init || q == last;
    }
  }

  /** PredFinish reads only the early finishes of the predecessors that are activities. */
  lemma {:induction false} PredFinishAgree(acts: seq<Activity>, tf: seq<int>, tf': seq<int>, ps: seq<string>)
    requires |tf| == |acts| && |tf'| == |acts|
    requires forall p :: p in ps && IndexOf(acts, p).Some? ==> tf[IndexOf(acts, p).value] == tf'[IndexOf(acts, p).value]
    ensures PredFinish(acts, tf, ps) == PredFinish(acts, tf', ps)
  {
    if ps != [] {
      PredFinishAgree(acts, tf, tf', ps[..|ps| - 1]);
    }
  }

  /** The loop of one activity over its predecessors, computing `maxPredFinish`. */
  method MaxPredFinish(acts: seq<Activity>, tf: seq<int>, ps: seq<string>) returns (m: int)
    requires |tf| == |acts|
    ensures m == PredFinish(acts, tf, ps)
  {
    m := 0;
    var k := 0;
    while k < |ps|
      invariant 0 <= k <= |ps|
      invariant m == PredFinish(acts, tf, ps[..k])
    {
      assert ps[..k + 1][..k] == ps[..k];
      var p := IndexOf(acts, ps[k]);
      if p.Some? {
        m := if tf[p.value] > m then tf[p.value] else m;
      }
      k := k + 1;
    }
    assert ps[..k] == ps;
  }

  /** Activity `i` agrees with its predecessors: TE = maxPredFinish and TF = TE + duration. */
  predicate FwdOk(acts: seq<Activity>, te: seq<int>, tf: seq<int>, i: int)
    requires Shape(acts, te, tf) && 0 <= i < |acts|
  {
    te[i] == PredFinish(acts, tf, acts[i].predecessors) && tf[i] == te[i] + acts[i].duration
  }

  /** No sweep would change anything. */
  predicate ForwardFixpoint(acts: seq<Activity>, te: seq<int>, tf: seq<int>) {
    Shape(acts, te, tf) && forall i :: 0 <= i < |acts| ==> FwdOk(acts, te, tf, i)
  }

  // ---- One sweep ----

  /** What a sweep guarantees of every activity it has passed (`pos` of them) and of the rest. */
  ghost predicate SweepBasic(acts: seq<Activity>, te0: seq<int>, tf0: seq<int>,
                             te: seq<int>, tf: seq<int>, pos: int, changed: bool) {
    Shape(acts, te0, tf0) && Shape(acts, te, tf) && 0 <= pos <= |acts| &&
    (forall j :: 0 <= j < pos ==> te[j] >= 0 && tf[j] == te[j] + acts[j].duration) &&
    (forall j :: pos <= j < |acts| ==> te[j] == te0[j] && tf[j] == tf0[j]) &&
    (!changed ==> te == te0 && tf == tf0 && forall j :: 0 <= j < pos ==> FwdOk(acts, te, tf, j))
  }

  /**
   * In a ranked network, sweep number k + 1 leaves every activity of rank below k as it
   * was, and every activity it passes of rank at most k agrees with its predecessors.
   */
  ghost predicate SweepRanked(acts: seq<Activity>, rank: seq<nat>, k: nat, te0: seq<int>, tf0: seq<int>,
                              te: seq<int>, tf: seq<int>, pos: int, changed: bool)
    requires Shape(acts, te0, tf0) && Shape(acts, te, tf) && |rank| == |acts|
  {
    (forall j :: 0 <= j < |acts| && rank[j] < k ==> te[j] == te0[j] && tf[j] == tf0[j] && FwdOk(acts, te, tf, j)) &&
    (forall j :: 0 <= j < pos && j < |acts| && rank[j] <= k ==> FwdOk(acts, te, tf, j)) &&
    (changed ==> exists j :: 0 <= j < |acts| && rank[j] >= k)
  }

  /** Activities of rank below k agree with their predecessors. */
  ghost predicate SettledBelow(acts: seq<Activity>, rank: seq<nat>, te: seq<int>, tf: seq<int>, k: nat)
    requires Shape(acts, te, tf) && |rank| == |acts|
  {
    forall j :: 0 <= j < |acts| && rank[j] < k ==> FwdOk(acts, te, tf, j)
  }

  /** Updating activity `m` leaves PredFinish of every activity that does not list it unchanged. */
  lemma PredFinishUpdate(acts: seq<Activity>, tf: seq<int>, i: nat, m: nat, x: int)
    requires |tf| == |acts| && i < |acts| && m < |acts| && !Edge(acts, i, m)
    ensures PredFinish(acts, tf[m := x], acts[i].predecessors) == PredFinish(acts, tf, acts[i].predecessors)
  {
    PredFinishAgree(acts, tf, tf[m := x], acts[i].predecessors);
  }

  /** Processing activity `pos` of a sweep: recompute it and store it when it differs. */
  predicate Step(acts: seq<Activity>, te: seq<int>, tf: seq<int>, pos: int, changed: bool,
                 te': seq<int>, tf': seq<int>, changed': bool)
    requires Shape(acts, te, tf) && 0 <= pos < |acts|
  {
    var newTE := PredFinish(acts, tf, acts[pos].predecessors);
    var newTF := newTE + acts[pos].duration;
    if newTE != te[pos] || newTF != tf[pos] then
      te' == te[pos := newTE] && tf' == tf[pos := newTF] && changed'
    else
      te' == te && tf' == tf && changed' == changed
  }

  /** The basic facts survive processing activity `pos`. */
  lemma BasicStep(acts: seq<Activity>, te0: seq<int>, tf0: seq<int>, te: seq<int>, tf: seq<int>, pos: nat, changed: bool,
                  te': seq<int>, tf': seq<int>, changed': bool)
    requires SweepBasic(acts, te0, tf0, te, tf, pos, changed) && pos < |acts|
    requires Step(acts, te, tf, pos, changed, te', tf', changed')
    ensures SweepBasic(acts, te0, tf0, te', tf', pos + 1, changed')
  {
    if te' != te || tf' != tf {
      assert changed';
    } else if !changed' {
      assert FwdOk(acts, te', tf', pos);
    }
  }

  /** Storing a new value for activity `m` keeps every other activity that does not list it in agreement. */
  lemma UpdateKeepsOk(acts: seq<Activity>, te: seq<int>, tf: seq<int>, m: nat, x: int, y: int, j: nat)
    requires Shape(acts, te, tf) && m < |acts| && j < |acts| && j != m && !Edge(acts, j, m)
    requires FwdOk(acts, te, tf, j)
    ensures FwdOk(acts, te[m := x], tf[m := y], j)
  {
    PredFinishUpdate(acts, tf, j, m, y);
  }

  /** The ranked facts survive processing activity `pos`. */
  lemma RankedStep(acts: seq<Activity>, rank: seq<nat>, k: nat, te0: seq<int>, tf0: seq<int>,
                   te: seq<int>, tf: seq<int>, pos: nat, changed: bool, te': seq<int>, tf': seq<int>, changed': bool)
    requires IsRanking(acts, rank) && Shape(acts, te0, tf0) && Shape(acts, te, tf) && pos < |acts|
    requires SweepRanked(acts, rank, k, te0, tf0, te, tf, pos, changed)
    requires Step(acts, te, tf, pos, changed, te', tf', changed')
    ensures Shape(acts, te', tf') && SweepRanked(acts, rank, k, te0, tf0, te', tf', pos + 1, changed')
  {
    var newTE := PredFinish(acts, tf, acts[pos].predecessors);
    var newTF := newTE + acts[pos].duration;
    if newTE != te[pos] || newTF != tf[pos] {
      assert rank[pos] >= k;
      assert !Edge(acts, pos, pos);
      PredFinishUpdate(acts, tf, pos, pos, newTF);
      assert FwdOk(acts, te', tf', pos);
      forall j | 0 <= j < |acts| && j != pos && (rank[j] < k || (j < pos && rank[j] <= k))
        ensures FwdOk(acts, te', tf', j)
      {
        assert FwdOk(acts, te, tf, j);
        assert !Edge(acts, j, pos);
        UpdateKeepsOk(acts, te, tf, pos, newTE, newTF, j);
      }
    } else {
      assert FwdOk(acts, te', tf', pos);
    }
  }

  /** Sweep number `k + 1`: every activity in input order takes the value its predecessors give it. */
  method Sweep(acts: seq<Activity>, te0: seq<int>, tf0: seq<int>, ghost rank: seq<nat>, ghost k: nat)
    returns (te: seq<int>, tf: seq<int>, changed: bool)
    requires Shape(acts, te0, tf0)
    requires IsRanking(acts, rank) ==> SettledBelow(acts, rank, te0, tf0, k)
    ensures Shape(acts, te, tf)
    ensures forall j :: 0 <= j < |acts| ==> te[j] >= 0 && tf[j] == te[j] + acts[j].duration
    ensures !changed ==> te == te0 && tf == tf0 && ForwardFixpoint(acts, te, tf)
    ensures IsRanking(acts, rank) ==> SettledBelow(acts, rank, te, tf, k + 1)
    ensures IsRanking(acts, rank) && changed ==> k < |acts|
  {
    ghost var ranked := IsRanking(acts, rank);
    te, tf, changed := te0, tf0, false;
    var i := 0;
    while i < |acts|
      invariant SweepBasic(acts, te0, tf0, te, tf, i, changed)
      invariant ranked ==> SweepRanked(acts, rank, k, te0, tf0, te, tf, i, changed)
    {
      var activity := acts[i];
      var maxPredFinish := MaxPredFinish(acts, tf, activity.predecessors);
      var newTE := maxPredFinish;
      var newTF := newTE + activity.duration;
      ghost var te1, tf1, changed1 := te, tf, changed;
      if newTE != te[i] || newTF != tf[i] {
        te := te[i := newTE];
        tf := tf[i := newTF];
        changed := true;
      }
      BasicStep(acts, te0, tf0, te1, tf1, i, changed1, te, tf, changed);
      if ranked {
        RankedStep(acts, rank, k, te0, tf0, te1, tf1, i, changed1, te, tf, changed);
      }
      i := i + 1;
    }
    if ranked && changed {
      var j :| 0 <= j < |acts| && rank[j] >= k;
    }
  }

  // ---- The pass ----

  /**
   * The forward pass from TE = TF = 0 everywhere. `converged` says the last sweep changed
   * nothing; in a ranked network of fewer than 100 activities that happens within n + 1 sweeps.
   */
  method ForwardPass(acts: seq<Activity>, ghost rank: seq<nat>) returns (te: seq<int>, tf: seq<int>, sweeps: nat, converged: bool)
    ensures Shape(acts, te, tf) && 1 <= sweeps <= MaxSweeps
    ensures forall j :: 0 <= j < |acts| ==> te[j] >= 0 && tf[j] == te[j] + acts[j].duration
    ensures converged ==> ForwardFixpoint(acts, te, tf)
    ensures !converged ==> sweeps == MaxSweeps
    ensures IsRanking(acts, rank) && |acts| < MaxSweeps ==> converged && sweeps <= |acts| + 1
  {
    ghost var ranked := IsRanking(acts, rank);
    te := seq(|acts|, _ => 0);
    tf := seq(|acts|, _ => 0);
    var changed := true;
    var iterations := 0;
    while changed && iterations < MaxSweeps
      invariant Shape(acts, te, tf) && 0 <= iterations <= MaxSweeps
      invariant iterations == 0 ==> changed
      invariant iterations > 0 ==> forall j :: 0 <= j < |acts| ==> te[j] >= 0 && tf[j] == te[j] + acts[j].duration
      invariant !changed ==> ForwardFixpoint(acts, te, tf)
      invariant ranked ==> SettledBelow(acts, rank, te, tf, iterations)
      invariant ranked ==> iterations <= |acts| + 1 && (changed ==> iterations <= |acts|)
    {
      te, tf, changed := Sweep(acts, te, tf, rank, iterations);
      iterations := iterations + 1;
    }
    sweeps, converged := iterations, !changed;
  }

  // ---- Properties of the fixed point ----

  /** At the fixed point an activity with no known predecessor starts at 0 and finishes after its duration. */
  lemma RootStartsAtZero(acts: seq<Activity>, te: seq<int>, tf: seq<int>, i: nat)
    requires ForwardFixpoint(acts, te, tf) && i < |acts|
    requires forall j :: 0 <= j < |acts| ==> !Edge(acts, i, j)
    ensures te[i] == 0 && tf[i] == acts[i].duration
  {
    assert FwdOk(acts, te, tf, i);
    PredFinishIsMax(acts, tf, acts[i].predecessors);
    if te[i] != 0 {
      var p :| p in acts[i].predecessors && IndexOf(acts, p).Some? && te[i] == tf[IndexOf(acts, p).value];
      assert Edge(acts, i, IndexOf(acts, p).value);
    }
  }

  /**
   * At the fixed point an activity starts exactly when its last predecessor finishes:
   * no earlier than any of them, and at 0 or at one of their finishes.
   */
  lemma StartIsLatestPredecessorFinish(acts: seq<Activity>, te: seq<int>, tf: seq<int>, i: nat)
    requires DistinctNames(acts) && ForwardFixpoint(acts, te, tf) && i < |acts|
    ensures forall j :: Edge(acts, i, j) ==> tf[j] <= te[i]
    ensures te[i] == 0 || exists j :: Edge(acts, i, j) && te[i] == tf[j]
  {
    assert FwdOk(acts, te, tf, i);
    PredFinishIsMax(acts, tf, acts[i].predecessors);
    forall j | Edge(acts, i, j) ensures tf[j] <= te[i] {
      IndexOfOwnName(acts, j);
    }
    if te[i] != 0 {
      var p :| p in acts[i].predecessors && IndexOf(acts, p).Some? && te[i] == tf[IndexOf(acts, p).value];
      assert Edge(acts, i, IndexOf(acts, p).value);
    }
  }

  /** In a ranked network the fixed point is unique: any two agree on every activity. */
  lemma FixpointUnique(acts: seq<Activity>, rank: seq<nat>, te: seq<int>, tf: seq<int>, te': seq<int>, tf': seq<int>)
    requires IsRanking(acts, rank) && ForwardFixpoint(acts, te, tf) && ForwardFixpoint(acts, te', tf')
    ensures te == te' && tf == tf'
  {
    FixpointAgreeBelow(acts, rank, te, tf, te', tf', |acts|);
  }

  lemma {:induction false} FixpointAgreeBelow(acts: seq<Activity>, rank: seq<nat>, te: seq<int>, tf: seq<int>,
                                              te': seq<int>, tf': seq<int>, r: nat)
    requires IsRanking(acts, rank) && ForwardFixpoint(acts, te, tf) && ForwardFixpoint(acts, te', tf')
    ensures forall j :: 0 <= j < |acts| && rank[j] < r ==> te[j] == te'[j] && tf[j] == tf'[j]
  {
    if r > 0 {
      FixpointAgreeBelow(acts, rank, te, tf, te', tf', r - 1);
      forall j | 0 <= j < |acts| && rank[j] == r - 1 ensures te[j] == te'[j] && tf[j] == tf'[j] {
        assert FwdOk(acts, te, tf, j) && FwdOk(acts, te', tf', j);
        forall p | p in acts[j].predecessors && IndexOf(acts, p).Some?
          ensures tf[IndexOf(acts, p).value] == tf'[IndexOf(acts, p).value]
        {
          assert Edge(acts, j, IndexOf(acts, p).value);
        }
        PredFinishAgree(acts, tf, tf', acts[j].predecessors);
      }
    }
  }
}
