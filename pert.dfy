/**
 * calculatePERT: the forward and backward passes, then TI, slack and criticality, then
 * the three-point estimates, which overwrite TE with the duration.
 */
module Pert {
  import opened Network
  import opened Forward
  import opened Backward

  /** One value of `activityMap` after calculatePERT. */
  datatype Entry = Entry(
    name: string, duration: int, predecessors: seq<string>,
    te: int, tf: int, tl: int, ti: int, slack: int, isCritical: bool,
    to: int, tm: int, tp: int, sigma: real, variance: real)

  /** `Math.abs(slack) < 0.0001`: for integer slack, exactly slack = 0. */
  function IsCritical(slack: int): (r: bool)
    ensures r <==> slack == 0
  {
    (if slack < 0 then -slack else slack) as real < 0.0001
  }

  /** `Math.max(1, d - 1)`. */
  function Optimistic(d: int): int {
    if 1 > d - 1 then 1 else d - 1
  }

  function Pessimistic(d: int): int {
    d + 2
  }

  /** `(tp - to) / 6`. */
  function Sigma(d: int): real {
    (Pessimistic(d) - Optimistic(d)) as real / 6.0
  }

  /** `Math.pow(sigma, 2)`. */
  function Variance(d: int): real {
    Sigma(d) * Sigma(d)
  }

  /** The spread is 3 from a duration of 2 on, and d + 1 below. */
  lemma SigmaFormula(d: int)
    ensures Sigma(d) == (if d >= 2 then 3 else d + 1) as real / 6.0
    ensures d >= 2 ==> Sigma(d) == 0.5 && Variance(d) == 0.25
    ensures d == 1 ==> Sigma(d) * 3.0 == 1.0
    ensures d == 0 ==> Sigma(d) * 6.0 == 1.0
  {
  }

  /** The worked case of a duration of 5. */
  lemma DurationFive()
    ensures Optimistic(5) == 4 && Pessimistic(5) == 7 && Variance(5) == 0.25
  {
    SigmaFormula(5);
  }

  function EarlyFinishes(es: seq<Entry>): (r: seq<int>)
    ensures |r| == |es| && forall i :: 0 <= i < |es| ==> r[i] == es[i].tf
  {
    seq(|es|, i requires 0 <= i < |es| => es[i].tf)
  }

  /** The early starts of the forward pass, recovered as TF - duration once TE has been overwritten. */
  function EarlyStarts(es: seq<Entry>): (r: seq<int>)
    ensures |r| == |es| && forall i :: 0 <= i < |es| ==> r[i] == es[i].tf - es[i].duration
  {
    seq(|es|, i requires 0 <= i < |es| => es[i].tf - es[i].duration)
  }

  function LateFinishes(es: seq<Entry>): (r: seq<int>)
    ensures |r| == |es| && forall i :: 0 <= i < |es| ==> r[i] == es[i].tl
  {
    seq(|es|, i requires 0 <= i < |es| => es[i].tl)
  }

  /**
   * In a scheduled ranked network an activity that finishes at the project duration can be
   * followed, successor by successor, to a sink that does too; that sink has TL = TF.
   */
  lemma {:induction false} FinishingSink(acts: seq<Activity>, rank: seq<nat>, te: seq<int>, tf: seq<int>, pd: int, i: nat)
    requires Scheduled(acts, te, tf, pd) && IsRanking(acts, rank) && i < |acts| && tf[i] == pd
    ensures exists j :: 0 <= j < |acts| && Sink(acts, j) && tf[j] == pd
    decreases |acts| - rank[i]
  {
    if !Sink(acts, i) {
      var s :| 0 <= s < |acts| && Edge(acts, s, i);
      StartIsLatestPredecessorFinish(acts, te, tf, s);
      assert FwdOk(acts, te, tf, s);
      FinishingSink(acts, rank, te, tf, pd, s);
    }
  }

  /**
   * What calculatePERT returns for `acts`: one entry per activity, in input order, keeping
   * the activity's fields, with TI, slack, criticality and the estimates computed from
   * its times and `te` overwritten by the duration. The project duration is the largest
   * TF, and TLs satisfy the backward invariant. When the network is `acyclic` and below
   * the sweep cap, the times are the forward fixed point. If durations are also >= 0,
   * every TL is set between TF and the project duration, slack is never negative, and an
   * activity finishing at the project duration is critical.
   */
  ghost predicate PertSchedule(acts: seq<Activity>, entries: seq<Entry>, projectDuration: int, acyclic: bool) {
    |entries| == |acts| &&
    (forall i :: 0 <= i < |acts| ==>
      var e := entries[i];
      e.name == acts[i].name && e.duration == acts[i].duration && e.predecessors == acts[i].predecessors &&
      e.te == e.duration && e.tf >= e.duration && e.ti == e.tl - e.duration &&
      e.slack == e.tl - e.tf && (e.isCritical <==> e.slack == 0) &&
      e.to == Optimistic(e.duration) && e.tm == e.duration && e.tp == Pessimistic(e.duration) &&
      e.sigma == Sigma(e.duration) && e.variance == Variance(e.duration)) &&
    (forall i :: 0 <= i < |acts| ==> entries[i].tf <= projectDuration) &&
    (exists i :: 0 <= i < |acts| && entries[i].tf == projectDuration) &&
    BackInv(acts, projectDuration, LateFinishes(entries)) &&
    (acyclic && |acts| < MaxSweeps ==>
      ForwardFixpoint(acts, EarlyStarts(entries), EarlyFinishes(entries))) &&
    (acyclic && |acts| < MaxSweeps && (forall a :: a in acts ==> a.duration >= 0) ==>
      (forall i :: 0 <= i < |acts| ==>
         entries[i].tl != Unset && entries[i].tf <= entries[i].tl <= projectDuration && entries[i].slack >= 0) &&
      (exists i :: 0 <= i < |acts| && entries[i].tf == projectDuration && entries[i].isCritical))
  }

  /** `calculatePERT()` on the collected activities. */
  method CalculatePert(acts: seq<Activity>, ghost rank: seq<nat>) returns (entries: seq<Entry>, projectDuration: int)
    requires |acts| > 0 && DistinctNames(acts)
    ensures PertSchedule(acts, entries, projectDuration, IsRanking(acts, rank))
  {
    var te, tf, _, _ := ForwardPass(acts, rank);
    projectDuration := MaxOf(tf);
    ghost var scheduled := IsRanking(acts, rank) && |acts| < MaxSweeps && (forall a :: a in acts ==> a.duration >= 0);
    if scheduled {
      forall i | 0 <= i < |acts| ensures acts[i].duration >= 0 {
        assert acts[i] in acts;
      }
      assert Scheduled(acts, te, tf, projectDuration);
    }
    var tl, _, _ := BackwardPass(acts, projectDuration, te, tf, rank);
    entries := Finish(acts, te, tf, tl);
    if scheduled {
      CriticalAtEnd(acts, rank, te, tf, projectDuration, tl);
      var j :| 0 <= j < |acts| && tf[j] == projectDuration && tl[j] == projectDuration;
      assert entries[j].slack == 0;
    }
  }

  /** A scheduled ranked network has an activity finishing at the project duration with no slack. */
  lemma CriticalAtEnd(acts: seq<Activity>, rank: seq<nat>, te: seq<int>, tf: seq<int>, pd: int, tl: seq<int>)
    requires Scheduled(acts, te, tf, pd) && IsRanking(acts, rank) && BackInv(acts, pd, tl)
    ensures exists j :: 0 <= j < |acts| && tf[j] == pd && tl[j] == pd
  {
    var k :| 0 <= k < |acts| && tf[k] == pd;
    FinishingSink(acts, rank, te, tf, pd, k);
    var j :| 0 <= j < |acts| && Sink(acts, j) && tf[j] == pd;
    assert SinksAt(acts, pd, tl);
  }

  /** The last two passes of calculatePERT: TI, slack and criticality, then the estimates, which overwrite TE. */
  method Finish(acts: seq<Activity>, te: seq<int>, tf: seq<int>, tl: seq<int>) returns (entries: seq<Entry>)
    requires Shape(acts, te, tf) && |tl| == |acts|
    requires forall i :: 0 <= i < |acts| ==> tf[i] == te[i] + acts[i].duration
    ensures |entries| == |acts|
    ensures EarlyStarts(entries) == te && EarlyFinishes(entries) == tf && LateFinishes(entries) == tl
    ensures forall i :: 0 <= i < |acts| ==>
      entries[i].name == acts[i].name && entries[i].duration == acts[i].duration &&
      entries[i].predecessors == acts[i].predecessors && entries[i].te == acts[i].duration
    ensures forall i :: 0 <= i < |acts| ==>
      entries[i].tf == tf[i] && entries[i].tl == tl[i] && entries[i].ti == tl[i] - acts[i].duration &&
      entries[i].slack == entries[i].ti - te[i] && (entries[i].isCritical <==> entries[i].slack == 0)
    ensures forall i :: 0 <= i < |acts| ==>
      entries[i].to == Optimistic(acts[i].duration) && entries[i].tm == acts[i].duration &&
      entries[i].tp == Pessimistic(acts[i].duration) &&
      entries[i].sigma == Sigma(acts[i].duration) && entries[i].variance == Variance(acts[i].duration)
  {
    var ti, slack, critical := [], [], [];
    for i := 0 to |acts|
      invariant |ti| == i && |slack| == i && |critical| == i
      invariant forall j :: 0 <= j < i ==>
        ti[j] == tl[j] - acts[j].duration && slack[j] == ti[j] - te[j] && (critical[j] <==> slack[j] == 0)
    {
      var t := tl[i] - acts[i].duration;
      ti := ti + [t];
      slack := slack + [t - te[i]];
      critical := critical + [IsCritical(t - te[i])];
    }
    entries := [];
    for i := 0 to |acts|
      invariant |entries| == i
      invariant forall j :: 0 <= j < i ==>
        entries[j] == Entry(acts[j].name, acts[j].duration, acts[j].predecessors, acts[j].duration, tf[j], tl[j],
                            ti[j], slack[j], critical[j], Optimistic(acts[j].duration), acts[j].duration,
                            Pessimistic(acts[j].duration), Sigma(acts[j].duration), Variance(acts[j].duration))
    {
      var d := acts[i].duration;
      var to := Optimistic(d);
      var tp := Pessimistic(d);
      var sigma := (tp - to) as real / 6.0;
      entries := entries + [Entry(acts[i].name, d, acts[i].predecessors, d, tf[i], tl[i], ti[i], slack[i],
                                  critical[i], to, d, tp, sigma, sigma * sigma)];
    }
  }
}
