/**
 * collectActivities: reads the rows of the activities table, rejects bad rows with one
 * message each, then reports unknown predecessors and cycles.
 */
module Validation {
  import opened Text
  import opened Network
  import opened Cycles

  /** One row of the table as typed: the name cell, the duration after `parseInt(...) || 0`, and the predecessors cell. */
  datatype Row = Row(nameText: string, duration: int, predecessorsText: string)

  /** The messages collectActivities shows, one constructor per message. */
  datatype Error =
    | NegativeDuration(name: string)
    | Duplicate(name: string)
    | SelfPredecessor(name: string)
    | UnknownPredecessor(pred: string, activity: string)
    | CyclicDependencies

  /** A row read as collectActivities reads it: name and predecessors normalised. */
  function RowActivity(r: Row): Activity {
    Activity(NormalizeName(r.nameText), r.duration, PredecessorTokens(r.predecessorsText))
  }

  function Candidates(rows: seq<Row>): (cs: seq<Activity>)
    ensures |cs| == |rows| && forall k :: 0 <= k < |rows| ==> cs[k] == RowActivity(rows[k])
  {
    seq(|rows|, k requires 0 <= k < |rows| => RowActivity(rows[k]))
  }

  /** A named activity with duration >= 0 that does not list itself: passes every check that does not depend on the other rows. */
  predicate Sound(a: Activity) {
    a.name != [] && a.duration >= 0 && a.name !in a.predecessors
  }

  /** What happens to one row, given the names accepted so far. */
  datatype Verdict = Skip | Accept | Reject(error: Error)

  /** The checks of one normalised row, in the order the source makes them. */
  function Judge(names: set<string>, c: Activity): (v: Verdict)
    ensures v.Skip? <==> c.name == []
    ensures v.Accept? <==> Sound(c) && c.name !in names
    ensures c.name != [] && c.duration < 0 ==> v == Reject(NegativeDuration(c.name))
    ensures c.name != [] && c.duration >= 0 && c.name in names ==> v == Reject(Duplicate(c.name))
    ensures c.name != [] && c.duration >= 0 && c.name !in names && c.name in c.predecessors ==>
      v == Reject(SelfPredecessor(c.name))
  {
    if c.name == [] then Skip
    else if c.duration < 0 then Reject(NegativeDuration(c.name))
    else if c.name in names then Reject(Duplicate(c.name))
    else if c.name in c.predecessors then Reject(SelfPredecessor(c.name))
    else Accept
  }

  /** The activities and the row errors after the `rows.forEach` pass. */
  datatype Scan = Scan(accepted: seq<Activity>, errors: seq<Error>)

  /** What one row does to the scan so far. */
  function Step(s: Scan, c: Activity): Scan {
    match Judge(Names(s.accepted), c)
    case Skip => s
    case Accept => Scan(s.accepted + [c], s.errors)
    case Reject(e) => Scan(s.accepted, s.errors + [e])
  }

  function ScanAll(cs: seq<Activity>): Scan {
    if cs == [] then Scan([], []) else Step(ScanAll(cs[..|cs| - 1]), cs[|cs| - 1])
  }

  function ScanRows(rows: seq<Row>): Scan {
    ScanAll(Candidates(rows))
  }

  // ---- Reference definition: the first sound row of each name ----

  /** Row `k` is sound and no earlier sound row has its name. */
  predicate FirstOfItsName(cs: seq<Activity>, k: int) {
    0 <= k < |cs| && Sound(cs[k]) &&
    forall j :: 0 <= j < k && Sound(cs[j]) ==> cs[j].name != cs[k].name
  }

  /** The first sound row of each name, in input order. */
  function FirstOccurrences(cs: seq<Activity>): seq<Activity> {
    if cs == [] then []
    else
      FirstOccurrences(cs[..|cs| - 1]) +
      (if FirstOfItsName(cs, |cs| - 1) then [cs[|cs| - 1]] else [])
  }

  /** The names of the sound rows. */
  function SoundNames(cs: seq<Activity>): set<string> {
    set k | 0 <= k < |cs| && Sound(cs[k]) :: cs[k].name
  }

  /** Number of rows whose trimmed name is not empty. */
  function NamedRows(cs: seq<Activity>): nat {
    if cs == [] then 0
    else NamedRows(cs[..|cs| - 1]) + (if cs[|cs| - 1].name != [] then 1 else 0)
  }

  lemma SoundNamesStep(cs: seq<Activity>)
    requires cs != []
    ensures SoundNames(cs) == SoundNames(cs[..|cs| - 1]) + (if Sound(cs[|cs| - 1]) then {cs[|cs| - 1].name} else {})
  {
    var init := cs[..|cs| - 1];
    forall k | 0 <= k < |init| ensures init[k] == cs[k] {
    }
  }

  lemma FirstStep(cs: seq<Activity>)
    requires cs != []
    ensures FirstOfItsName(cs, |cs| - 1) <==> Sound(cs[|cs| - 1]) && cs[|cs| - 1].name !in SoundNames(cs[..|cs| - 1])
  {
    var init := cs[..|cs| - 1];
    var c := cs[|cs| - 1];
    if Sound(c) && c.name in SoundNames(init) {
      var j :| 0 <= j < |init| && Sound(init[j]) && init[j].name == c.name;
      assert cs[j] == init[j];
    }
    if Sound(c) && !FirstOfItsName(cs, |cs| - 1) {
      var j :| 0 <= j < |cs| - 1 && Sound(cs[j]) && cs[j].name == c.name;
      assert init[j] == cs[j];
    }
  }

  /**
   * The pass over the rows keeps exactly the first sound row of each name, in input
   * order, and reports exactly one error for every other row with a name.
   */
  lemma {:induction false} ScanFacts(cs: seq<Activity>)
    ensures ScanAll(cs).accepted == FirstOccurrences(cs)
    ensures Names(ScanAll(cs).accepted) == SoundNames(cs)
    ensures |ScanAll(cs).accepted| + |ScanAll(cs).errors| == NamedRows(cs)
  {
    if cs != [] {
      var init := cs[..|cs| - 1];
      var c := cs[|cs| - 1];
      ScanFacts(init);
      SoundNamesStep(cs);
      FirstStep(cs);
      var s := ScanAll(init);
      if Judge(Names(s.accepted), c).Accept? {
        NamesAppend(s.accepted, c);
      }
    }
  }

  /** Accepted activities have pairwise distinct names, durations >= 0 and are not their own predecessors. */
  lemma {:induction false} ScanSound(cs: seq<Activity>)
    ensures DistinctNames(ScanAll(cs).accepted)
    ensures forall a :: a in ScanAll(cs).accepted ==> Sound(a)
  {
    if cs != [] {
      var init := cs[..|cs| - 1];
      var c := cs[|cs| - 1];
      ScanSound(init);
      var s := ScanAll(init);
      if Judge(Names(s.accepted), c).Accept? {
        var acc := s.accepted + [c];
        forall i, j | 0 <= i < j < |acc| ensures acc[i].name != acc[j].name {
          if j == |acc| - 1 {
            NameAt(s.accepted, i);
          }
        }
      }
    }
  }

  /** A row with an empty name changes nothing. */
  lemma SkipsUnnamed(cs: seq<Activity>, c: Activity)
    requires c.name == []
    ensures ScanAll(cs + [c]) == ScanAll(cs)
    ensures NamedRows(cs + [c]) == NamedRows(cs)
  {
    assert (cs + [c])[..|cs|] == cs;
  }

  /** A row after a sound row of the same name is reported, never added: the first occurrence wins. */
  lemma LaterDuplicateRejected(cs: seq<Activity>, j: nat, c: Activity)
    requires j < |cs| && Sound(cs[j]) && cs[j].name == c.name
    ensures ScanAll(cs + [c]).accepted == ScanAll(cs).accepted
    ensures |ScanAll(cs + [c]).errors| == |ScanAll(cs).errors| + 1
  {
    assert (cs + [c])[..|cs|] == cs;
    ScanFacts(cs);
  }

  // ---- Unknown predecessors ----

  /** The errors for the predecessors of activity `a` that are not accepted names, in order, repeats kept. */
  function UnknownIn(ps: seq<string>, a: string, names: set<string>): (r: seq<Error>)
    ensures forall e :: e in r ==> e.UnknownPredecessor? && e.activity == a && e.pred in ps && e.pred !in names
  {
    if ps == [] then []
    else
      UnknownIn(ps[..|ps| - 1], a, names) +
      (if ps[|ps| - 1] in names then [] else [UnknownPredecessor(ps[|ps| - 1], a)])
  }

  /** The unknown-predecessor errors of all activities, in the order of the nested `forEach`. */
  function UnknownErrors(acts: seq<Activity>, names: set<string>): seq<Error> {
    if acts == [] then []
    else
      var a := acts[|acts| - 1];
      UnknownErrors(acts[..|acts| - 1], names) + UnknownIn(a.predecessors, a.name, names)
  }

  /** Every occurrence of an unknown name gets its own error: repeated tokens are not collapsed. */
  lemma {:induction false} UnknownCounts(ps: seq<string>, a: string, names: set<string>, p: string)
    ensures multiset(UnknownIn(ps, a, names))[UnknownPredecessor(p, a)] ==
            if p in names then 0 else multiset(ps)[p]
  {
    if ps != [] {
      UnknownCounts(ps[..|ps| - 1], a, names, p);
      assert ps == ps[..|ps| - 1] + [ps[|ps| - 1]];
    }
  }

  /** Every predecessor of every activity is one of the names. */
  predicate AllKnown(acts: seq<Activity>, names: set<string>) {
    forall i, p :: 0 <= i < |acts| && p in acts[i].predecessors ==> p in names
  }

  lemma {:induction false} UnknownInEmpty(ps: seq<string>, a: string, names: set<string>)
    ensures UnknownIn(ps, a, names) == [] <==> forall p :: p in ps ==> p in names
  {
    if ps != [] {
      UnknownInEmpty(ps[..|ps| - 1], a, names);
      assert ps == ps[..|ps| - 1] + [ps[|ps| - 1]];
    }
  }

  /** No unknown-predecessor error is reported exactly when every predecessor is known. */
  lemma {:induction false} UnknownErrorsEmpty(acts: seq<Activity>, names: set<string>)
    ensures UnknownErrors(acts, names) == [] <==> AllKnown(acts, names)
  {
    if acts != [] {
      var init := acts[..|acts| - 1];
      var a := acts[|acts| - 1];
      UnknownErrorsEmpty(init, names);
      UnknownInEmpty(a.predecessors, a.name, names);
      if AllKnown(init, names) && forall p :: p in a.predecessors ==> p in names {
        forall i, p | 0 <= i < |acts| && p in acts[i].predecessors ensures p in names {
          if i < |init| {
            assert acts[i] == init[i];
          }
        }
      }
      if AllKnown(acts, names) {
        forall i, p | 0 <= i < |init| && p in init[i].predecessors ensures p in names {
          assert init[i] == acts[i];
        }
        assert forall p :: p in a.predecessors ==> p in names;
      }
    }
  }

  /** The network collectActivities lets through to the scheduler. */
  ghost predicate Validated(acts: seq<Activity>) {
    DistinctNames(acts) && (forall a :: a in acts ==> Sound(a)) &&
    AllKnown(acts, Names(acts)) && !HasCycle(acts)
  }

  /** All the errors collectActivities reports for `rows`, in the order it reports them. */
  ghost function AllErrors(rows: seq<Row>): seq<Error> {
    var acts := ScanRows(rows).accepted;
    ScanRows(rows).errors + UnknownErrors(acts, Names(acts)) + (if HasCycle(acts) then [CyclicDependencies] else [])
  }

  /** collectActivities succeeds exactly when every named row is accepted and the result is a valid network. */
  lemma CollectOk(rows: seq<Row>)
    ensures AllErrors(rows) == [] <==>
      |ScanRows(rows).accepted| == NamedRows(Candidates(rows)) && Validated(ScanRows(rows).accepted)
  {
    var acts := ScanRows(rows).accepted;
    ScanFacts(Candidates(rows));
    ScanSound(Candidates(rows));
    UnknownErrorsEmpty(acts, Names(acts));
  }

  /**
   * `collectActivities()`: the activities it leaves in the global array, the errors it
   * would show, and its boolean answer. When it succeeds, the ghost `rank` is a
   * topological numbering of the network.
   */
  method CollectActivities(rows: seq<Row>) returns (ok: bool, acts: seq<Activity>, errors: seq<Error>, ghost rank: seq<nat>)
    ensures acts == ScanRows(rows).accepted && acts == FirstOccurrences(Candidates(rows))
    ensures errors == AllErrors(rows)
    ensures ok <==> errors == []
    ensures DistinctNames(acts) && forall a :: a in acts ==> Sound(a)
    ensures ok ==> Validated(acts) && IsRanking(acts, rank)
  {
    var activityNames;
    acts, activityNames, errors := ReadRows(rows);
    ScanFacts(Candidates(rows));
    ScanSound(Candidates(rows));
    var unknown := ReportUnknown(acts, activityNames);
    errors := errors + unknown;
    var cyclic;
    cyclic, rank := HasCyclicDependencies(acts);
    if cyclic {
      errors := errors + [CyclicDependencies];
    }
    ok := |errors| == 0;
    UnknownErrorsEmpty(acts, Names(acts));
  }

  /** The `rows.forEach` pass: normalise every row and accept it or report it. */
  method ReadRows(rows: seq<Row>) returns (acts: seq<Activity>, activityNames: set<string>, errors: seq<Error>)
    ensures Scan(acts, errors) == ScanRows(rows)
    ensures activityNames == Names(acts)
  {
    acts := [];
    activityNames := {};
    errors := [];
    ghost var cs := Candidates(rows);
    var k := 0;
    while k < |rows|
      invariant 0 <= k <= |rows|
      invariant Scan(acts, errors) == ScanAll(cs[..k])
      invariant activityNames == Names(acts)
    {
      var row := rows[k];
      var name := NormalizeName(row.nameText);
      var predecessors := PredecessorTokens(row.predecessorsText);
      ScanNext(cs, k);
      acts, activityNames, errors := ReadRow(acts, activityNames, errors, Activity(name, row.duration, predecessors));
      k := k + 1;
    }
    assert cs[..k] == cs;
  }

  /** The body of the `rows.forEach` pass for one normalised row: the checks of Judge, in the same order. */
  method ReadRow(acts: seq<Activity>, activityNames: set<string>, errors: seq<Error>, c: Activity)
    returns (acts': seq<Activity>, activityNames': set<string>, errors': seq<Error>)
    requires activityNames == Names(acts)
    ensures activityNames' == Names(acts')
    ensures Scan(acts', errors') == Step(Scan(acts, errors), c)
  {
    acts', activityNames', errors' := acts, activityNames, errors;
    if c.name != [] {
      if c.duration < 0 {
        errors' := errors + [NegativeDuration(c.name)];
      } else if c.name in activityNames {
        errors' := errors + [Duplicate(c.name)];
      } else if c.name in c.predecessors {
        errors' := errors + [SelfPredecessor(c.name)];
      } else {
        NamesAppend(acts, c);
        activityNames' := activityNames + {c.name};
        acts' := acts + [c];
      }
    }
  }

  /** The scan after one more row. */
  lemma ScanNext(cs: seq<Activity>, k: nat)
    requires k < |cs|
    ensures ScanAll(cs[..k + 1]) == Step(ScanAll(cs[..k]), cs[k])
  {
    assert cs[..k + 1][..k] == cs[..k];
  }

  /** The nested `forEach` that reports every predecessor that is not an accepted name. */
  method ReportUnknown(acts: seq<Activity>, activityNames: set<string>) returns (errors: seq<Error>)
    ensures errors == UnknownErrors(acts, activityNames)
  {
    errors := [];
    var t := 0;
    while t < |acts|
      invariant 0 <= t <= |acts|
      invariant errors == UnknownErrors(acts[..t], activityNames)
    {
      var a := acts[t];
      ghost var before := errors;
      var q := 0;
      while q < |a.predecessors|
        invariant 0 <= q <= |a.predecessors|
        invariant errors == before + UnknownIn(a.predecessors[..q], a.name, activityNames)
      {
        var pred := a.predecessors[q];
        assert a.predecessors[..q + 1][..q] == a.predecessors[..q];
        if pred !in activityNames {
          errors := errors + [UnknownPredecessor(pred, a.name)];
        }
        q := q + 1;
      }
      assert a.predecessors[..q] == a.predecessors;
      assert acts[..t + 1][..t] == acts[..t];
      t := t + 1;
    }
    assert acts[..t] == acts;
  }
}
