/**
 * The horizontal layout of calculateNodePositions: each activity's level in the diagram,
 * the two boundary nodes INICIO and FIN, and the x-coordinate of every level.
 */
module Layout {
  import opened Network
  import opened Validation

  const Start: string := "INICIO"
  const End: string := "FIN"

  /**
   * The rule an activity's level follows once it has one: 1 for an activity without
   * predecessors, otherwise every predecessor has a lower level and one of them has
   * exactly one less, so the level is one more than the highest predecessor level.
   */
  ghost predicate LevelOk(acts: seq<Activity>, levels: map<string, int>, i: nat)
    requires i < |acts|
  {
    var a := acts[i];
    a.name in levels ==>
      if a.predecessors == [] then levels[a.name] == 1
      else
        (forall p :: p in a.predecessors ==> p in levels && levels[p] < levels[a.name]) &&
        (exists p :: p in a.predecessors && p in levels && levels[p] == levels[a.name] - 1)
  }

  /**
   * What the `levels` dictionary and `maxLevel` satisfy throughout: only activity names
   * have levels, levels lie between 1 and maxLevel, every level follows the rule, every
   * activity without predecessors has level 1, and maxLevel is 1 or some activity's level.
   */
  ghost predicate LevelsInv(acts: seq<Activity>, levels: map<string, int>, maxLevel: int) {
    levels.Keys <= Names(acts) &&
    (forall n :: n in levels ==> 1 <= levels[n] <= maxLevel) &&
    (forall i :: 0 <= i < |acts| ==> LevelOk(acts, levels, i)) &&
    (forall i :: 0 <= i < |acts| && acts[i].predecessors == [] ==> acts[i].name in levels) &&
    (maxLevel == 1 || exists n :: n in levels && levels[n] == maxLevel)
  }

  /** No sweep can add a level: every activity whose predecessors all have levels has one. */
  ghost predicate Saturated(acts: seq<Activity>, levels: map<string, int>) {
    forall i :: 0 <= i < |acts| && (forall p :: p in acts[i].predecessors ==> p in levels) ==>
      acts[i].name in levels
  }

  /** `levels` extends `levels0`: no level is removed or changed. */
  ghost predicate Extends(levels0: map<string, int>, levels: map<string, int>) {
    levels0.Keys <= levels.Keys && forall n :: n in levels0 ==> levels[n] == levels0[n]
  }

  /** The inner `forEach` over one activity's predecessors: whether all have a level, and the highest one. */
  method PredecessorLevels(levels: map<string, int>, preds: seq<string>)
    returns (allPredsHaveLevel: bool, maxPredLevel: int)
    requires forall n :: n in levels ==> levels[n] >= 1
    ensures allPredsHaveLevel <==> forall p :: p in preds ==> p in levels
    ensures maxPredLevel >= 0
    ensures forall p :: p in preds && p in levels ==> levels[p] <= maxPredLevel
    ensures maxPredLevel == 0 <==> forall p :: p in preds ==> p !in levels
    ensures maxPredLevel > 0 ==> exists p :: p in preds && p in levels && levels[p] == maxPredLevel
  {
    maxPredLevel := 0;
    allPredsHaveLevel := true;
    var k := 0;
    while k < |preds|
      invariant 0 <= k <= |preds| && maxPredLevel >= 0
      invariant allPredsHaveLevel <==> forall m :: 0 <= m < k ==> preds[m] in levels
      invariant forall m :: 0 <= m < k && preds[m] in levels ==> levels[preds[m]] <= maxPredLevel
      invariant maxPredLevel == 0 <==> forall m :: 0 <= m < k ==> preds[m] !in levels
      invariant maxPredLevel > 0 ==> exists m :: 0 <= m < k && preds[m] in levels && levels[preds[m]] == maxPredLevel
    {
      var pred := preds[k];
      if pred !in levels {
        allPredsHaveLevel := false;
      } else {
        maxPredLevel := if levels[pred] > maxPredLevel then levels[pred] else maxPredLevel;
      }
      k := k + 1;
    }
  }

  /** Giving activity `i` the level one above its highest predecessor keeps the invariant. */
  lemma AssignLevel(acts: seq<Activity>, levels: map<string, int>, maxLevel: int, i: nat, maxPredLevel: int)
    requires DistinctNames(acts) && LevelsInv(acts, levels, maxLevel)
    requires i < |acts| && acts[i].name !in levels
    requires forall p :: p in acts[i].predecessors ==> p in levels && levels[p] <= maxPredLevel
    requires maxPredLevel > 0 && exists p :: p in acts[i].predecessors && p in levels && levels[p] == maxPredLevel
    ensures var name := acts[i].name;
      var levels' := levels[name := maxPredLevel + 1];
      LevelsInv(acts, levels', if maxPredLevel + 1 > maxLevel then maxPredLevel + 1 else maxLevel) &&
      Extends(levels, levels')
  {
    var name := acts[i].name;
    var levels' := levels[name := maxPredLevel + 1];
    var maxLevel' := if maxPredLevel + 1 > maxLevel then maxPredLevel + 1 else maxLevel;
    NameAt(acts, i);
    assert acts[i].predecessors != [];
    forall j | 0 <= j < |acts| ensures LevelOk(acts, levels', j) {
      if j != i {
        assert acts[j].name != name;
        assert LevelOk(acts, levels, j);
        if acts[j].name in levels' && acts[j].predecessors != [] {
          var p :| p in acts[j].predecessors && p in levels && levels[p] == levels[acts[j].name] - 1;
          assert levels'[p] == levels'[acts[j].name] - 1;
        }
      } else {
        var p :| p in acts[i].predecessors && p in levels && levels[p] == maxPredLevel;
        assert levels'[p] == maxPredLevel;
      }
    }
    assert maxLevel' == 1 || exists n :: n in levels' && levels'[n] == maxLevel' by {
      if maxPredLevel + 1 > maxLevel {
        assert levels'[name] == maxLevel';
      } else if maxLevel != 1 {
        var n :| n in levels && levels[n] == maxLevel;
        assert levels'[n] == maxLevel';
      }
    }
  }

  /**
   * One pass of the `while (changed)` loop over all activities. Levels given earlier are
   * kept; an unchanged pass leaves the dictionary saturated.
   */
  method LevelSweep(acts: seq<Activity>, levels0: map<string, int>, maxLevel0: int)
    returns (levels: map<string, int>, maxLevel: int, changed: bool)
    requires DistinctNames(acts) && LevelsInv(acts, levels0, maxLevel0)
    ensures LevelsInv(acts, levels, maxLevel) && Extends(levels0, levels)
    ensures changed <==> levels.Keys != levels0.Keys
    ensures !changed ==> levels == levels0 && maxLevel == maxLevel0 && Saturated(acts, levels)
  {
    levels, maxLevel, changed := levels0, maxLevel0, false;
    var i := 0;
    while i < |acts|
      invariant 0 <= i <= |acts|
      invariant LevelsInv(acts, levels, maxLevel) && Extends(levels0, levels)
      invariant changed <==> levels.Keys != levels0.Keys
      invariant !changed ==> levels == levels0 && maxLevel == maxLevel0
      invariant !changed ==> forall j :: 0 <= j < i && (forall p :: p in acts[j].predecessors ==> p in levels) ==>
        acts[j].name in levels
    {
      var activity := acts[i];
      if activity.name !in levels {
        var allPredsHaveLevel, maxPredLevel := PredecessorLevels(levels, activity.predecessors);
        if allPredsHaveLevel && maxPredLevel >= 0 {
          assert activity.predecessors != [];
          assert maxPredLevel > 0 by {
            assert activity.predecessors[0] in levels;
          }
          AssignLevel(acts, levels, maxLevel, i, maxPredLevel);
          levels := levels[activity.name := maxPredLevel + 1];
          maxLevel := if levels[activity.name] > maxLevel then levels[activity.name] else maxLevel;
          changed := true;
        }
      }
      i := i + 1;
    }
  }

  lemma FewerUnassigned(names: set<string>, keys0: set<string>, keys: set<string>)
    requires keys0 <= keys <= names && keys != keys0
    ensures |names - keys| < |names - keys0|
  {
    var n :| n in keys && n !in keys0;
    var gained := keys - keys0;
    assert n in gained;
    assert names - keys0 == (names - keys) + gained;
    assert (names - keys) * gained == {};
    assert |gained| >= 1;
  }

  /**
   * The level computation of calculateNodePositions: level 1 for every activity without
   * predecessors, then passes until one changes nothing. The loop has no cap; it stops
   * because every changing pass gives one more activity a level.
   */
  method ComputeLevels(acts: seq<Activity>) returns (levels: map<string, int>, maxLevel: int)
    requires DistinctNames(acts)
    ensures LevelsInv(acts, levels, maxLevel)
    ensures Saturated(acts, levels)
  {
    levels := map[];
    var i := 0;
    while i < |acts|
      invariant 0 <= i <= |acts|
      invariant forall j :: 0 <= j < |acts| ==> (acts[j].name in levels <==> j < i && acts[j].predecessors == [])
      invariant levels.Keys <= Names(acts)
      invariant forall n :: n in levels ==> levels[n] == 1
    {
      if acts[i].predecessors == [] {
        NameAt(acts, i);
        levels := levels[acts[i].name := 1];
      }
      i := i + 1;
    }
    maxLevel := 1;
    assert forall j :: 0 <= j < |acts| ==> LevelOk(acts, levels, j);
    var changed := true;
    while changed
      invariant LevelsInv(acts, levels, maxLevel)
      invariant !changed ==> Saturated(acts, levels)
      decreases if changed then |Names(acts) - levels.Keys| + 1 else 0
    {
      ghost var keys0 := levels.Keys;
      levels, maxLevel, changed := LevelSweep(acts, levels, maxLevel);
      if changed {
        FewerUnassigned(Names(acts), keys0, levels.Keys);
      }
    }
  }

  /**
   * In a ranked network whose predecessors are all activity names, a saturated
   * dictionary gives every activity a level.
   */
  lemma {:induction false} AllLevelled(acts: seq<Activity>, rank: seq<nat>, levels: map<string, int>, r: nat)
    requires DistinctNames(acts) && IsRanking(acts, rank) && AllKnown(acts, Names(acts))
    requires Saturated(acts, levels)
    ensures forall i :: 0 <= i < |acts| && rank[i] < r ==> acts[i].name in levels
  {
    if r > 0 {
      AllLevelled(acts, rank, levels, r - 1);
      forall i | 0 <= i < |acts| && rank[i] < r ensures acts[i].name in levels {
        forall p | p in acts[i].predecessors ensures p in levels {
          var j := IndexOf(acts, p).value;
          assert Edge(acts, i, j);
        }
      }
    }
  }

  /** On validated, acyclic input every activity gets a level, following the rule. */
  lemma LevelsComplete(acts: seq<Activity>, rank: seq<nat>, levels: map<string, int>, maxLevel: int)
    requires DistinctNames(acts) && IsRanking(acts, rank) && AllKnown(acts, Names(acts))
    requires LevelsInv(acts, levels, maxLevel) && Saturated(acts, levels)
    ensures levels.Keys == Names(acts)
    ensures forall i, p :: 0 <= i < |acts| && p in acts[i].predecessors ==>
      p in levels && levels[p] < levels[acts[i].name]
  {
    AllLevelled(acts, rank, levels, |acts|);
    forall n | n in Names(acts) ensures n in levels {
      var i := IndexOf(acts, n).value;
    }
    forall i, p | 0 <= i < |acts| && p in acts[i].predecessors
      ensures p in levels && levels[p] < levels[acts[i].name]
    {
      assert LevelOk(acts, levels, i);
    }
  }

  /** `levels['INICIO'] = 0; levels['FIN'] = maxLevel + 1`: these overwrite an activity of either name. */
  function WithBoundaries(levels: map<string, int>, maxLevel: int): (r: map<string, int>)
    ensures r.Keys == levels.Keys + {Start, End}
    ensures r[Start] == 0 && r[End] == maxLevel + 1
    ensures forall n :: n in levels && n != Start && n != End ==> r[n] == levels[n]
  {
    levels[Start := 0][End := maxLevel + 1]
  }

  /** Every activity level lies strictly between INICIO's and FIN's. */
  lemma BoundariesEnclose(acts: seq<Activity>, levels: map<string, int>, maxLevel: int)
    requires LevelsInv(acts, levels, maxLevel)
    ensures var r := WithBoundaries(levels, maxLevel);
      forall n :: n in r && n != Start && n != End ==> r[Start] < r[n] < r[End]
  {
  }

  /** `50 + level * 200`. */
  function X(level: int): (x: int)
    ensures level >= 0 ==> x >= 50
  {
    50 + level * 200
  }

  /** Horizontal positions grow with the level, so an order on levels is an order on x. */
  lemma XMonotonic(a: int, b: int)
    ensures a < b <==> X(a) < X(b)
  {
  }

  /**
   * The x-coordinates of calculateNodePositions: INICIO at 50, FIN at `50 + (maxLevel + 1) * 200`,
   * every other name at `50 + level * 200`.
   */
  function Positions(levels: map<string, int>, maxLevel: int): (xs: map<string, int>)
    ensures xs.Keys == WithBoundaries(levels, maxLevel).Keys
  {
    var all := WithBoundaries(levels, maxLevel);
    map n | n in all.Keys :: if n == Start then 50 else if n == End then 50 + (maxLevel + 1) * 200 else X(all[n])
  }

  /** The fixed x of INICIO and FIN is the one their levels give, so every node sits at its level's x. */
  lemma PositionsFollowLevels(levels: map<string, int>, maxLevel: int)
    ensures var all := WithBoundaries(levels, maxLevel);
      forall n :: n in all ==> Positions(levels, maxLevel)[n] == X(all[n])
  {
  }

  /**
   * On validated, acyclic input each activity is drawn right of all its predecessors,
   * INICIO left of all and FIN right of all (for activities not themselves named INICIO or FIN).
   */
  lemma LayoutLeftToRight(acts: seq<Activity>, rank: seq<nat>, levels: map<string, int>, maxLevel: int)
    requires DistinctNames(acts) && IsRanking(acts, rank) && AllKnown(acts, Names(acts))
    requires LevelsInv(acts, levels, maxLevel) && Saturated(acts, levels)
    ensures var xs := Positions(levels, maxLevel);
      forall i, p :: 0 <= i < |acts| && p in acts[i].predecessors && p !in {Start, End} && acts[i].name !in {Start, End} ==>
        p in xs && acts[i].name in xs && xs[p] < xs[acts[i].name]
    ensures var xs := Positions(levels, maxLevel);
      forall i :: 0 <= i < |acts| && acts[i].name !in {Start, End} ==>
        acts[i].name in xs && xs[Start] < xs[acts[i].name] < xs[End]
  {
    LevelsComplete(acts, rank, levels, maxLevel);
    PositionsFollowLevels(levels, maxLevel);
    BoundariesEnclose(acts, levels, maxLevel);
    var all := WithBoundaries(levels, maxLevel);
    forall i | 0 <= i < |acts| ensures acts[i].name in levels {
      NameAt(acts, i);
    }
    forall i, p | 0 <= i < |acts| && p in acts[i].predecessors && p !in {Start, End} && acts[i].name !in {Start, End}
      ensures X(all[p]) < X(all[acts[i].name])
    {
      XMonotonic(all[p], all[acts[i].name]);
    }
    forall i | 0 <= i < |acts| && acts[i].name !in {Start, End}
      ensures X(all[Start]) < X(all[acts[i].name]) < X(all[End])
    {
      XMonotonic(all[Start], all[acts[i].name]);
      XMonotonic(all[acts[i].name], all[End]);
    }
  }
}
