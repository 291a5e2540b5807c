/**
 * generateDiagram without its drawing: validate the rows, stop on errors or on an empty
 * table, schedule, extract the critical path as findCriticalPath does and lay the nodes
 * out from left to right.
 */
module Diagram {
  import opened Network
  import opened Validation
  import opened Forward
  import opened Pert
  import opened Critical
  import opened Layout

  datatype Outcome =
    | Rejected(errors: seq<Error>)
    | NoActivities
    | Drawn(entries: seq<Entry>, projectDuration: int, criticalPath: seq<string>, xs: map<string, int>)

  method GenerateDiagram(rows: seq<Row>) returns (out: Outcome)
    ensures out.Rejected? <==> AllErrors(rows) != []
    ensures out.Rejected? ==> out.errors == AllErrors(rows)
    ensures out.NoActivities? <==> AllErrors(rows) == [] && ScanRows(rows).accepted == []
    ensures out.Drawn? ==> DiagramOf(ScanRows(rows).accepted, out)
    ensures out.Drawn? && |ScanRows(rows).accepted| < MaxSweeps ==> out.criticalPath != []
  {
    var ok, acts, errors, rank := CollectActivities(rows);
    if !ok {
      return Rejected(errors);
    }
    if |acts| == 0 {
      return NoActivities;
    }
    out := Draw(acts, rank);
  }

  /** The last steps of generateDiagram on validated, non-empty input: schedule, then place. */
  method Draw(acts: seq<Activity>, ghost rank: seq<nat>) returns (out: Outcome)
    requires |acts| > 0 && Validated(acts) && IsRanking(acts, rank)
    ensures out.Drawn? && DiagramOf(acts, out)
    ensures |acts| < MaxSweeps ==> out.criticalPath != []
  {
    var entries, projectDuration, criticalPath := Schedule(acts, rank);
    var xs := Place(acts, rank);
    out := Drawn(entries, projectDuration, criticalPath, xs);
  }

  /** The drawn diagram of `acts`: calculatePERT's schedule of the validated (hence acyclic) activities, findCriticalPath of its entries, each activity right of its predecessors, INICIO left of every activity and FIN right of every activity. */
  ghost predicate DiagramOf(acts: seq<Activity>, out: Outcome)
    requires out.Drawn?
  {
    PertSchedule(acts, out.entries, out.projectDuration, true) &&
    out.criticalPath == FindCriticalPath(out.entries) &&
    out.xs.Keys == Names(acts) + {Start, End} &&
    (forall i, p :: 0 <= i < |acts| && p in acts[i].predecessors && p !in {Start, End} && acts[i].name !in {Start, End} ==>
      p in out.xs && acts[i].name in out.xs && out.xs[p] < out.xs[acts[i].name]) &&
    forall i :: 0 <= i < |acts| && acts[i].name !in {Start, End} ==>
      acts[i].name in out.xs && out.xs[Start] < out.xs[acts[i].name] < out.xs[End]
  }

  /**
   * calculatePERT followed by findCriticalPath. On validated input below the sweep cap
   * the path is not empty: some activity finishing at the project duration is critical.
   */
  method Schedule(acts: seq<Activity>, ghost rank: seq<nat>) returns (entries: seq<Entry>, projectDuration: int, criticalPath: seq<string>)
    requires |acts| > 0 && Validated(acts) && IsRanking(acts, rank)
    ensures PertSchedule(acts, entries, projectDuration, true)
    ensures criticalPath == FindCriticalPath(entries)
    ensures |acts| < MaxSweeps ==> criticalPath != []
  {
    entries, projectDuration := CalculatePert(acts, rank);
    criticalPath := FindCriticalPath(entries);
    if |acts| < MaxSweeps {
      forall a | a in acts ensures a.duration >= 0 {
        assert Sound(a);
      }
      var i :| 0 <= i < |acts| && entries[i].tf == projectDuration && entries[i].isCritical;
      assert entries[i].name in criticalPath;
    }
  }

  /** The levels and x-coordinates of calculateNodePositions on validated input. */
  method Place(acts: seq<Activity>, ghost rank: seq<nat>) returns (xs: map<string, int>)
    requires Validated(acts) && IsRanking(acts, rank)
    ensures xs.Keys == Names(acts) + {Start, End}
    ensures forall i, p :: 0 <= i < |acts| && p in acts[i].predecessors && p !in {Start, End} && acts[i].name !in {Start, End} ==>
      p in xs && acts[i].name in xs && xs[p] < xs[acts[i].name]
    ensures forall i :: 0 <= i < |acts| && acts[i].name !in {Start, End} ==>
      acts[i].name in xs && xs[Start] < xs[acts[i].name] < xs[End]
  {
    var levels, maxLevel := ComputeLevels(acts);
    LevelsComplete(acts, rank, levels, maxLevel);
    LayoutLeftToRight(acts, rank, levels, maxLevel);
    xs := Positions(levels, maxLevel);
  }
}
