# PERT generator scheduling core, in Dafny

This is a model of the scheduling engine of the PERT diagram generator `script.js`, with proofs. The engine has these parts:

- **`collectActivities`** reads the table rows. It normalises names and predecessor lists, rejects bad rows, and reports unknown predecessors and cycles.
- **`hasCyclicDependencies`** is a depth-first search with a `visited` set and a `recursionStack` set.
- **`calculatePERT`** runs the CPM schedule:
  - a forward pass (TE/TF) capped at 100 sweeps;
  - the project duration;
  - a backward pass (TL) that seeds the activities without successors, also capped at 100 sweeps;
  - TI, slack and criticality;
  - the synthetic three-point estimates, which overwrite `te` with the duration.
- **`findCriticalPath`** keeps the critical activities and stable-sorts them by `te`.
- **Level assignment in `calculateNodePositions`** uses an uncapped fixed-point loop. It puts INICIO at level 0, FIN at `maxLevel + 1`, and each node at x = `50 + level * 200`.

The modules follow that structure:

| file | module | part of the source |
|---|---|---|
| `text.dfy` | `Wrappers`, `Text` | `trim`, ASCII `toUpperCase`, `split(',')`, `.map(trim)`, `.filter(p => p)` |
| `network.dfy` | `Network` | the activity record, name lookup, the predecessor graph, cycles and topological rankings |
| `validation.dfy` | `Validation` | `collectActivities` |
| `cycles.dfy` | `Cycles` | `hasCyclicDependencies`; the class `CycleDetector` holds `visited` and `recursionStack` |
| `forward.dfy` | `Forward` | forward pass |
| `backward.dfy` | `Backward` | project duration and backward pass |
| `pert.dfy` | `Pert` | `calculatePERT` as a whole, slack, criticality and estimates |
| `critical.dfy` | `Critical` | `findCriticalPath` |
| `layout.dfy` | `Layout` | levels and x-coordinates of `calculateNodePositions` |
| `diagram.dfy` | `Diagram` | the computational steps of `generateDiagram` |

How the model represents the source:

- **Table rows** are a sequence of `Row(nameText, duration, predecessorsText)`. The duration is the integer `parseInt(...) || 0` already yields.
- **The `activityMap` dictionary** is a set of sequences indexed like `activities`. This works because names are distinct after validation.
- **Errors** are a datatype, one constructor per message.
- **Time values** are `int`, so the `< 0.0001` slack tolerance is exactly `slack == 0`. Sigma and variance are `real`.
- **Mutable steps** are methods with loop invariants: the row loop, the DFS, both `while (changed && iterations < 100)` passes, and the `while (changed)` level loop.
- **Specification functions:** each method is proved against a function or predicate that specifies it, and the properties are proved about those.
- **Acyclicity** is witnessed by a ghost topological numbering (`IsRanking`), which the DFS returns when it finds no cycle.

## Model

| member | source | states |
|---|---|---|
| Text.TrimIsSlice | script.js:78 | `trim` returns a slice of the input that has no white space at either end, and everything it removed is white space |
| Text.TrimIdempotent | script.js:81 | trimming twice is trimming once |
| Text.Upper | script.js:78 | upper-casing keeps the length, raises exactly the ASCII lower-case letters by 32 and leaves no lower-case letter |
| Text.UpperKeepsSpacesAndCommas | script.js:80-81 | upper-casing changes no white space and no comma, so upper-casing before splitting keeps the same commas and white space |
| Text.UpperIdempotent | script.js:80 | upper-casing an upper-case string changes nothing |
| Text.Split | script.js:81 | `split(',')` gives at least one piece, and no piece contains the separator |
| Text.JoinSplit | script.js:81 | joining the pieces of a split with the separator gives back the input |
| Text.SplitJoin | script.js:81 | splitting a join of separator-free pieces gives back the pieces |
| Text.TrimEach | script.js:81 | `.map(p => p.trim())`: every result piece has no white space at either end and is the inner slice of the piece at the same position, and everything removed from that piece is white space |
| Text.DropEmpty | script.js:81 | `.filter(p => p)` drops every empty piece. It keeps each non-empty piece as often as it occurs, so repeated tokens are not collapsed, and in input order (a subsequence of the input) |
| Text.TokensWellFormed | script.js:80-81 | every predecessor token is non-empty, trimmed, upper-case and comma-free |
| Text.SingleToken | script.js:80-81 | a cell without commas names exactly one predecessor, its normalised text |
| Network.IndexOf | script.js:143 | `activities.find` by name: the first activity of that name, or None exactly when no activity has it |
| Network.IndexOfOwnName | script.js:168 | with distinct names, looking up an activity's own name finds that activity |
| Network.NamesAppend | script.js:100-101 | pushing an activity adds exactly its name to the name set |
| Network.RankDecreasesAlongPath | script.js:126-160 | along a walk of predecessor edges, a topological ranking strictly decreases |
| Network.RankingExcludesCycle | script.js:126-160 | a network that has a ranking has no cycle |
| Validation.Judge | script.js:83-98 | skipped iff the name is empty, accepted iff sound and new. A named row with a negative duration gets the negative-duration message whatever else is wrong; otherwise a known name gets the duplicate message; otherwise a self-listing row gets the self-predecessor message |
| Validation.ScanFacts | script.js:77-103 | the row loop keeps exactly the first sound row of each name, in input order, has the sound names as its names, and reports one error for every other named row |
| Validation.ScanSound | script.js:83-101 | accepted activities have distinct names, durations >= 0 and do not list themselves |
| Validation.SkipsUnnamed | script.js:83 | a row whose trimmed name is empty changes neither the activities nor the errors |
| Validation.LaterDuplicateRejected | script.js:90-93 | a row after a sound row of the same name adds one error and no activity: the first occurrence wins |
| Validation.UnknownIn | script.js:106-110 | every error for an activity's predecessors names that activity and a predecessor that is not an activity name |
| Validation.UnknownCounts | script.js:105-111 | each occurrence of an unknown predecessor gives its own error, so repeats are not collapsed |
| Validation.UnknownErrorsEmpty | script.js:105-111 | there is no unknown-predecessor error iff every predecessor is an activity name |
| Validation.CollectOk | script.js:105-123 | no error at all iff every named row was accepted and the network is valid (distinct, sound, all predecessors known, acyclic) |
| Validation.ReadRows | script.js:74-103 | the row loop computes the accepted activities and row errors of the reference scan, and `activityNames` is the set of their names |
| Validation.ReadRow | script.js:83-101 | one row of the loop does what `Judge` decides: nothing for an empty name, one error for a rejected row, the activity appended for an accepted one, with `activityNames` kept equal to the accepted names |
| Validation.ReportUnknown | script.js:105-111 | the nested `forEach` produces exactly the unknown-predecessor errors, in order |
| Validation.CollectActivities | script.js:71-124 | returns the first occurrences, all errors in the source's order, true iff there are none, and on success a valid network with a topological ranking |
| Cycles.CycleOnStack | script.js:131-133 | meeting a name already on the recursion stack closes a cycle in the network |
| Cycles.Push | script.js:139-140 | entering an unvisited activity keeps the search invariant |
| Cycles.Pop | script.js:149-150 | leaving an activity after its predecessors keeps the invariant and marks it finished, numbered after all its predecessors |
| Cycles.ExploredNext | script.js:142-147 | one more predecessor examined, unknown names skipped: all examined predecessors are finished |
| Cycles.CycleDetector.constructor | script.js:127-128 | empty `visited` and `recursionStack` |
| Cycles.CycleDetector.Dfs | script.js:130-151 | `dfs`: true only if the network has a cycle; on false, the activity is finished, the stack is restored, and visited only grows |
| Cycles.CycleDetector.Enter | script.js:139-140 | adds the name to `visited` and `recursionStack`, and the unvisited set shrinks |
| Cycles.CycleDetector.VisitPredecessors | script.js:142-147 | the loop over predecessors: a cycle if any call finds one, else every known predecessor is finished |
| Cycles.CycleDetector.Leave | script.js:149 | removes the name from `recursionStack`, and only that |
| Cycles.HasCyclicDependencies | script.js:126-160 | true iff the predecessor graph has a cycle; when false, a topological ranking of the activities |
| Cycles.FinishingOrder | script.js:153-157 | after the outer loop, the DFS finishing order is a topological ranking |
| Forward.PredFinish | script.js:191-197 | `maxPredFinish`: never negative |
| Forward.PredFinishIsMax | script.js:191-197 | `maxPredFinish` bounds the TF of every known predecessor and equals one of them, or 0 |
| Forward.PredFinishAgree | script.js:194 | `maxPredFinish` reads only the TF of predecessors that are activities |
| Forward.MaxPredFinish | script.js:191-197 | the predecessor loop computes `maxPredFinish` |
| Forward.PredFinishUpdate | script.js:203-204 | storing a new TF changes the `maxPredFinish` of no activity that does not list it |
| Forward.Sweep | script.js:189-208 | one sweep in input order: TF = TE + duration and TE >= 0. With no change it is the fixed point. In a ranked network it settles one more rank, and a change implies fewer ranks than activities |
| Forward.ForwardPass | script.js:183-209 | at most 100 sweeps. If converged, a fixed point (TE = max(0, TF of known predecessors), TF = TE + duration). An acyclic network of fewer than 100 activities converges within n + 1 sweeps |
| Forward.RootStartsAtZero | script.js:191-200 | at the fixed point an activity without known predecessors has TE = 0 and TF = duration |
| Forward.StartIsLatestPredecessorFinish | script.js:191-200 | at the fixed point TE is at least every predecessor's TF and equals one of them, or 0 |
| Forward.FixpointUnique | script.js:183-209 | in an acyclic network the forward fixed point is unique |
| Backward.MaxOf | script.js:214 | `Math.max(...)`: at least every element and equal to one |
| Backward.MinOf | script.js:254 | `Math.min(...)`: an element, at most every element |
| Backward.Successors | script.js:243-245 | exactly the activities that list the given one |
| Backward.LateStarts | script.js:248-253 | `Infinity` appears in the list iff some successor's TL is still -1, which is what the `includes(Infinity)` test at line 253 asks |
| Backward.SetCountGrows | script.js:255-256 | setting a TL that was -1, without unsetting any, raises the count of set TLs |
| Backward.NothingStuck | script.js:239-262 | in an acyclic network with sinks seeded, if every unset activity waits on an unset successor, nothing is unset |
| Backward.SuccessorMinimum | script.js:243-254 | found iff the activity has successors and all have a TL; then the minimum of their `tl - duration`, attained by one of them |
| Backward.Visit | script.js:240-260 | one activity's step keeps the backward invariant and leaves every TL set before the sweep as it was; on a scheduled network TLs stay in bounds |
| Backward.BackSweep | script.js:239-261 | one sweep keeps the backward invariant and freezes set TLs; no change means every unset activity waits on an unset successor. On a scheduled network TLs stay between TF and the project duration |
| Backward.BackwardPass | script.js:220-262 | sinks get the project duration; every TL that is set is the min over successors of `tl - duration`; at most 100 sweeps. On an acyclic scheduled network of fewer than 100 activities it converges with every TL set |
| Pert.IsCritical | script.js:271 | `isCritical` iff slack is 0 (integer times) |
| Pert.SigmaFormula | script.js:281-288 | sigma = (tp − to)/6 = 3/6 from a duration of 2 on, so sigma = 1/2 and variance = 1/4; below that (d + 1)/6 |
| Pert.DurationFive | script.js:281-288 | for duration 5: to = 4, tp = 7, variance = 0.25 |
| Pert.FinishingSink | script.js:214-230 | some activity without successors finishes at the project duration |
| Pert.CriticalAtEnd | script.js:267-271 | on a scheduled acyclic network some activity with TF = project duration has TL = project duration, hence slack 0 |
| Pert.Finish | script.js:267-291 | TI = TL − duration, slack = TI − TE using the forward-pass TE, criticality, then the estimates, with `te` overwritten by the duration |
| Pert.CalculatePert | script.js:162-297 | `PertSchedule`: each entry keeps its activity's fields; te = duration; the project duration is the largest TF; TLs satisfy the backward invariant. On acyclic input of fewer than 100 activities: the forward values are the fixed point, and with durations >= 0 every TL is set, TF <= TL <= project duration, slack >= 0, and an activity with TF = project duration is critical |
| Critical.CriticalBelow | script.js:300 | the filter keeps exactly the critical indices, in input order |
| Critical.Insert | script.js:301 | inserting into a sorted list keeps it sorted by the key with ties in input order, and is a permutation |
| Critical.SortBy | script.js:301 | the stable sort: sorted by the key with ties in input order, a permutation of its input |
| Critical.SortedUnique | script.js:301 | two sorted sequences with the same elements are equal, so the stable order is determined |
| Critical.CriticalOrderCorrect | script.js:299-303 | `findCriticalPath` lists every critical activity exactly once and nothing else, sorted by `te`, ties in input order |
| Critical.CriticalOrderCharacterised | script.js:299-303 | any sequence of exactly the critical activities sorted that way is `findCriticalPath`'s order |
| Critical.FindCriticalPath | script.js:299-303 | the names, in order, of a list of indices that holds every critical activity exactly once and nothing else, sorted by `te` with ties in input order; every critical activity's name is on the path |
| Critical.PathByDurationOutOfOrder | script.js:284-301 | on the chain A(5) → B(2), `findCriticalPath` gives ["B", "A"] although A starts at 0 and B at 5 |
| Critical.ChainIsSchedule | script.js:183-262 | the chain entries used above are the forward fixed point and satisfy the backward invariant for project duration 7 |
| Critical.PathByStartFollowsDependencies | script.js:299-303 | ordered by early start, the path lists every critical activity once, and a critical predecessor of positive duration comes first |
| Critical.FindCriticalPathByStart | script.js:299-303 | corrected order: the names of a list holding every critical activity exactly once and nothing else, sorted by early start (TF − duration) with ties in input order; every critical activity's name is on the path |
| Layout.PredecessorLevels | script.js:663-670 | `allPredsHaveLevel` iff every predecessor has a level; `maxPredLevel` is the highest of those levels, or 0 |
| Layout.AssignLevel | script.js:672-675 | giving an activity one more than its highest predecessor level keeps the level invariant |
| Layout.LevelSweep | script.js:661-680 | one pass keeps every level already given; `changed` iff a level was added; no change means saturated |
| Layout.ComputeLevels | script.js:651-681 | roots get 1, and every level is 1 + the highest predecessor level; `maxLevel` >= 1 is the highest level; the loop ends with no activity whose predecessors all have levels left without one |
| Layout.LevelsComplete | script.js:651-681 | on acyclic input with known predecessors every activity gets a level, higher than each of its predecessors' |
| Layout.WithBoundaries | script.js:683-684 | INICIO gets 0, FIN gets `maxLevel + 1`, other names keep their level |
| Layout.BoundariesEnclose | script.js:683-684 | every other level lies strictly between INICIO's and FIN's |
| Layout.XMonotonic | script.js:703 | x = 50 + level * 200 is strictly increasing in the level |
| Layout.PositionsFollowLevels | script.js:693-710 | every node's x is `50 + level * 200` for its level; this covers INICIO's fixed x of 50 (level 0) and FIN's `50 + (maxLevel + 1) * 200` |
| Layout.LayoutLeftToRight | script.js:647-710 | on validated input each activity lies right of its predecessors, INICIO left of every activity and FIN right of every activity |
| Diagram.Schedule | script.js:575-576 | the entries and project duration are calculatePERT's schedule of the acyclic input (`PertSchedule`: largest TF, fixed point, backward invariant, slack >= 0 below 100 activities), followed by `findCriticalPath` as written; below 100 activities the path is non-empty |
| Diagram.Place | script.js:647-710 | every activity and both boundary nodes get an x, activities lie right of their predecessors, INICIO left of every activity and FIN right of every activity |
| Diagram.Draw | script.js:575-616 | on validated non-empty input the outcome is drawn: calculatePERT's entries and project duration (`PertSchedule`), `findCriticalPath` of those entries (non-empty below 100 activities), and the positions of `calculateNodePositions` with every activity right of its predecessors, INICIO left of all of them and FIN right of all of them |
| Diagram.GenerateDiagram | script.js:565-576 | rejected iff collectActivities reports errors (with those errors); nothing to draw iff there are none and no activity; otherwise the entries and project duration calculatePERT returns (`PertSchedule`), the path `findCriticalPath` returns (non-empty below 100 activities) and a layout with every activity right of its predecessors, INICIO left of all of them and FIN right of all of them |

## Left out

- DOM reads, `alert` and `console.log`. The rows are a parameter, and the messages are `Error` values rather than Spanish strings.
- `parseInt(...) || 0` on the duration cell. `Row.duration` carries its integer result.
- `toUpperCase` beyond ASCII. `Text.Upper` raises only `a`–`z`.
- The global `activities` array. It is returned from `CollectActivities` rather than assigned; the model has no global state.
- `activityMap`, keyed by name, is modelled as sequences indexed like `activities`. `CalculatePert` requires distinct names, which validation guarantees.
- Floating point. Times are integers, so `Math.abs(slack) < 0.0001` is exact equality. Sigma and variance are exact `real` values, and `toFixed` is not modelled.
- The y-coordinate, `levelCounts` and `levelPositions` layout arithmetic (script.js:686-710 apart from x), which is presentation only.
- The `setTimeout` redraw and all drawing (`createNode`, arrows, legend, results table).
- The INICIO/FIN records of `generateDiagram` (script.js:581-603). INICIO's times are 0 and FIN's te, tf, ti and tl are the project duration. The model keeps their role in the layout (`Layout.Start`, `Layout.End`).
- Diagram.GenerateDiagram: `nodes = activityMap` (script.js:578) makes the INICIO/FIN records of script.js:581-603 overwrite the entries of activities so named before lines 625 and 644 display them; the model's entries are calculatePERT's return value (script.js:575). Such a record has no `sigma`, so the results table would fail on it (script.js:796); that failure is not modelled.
- Project statistics (script.js:804-818): the variance sum, `Math.sqrt` and the confidence bands.
- File import: PapaParse, SheetJS and FileReader callbacks.
- Cycles.CycleDetector.Dfs: the model returns on the first cycle found, as the source does. It does not claim which cycle; the source reports only that one exists.
- Layout.LayoutLeftToRight: `Layout.WithBoundaries` writes INICIO and FIN over any activity of the same name, as script.js:683-684 does. So the left-to-right order is stated only for activities not so named.
- Forward.ForwardPass and Backward.BackwardPass: the convergence claims are proved only below 100 activities. At 100 or more, the cap may stop an unconverged pass; as in the source, the partial values are then used.

## Findings

The program shows the critical path as a route, `INICIO → … → FIN` (script.js:639). Each node also shows `te` in its early-start slot, beside `duration` and `tf` (script.js:417-419), so the program treats `te` as the early start. Both point to a path in schedule order. But the sort at script.js:301 reads `te` after line 284 has overwritten it with the duration, so the path comes out ordered by duration.

| source | as written | input that shows it | evidently intended | confidence | as-written member | corrected member |
|---|---|---|---|---|---|---|
| script.js:284-301 | the critical activities are sorted by `te`, which holds the duration after line 284 | A (duration 5) and B (duration 2, after A): both critical, and the path is B → A | sort by early start (TF − duration), so a predecessor precedes its successor | high; not executed | Critical.PathByDurationOutOfOrder | Critical.PathByStartFollowsDependencies |

`Critical.FindCriticalPath` models the code as written, and `Diagram.GenerateDiagram` returns that path, as `generateDiagram` does. `Critical.FindCriticalPathByStart` is the corrected order, and `Critical.PathByStartFollowsDependencies` proves the intended property about it.

Other behaviour the model reproduces as written:

- **Backward pass.** TL is the least late start (`tl − duration`, script.js:250) over an activity's successors.
- **Cycle message.** The code appends the cycle message whenever the DFS finds a cycle, even if earlier errors were already reported (script.js:113-115). The DFS runs over the accepted activities only, and these include activities with unknown predecessors; it skips the unknown names.
