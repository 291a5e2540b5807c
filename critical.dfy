/**
 * findCriticalPath: the critical activities in input order, stably sorted by the `te`
 * field of their entries, mapped to their names. After calculatePERT that field holds
 * the duration, so the path comes out ordered by duration; a variant ordered by early
 * start is defined beside it.
 */
module Critical {
  import opened Wrappers
  import opened Network
  import opened Forward
  import opened Backward
  import opened Pert

  /** `activities.filter(act => activityMap[act.name].isCritical)`, as indices below `m`. */
  function CriticalBelow(es: seq<Entry>, m: nat): (r: seq<nat>)
    requires m <= |es|
    ensures forall k :: 0 <= k < |r| ==> r[k] < m && es[r[k]].isCritical
    ensures forall k, l :: 0 <= k < l < |r| ==> r[k] < r[l]
    ensures forall i: nat :: i < m && es[i].isCritical ==> i in r
  {
    if m == 0 then [] else CriticalBelow(es, m - 1) + (if es[m - 1].isCritical then [m - 1] else [])
  }

  // ---- A stable sort of indices by an integer key ----

  /** The order a stable sort by `key` leaves the indices in: by key, and by position among equal keys. */
  predicate Before(key: seq<int>, a: nat, b: nat)
    requires a < |key| && b < |key|
  {
    key[a] < key[b] || (key[a] == key[b] && a < b)
  }

  predicate Indices(key: seq<int>, xs: seq<nat>) {
    forall k :: 0 <= k < |xs| ==> xs[k] < |key|
  }

  predicate SortedBy(key: seq<int>, xs: seq<nat>)
    requires Indices(key, xs)
  {
    forall k, l :: 0 <= k < l < |xs| ==> Before(key, xs[k], xs[l])
  }

  /** Puts `x`, which comes after every element of `xs` in the input, behind every element whose key is at most its own. */
  function Insert(key: seq<int>, xs: seq<nat>, x: nat): (r: seq<nat>)
    requires x < |key| && Indices(key, xs) && SortedBy(key, xs)
    requires forall k :: 0 <= k < |xs| ==> xs[k] < x
    ensures Indices(key, r) && SortedBy(key, r)
    ensures multiset(r) == multiset(xs) + multiset{x}
  {
    if xs == [] then [x]
    else
      var last := xs[|xs| - 1];
      if key[last] <= key[x] then
        AppendSorted(key, xs, x);
        xs + [x]
      else
        var front := xs[..|xs| - 1];
        assert xs == front + [last];
        var r' := Insert(key, front, x);
        BeforeLast(key, front, last, x, r');
        AppendSorted(key, r', last);
        r' + [last]
  }

  lemma AppendSorted(key: seq<int>, xs: seq<nat>, x: nat)
    requires x < |key| && Indices(key, xs) && SortedBy(key, xs)
    requires forall k :: 0 <= k < |xs| ==> Before(key, xs[k], x)
    ensures Indices(key, xs + [x]) && SortedBy(key, xs + [x])
  {
  }

  lemma BeforeLast(key: seq<int>, front: seq<nat>, last: nat, x: nat, r: seq<nat>)
    requires x < |key| && last < |key| && Indices(key, front) && Indices(key, r)
    requires SortedBy(key, front + [last]) && x > last && key[x] < key[last]
    requires multiset(r) == multiset(front) + multiset{x}
    ensures forall k :: 0 <= k < |r| ==> Before(key, r[k], last)
  {
    forall k | 0 <= k < |r| ensures Before(key, r[k], last) {
      assert r[k] in multiset(r);
      if r[k] != x {
        var j :| 0 <= j < |front| && front[j] == r[k];
        assert (front + [last])[j] == r[k] && (front + [last])[|front|] == last;
      }
    }
  }

  /** `Array.prototype.sort` with a comparator on the key, which is stable: an insertion sort in input order. */
  function SortBy(key: seq<int>, xs: seq<nat>): (r: seq<nat>)
    requires Indices(key, xs) && forall k, l :: 0 <= k < l < |xs| ==> xs[k] < xs[l]
    ensures Indices(key, r) && SortedBy(key, r)
    ensures multiset(r) == multiset(xs)
  {
    if xs == [] then []
    else
      var front := xs[..|xs| - 1];
      var s := SortBy(key, front);
      assert xs == front + [xs[|xs| - 1]];
      assert forall k :: 0 <= k < |s| ==> s[k] < xs[|xs| - 1] by {
        forall k | 0 <= k < |s| ensures s[k] < xs[|xs| - 1] {
          assert s[k] in multiset(front);
        }
      }
      Insert(key, s, xs[|xs| - 1])
  }

  /** The head of a sorted sequence comes before each of its other elements. */
  lemma HeadFirst(key: seq<int>, xs: seq<nat>, i: nat)
    requires Indices(key, xs) && SortedBy(key, xs) && i in xs
    ensures i == xs[0] || Before(key, xs[0], i)
  {
  }

  lemma HeadIn(xs: seq<nat>)
    ensures xs != [] ==> xs[0] in xs
  {
  }

  /** Two sequences of the same indices, both sorted, are equal: a stable sort's result is determined. */
  lemma {:induction false} SortedUnique(key: seq<int>, xs: seq<nat>, ys: seq<nat>)
    requires Indices(key, xs) && Indices(key, ys) && SortedBy(key, xs) && SortedBy(key, ys)
    requires forall i: nat :: i in xs <==> i in ys
    ensures xs == ys
  {
    HeadIn(xs);
    HeadIn(ys);
    if xs != [] {
      assert ys != [];
      var x, y := xs[0], ys[0];
      HeadFirst(key, xs, y);
      HeadFirst(key, ys, x);
      assert x == y;
      forall i: nat ensures i in xs[1..] <==> i in ys[1..] {
        assert i in xs[1..] <==> i in xs && i != x;
        assert i in ys[1..] <==> i in ys && i != y;
      }
      SortedUnique(key, xs[1..], ys[1..]);
      assert xs == [x] + xs[1..] && ys == [y] + ys[1..];
    }
  }

  // ---- The critical path ----

  /** The `te` field of every entry. */
  function Tes(es: seq<Entry>): (r: seq<int>)
    ensures |r| == |es| && forall i :: 0 <= i < |es| ==> r[i] == es[i].te
  {
    seq(|es|, i requires 0 <= i < |es| => es[i].te)
  }

  /** The critical indices sorted by `key`. */
  function CriticalSortedBy(es: seq<Entry>, key: seq<int>): seq<nat>
    requires |key| == |es|
  {
    SortBy(key, CriticalBelow(es, |es|))
  }

  function PathNames(es: seq<Entry>, order: seq<nat>): (path: seq<string>)
    requires forall k :: 0 <= k < |order| ==> order[k] < |es|
    ensures |path| == |order| && forall k :: 0 <= k < |path| ==> path[k] == es[order[k]].name
  {
    seq(|order|, k requires 0 <= k < |order| => es[order[k]].name)
  }

  /** The indices findCriticalPath lists, in its order: sorted by the `te` field. */
  function CriticalOrder(es: seq<Entry>): seq<nat> {
    CriticalSortedBy(es, Tes(es))
  }

  /**
   * `findCriticalPath(activityMap)`, as written: the names of the critical activities in
   * the order CriticalOrder gives, which lists each critical index exactly once and
   * nothing else, sorted by `te` with ties in input order.
   */
  function FindCriticalPath(es: seq<Entry>): (path: seq<string>)
    ensures |path| == |CriticalOrder(es)|
    ensures forall k :: 0 <= k < |path| ==> path[k] == es[CriticalOrder(es)[k]].name
    ensures Indices(Tes(es), CriticalOrder(es)) && SortedBy(Tes(es), CriticalOrder(es))
    ensures forall i: nat :: i in CriticalOrder(es) <==> i < |es| && es[i].isCritical
    ensures forall k, l :: 0 <= k < l < |CriticalOrder(es)| ==> CriticalOrder(es)[k] != CriticalOrder(es)[l]
    ensures forall i :: 0 <= i < |es| && es[i].isCritical ==> es[i].name in path
  {
    CriticalSortedCorrect(es, Tes(es));
    NamesOfOrder(es, CriticalOrder(es));
    PathNames(es, CriticalOrder(es))
  }

  /** Every index listed in `order` contributes its name to the path. */
  lemma NamesOfOrder(es: seq<Entry>, order: seq<nat>)
    requires forall k :: 0 <= k < |order| ==> order[k] < |es|
    ensures forall i :: i in order ==> es[i].name in PathNames(es, order)
  {
    forall i | i in order ensures es[i].name in PathNames(es, order) {
      var k :| 0 <= k < |order| && order[k] == i;
      assert PathNames(es, order)[k] == es[i].name;
    }
  }

  /**
   * Sorting the critical indices by any key lists every critical activity exactly once
   * and nothing else, sorted by the key with ties in input order.
   */
  lemma CriticalSortedCorrect(es: seq<Entry>, key: seq<int>)
    requires |key| == |es|
    ensures Indices(key, CriticalSortedBy(es, key)) && SortedBy(key, CriticalSortedBy(es, key))
    ensures forall i: nat :: i in CriticalSortedBy(es, key) <==> i < |es| && es[i].isCritical
    ensures forall k, l :: 0 <= k < l < |CriticalSortedBy(es, key)| ==> CriticalSortedBy(es, key)[k] != CriticalSortedBy(es, key)[l]
  {
    var c := CriticalBelow(es, |es|);
    var r := CriticalSortedBy(es, key);
    forall i: nat ensures i in r <==> i < |es| && es[i].isCritical {
      assert i in r <==> i in multiset(r);
      assert i in c <==> i in multiset(c);
    }
    forall k, l | 0 <= k < l < |r| ensures r[k] != r[l] {
      assert Before(key, r[k], r[l]);
    }
  }

  /** findCriticalPath lists every critical activity once, sorted by `te` with ties in input order. */
  lemma CriticalOrderCorrect(es: seq<Entry>)
    ensures Indices(Tes(es), CriticalOrder(es)) && SortedBy(Tes(es), CriticalOrder(es))
    ensures forall i: nat :: i in CriticalOrder(es) <==> i < |es| && es[i].isCritical
    ensures forall k, l :: 0 <= k < l < |CriticalOrder(es)| ==> CriticalOrder(es)[k] != CriticalOrder(es)[l]
  {
    CriticalSortedCorrect(es, Tes(es));
  }

  /**
   * The critical-path order is the one sequence that lists exactly the critical
   * activities, sorted by `te` with ties in input order.
   */
  lemma CriticalOrderCharacterised(es: seq<Entry>, ys: seq<nat>)
    requires Indices(Tes(es), ys) && SortedBy(Tes(es), ys)
    requires forall i: nat :: i in ys <==> i < |es| && es[i].isCritical
    ensures CriticalOrder(es) == ys
  {
    CriticalOrderCorrect(es);
    SortedUnique(Tes(es), CriticalOrder(es), ys);
  }

  /**
   * The entries calculatePERT yields for A (duration 5) and B (duration 2, after A): both
   * are critical, A starts at 0 and B at 5, and `te` holds the duration.
   */
  function ChainEntries(): (es: seq<Entry>)
    ensures |es| == 2 && es[0].name == "A" && es[1].name == "B" && "A" in es[1].predecessors
    ensures es[0].isCritical && es[1].isCritical
  {
    [Entry("A", 5, [], 5, 5, 5, 0, 0, true, 4, 5, 7, 0.5, 0.25),
     Entry("B", 2, ["A"], 2, 7, 7, 5, 0, true, 1, 2, 4, 0.5, 0.25)]
  }

  /** On that chain findCriticalPath lists B before A, although B depends on A and starts later. */
  lemma PathByDurationOutOfOrder()
    ensures FindCriticalPath(ChainEntries()) == ["B", "A"]
    ensures EarlyStarts(ChainEntries()) == [0, 5]
  {
    var es := ChainEntries();
    ChainOrder();
    var path := FindCriticalPath(es);
    assert path[0] == "B" && path[1] == "A";
    ChainStarts();
  }

  lemma ChainOrder()
    ensures CriticalOrder(ChainEntries()) == [1, 0]
  {
    var es := ChainEntries();
    var order: seq<nat> := [1, 0];
    assert Tes(es)[0] == 5 && Tes(es)[1] == 2;
    assert SortedBy(Tes(es), order);
    CriticalOrderCharacterised(es, order);
  }

  lemma ChainStarts()
    ensures EarlyStarts(ChainEntries()) == [0, 5]
  {
    var r := EarlyStarts(ChainEntries());
    assert r[0] == 0 && r[1] == 5;
  }

  /** The two activities of that chain, as collectActivities accepts them. */
  function ChainActivities(): (acts: seq<Activity>)
    ensures DistinctNames(acts) && Edge(acts, 1, 0)
  {
    [Activity("A", 5, []), Activity("B", 2, ["A"])]
  }

  /**
   * The chain entries are the schedule of the chain: its forward fixed point (the only
   * one, by FixpointUnique) and its late finishes, B having no successor and finishing at
   * the project duration 7, A at B's late start.
   */
  lemma ChainIsSchedule()
    ensures ForwardFixpoint(ChainActivities(), EarlyStarts(ChainEntries()), EarlyFinishes(ChainEntries()))
    ensures BackInv(ChainActivities(), 7, LateFinishes(ChainEntries()))
  {
    ChainForward();
    ChainBackward();
  }

  lemma ChainForward()
    ensures ForwardFixpoint(ChainActivities(), EarlyStarts(ChainEntries()), EarlyFinishes(ChainEntries()))
  {
    var acts, es := ChainActivities(), ChainEntries();
    var te, tf := EarlyStarts(es), EarlyFinishes(es);
    assert te[0] == 0 && te[1] == 5 && tf[0] == 5 && tf[1] == 7;
    assert IndexOf(acts, "A") == Some(0);
    assert FwdOk(acts, te, tf, 0);
    assert acts[1].predecessors[..0] == [];
    assert FwdOk(acts, te, tf, 1);
  }

  lemma ChainBackward()
    ensures BackInv(ChainActivities(), 7, LateFinishes(ChainEntries()))
  {
    var acts, es := ChainActivities(), ChainEntries();
    var tl := LateFinishes(es);
    ChainEdges();
    assert tl[0] == 5 && tl[1] == 7;
    assert SinksAt(acts, 7, tl);
    assert LateOk(acts, tl, 0);
  }

  /** B lists A and nothing else lists anything. */
  lemma ChainEdges()
    ensures forall s, i :: Edge(ChainActivities(), s, i) <==> s == 1 && i == 0
  {
    var acts := ChainActivities();
    assert "B" != "A";
    assert !Edge(acts, 0, 1) && !Edge(acts, 1, 1) && !Edge(acts, 0, 0);
  }

  // ---- Corrected: the critical path by early start ----

  /** The indices of the critical activities sorted by early start (TF - duration), ties in input order. */
  function CriticalOrderByStart(es: seq<Entry>): seq<nat> {
    CriticalSortedBy(es, EarlyStarts(es))
  }

  /**
   * The critical path ordered by early start, as the path reads from INICIO to FIN: each
   * critical activity exactly once and nothing else, sorted by TF - duration with ties in
   * input order.
   */
  function FindCriticalPathByStart(es: seq<Entry>): (path: seq<string>)
    ensures |path| == |CriticalOrderByStart(es)|
    ensures forall k :: 0 <= k < |path| ==> path[k] == es[CriticalOrderByStart(es)[k]].name
    ensures Indices(EarlyStarts(es), CriticalOrderByStart(es)) && SortedBy(EarlyStarts(es), CriticalOrderByStart(es))
    ensures forall i: nat :: i in CriticalOrderByStart(es) <==> i < |es| && es[i].isCritical
    ensures forall k, l :: 0 <= k < l < |CriticalOrderByStart(es)| ==>
      CriticalOrderByStart(es)[k] != CriticalOrderByStart(es)[l]
    ensures forall i :: 0 <= i < |es| && es[i].isCritical ==> es[i].name in path
  {
    CriticalSortedCorrect(es, EarlyStarts(es));
    NamesOfOrder(es, CriticalOrderByStart(es));
    PathNames(es, CriticalOrderByStart(es))
  }

  /**
   * Ordered by early start, the path lists every critical activity once, and a critical
   * predecessor of positive duration comes before the activity that lists it.
   */
  lemma PathByStartFollowsDependencies(acts: seq<Activity>, es: seq<Entry>)
    requires DistinctNames(acts) && |es| == |acts|
    requires forall i :: 0 <= i < |acts| ==>
      (es[i].name == acts[i].name && es[i].duration == acts[i].duration && es[i].predecessors == acts[i].predecessors)
    requires ForwardFixpoint(acts, EarlyStarts(es), EarlyFinishes(es))
    ensures forall i: nat :: i in CriticalOrderByStart(es) <==> i < |es| && es[i].isCritical
    ensures var order := CriticalOrderByStart(es);
      forall k, l :: (0 <= k < |order| && 0 <= l < |order| && Edge(acts, order[l], order[k]) &&
        acts[order[k]].duration > 0) ==> k < l
  {
    var key := EarlyStarts(es);
    var order := CriticalOrderByStart(es);
    CriticalSortedCorrect(es, key);
    forall k, l | 0 <= k < |order| && 0 <= l < |order| && Edge(acts, order[l], order[k]) &&
        acts[order[k]].duration > 0
      ensures k < l
    {
      PredecessorStartsEarlier(acts, es, order[l], order[k]);
      SortedPositions(key, order, k, l);
    }
  }

  /** A predecessor of positive duration starts strictly before the activity that lists it. */
  lemma PredecessorStartsEarlier(acts: seq<Activity>, es: seq<Entry>, i: nat, j: nat)
    requires DistinctNames(acts) && |es| == |acts|
    requires forall i :: 0 <= i < |acts| ==>
      (es[i].name == acts[i].name && es[i].duration == acts[i].duration && es[i].predecessors == acts[i].predecessors)
    requires ForwardFixpoint(acts, EarlyStarts(es), EarlyFinishes(es))
    requires Edge(acts, i, j) && acts[j].duration > 0
    ensures EarlyStarts(es)[j] < EarlyStarts(es)[i]
  {
    StartIsLatestPredecessorFinish(acts, EarlyStarts(es), EarlyFinishes(es), i);
  }

  /** In a sorted sequence an element with a smaller key sits at an earlier position. */
  lemma SortedPositions(key: seq<int>, xs: seq<nat>, k: nat, l: nat)
    requires Indices(key, xs) && SortedBy(key, xs) && k < |xs| && l < |xs|
    requires key[xs[k]] < key[xs[l]]
    ensures k < l
  {
  }
}
