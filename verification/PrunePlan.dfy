/** What an offline prune may delete. */
module PrunePlan {
  // Enumerating runs, and subtracting the live segments from the dead ones, or abstaining.
  import opened Common
  import opened Sorting

  type Key = string
  type RunId = string
  type Objects = map<Key, Bytes>

  datatype RunRefs = RunRefs(runId: RunId, objects: set<Key>, complete: bool, reason: string)

  datatype Plan = Plan(
    orphanSegments: seq<Key>,
    supersededRuns: seq<RunId>,
    skippedSuperseded: seq<RunId>,
    orphansByRun: map<RunId, seq<Key>>)

  datatype Computed = Planned(plan: Plan) | Abstained(runId: RunId, reason: string)

  // ---- Run trees and enumeration ----

  function RunTreePrefix(id: RunId): Key { "run/" + id + "/" }

  predicate SlashFree(id: RunId) { '/' !in id }

  /** The objects whose keys start with a prefix. */
  function Under(objects: Objects, prefix: Key): Objects {
    map k | k in objects && prefix <= k :: objects[k]
  }

  function Tree(objects: Objects, id: RunId): Objects { Under(objects, RunTreePrefix(id)) }

  /** No key lies in the trees of two runs. */
  lemma {:induction false} TreesDisjoint(a: RunId, b: RunId, k: Key)
    requires SlashFree(a) && SlashFree(b) && RunTreePrefix(a) <= k && RunTreePrefix(b) <= k
    ensures a == b
    decreases |a|
  {
    if |a| > |b| {
      TreesDisjoint(b, a, k);
    } else {
      assert k[4..4 + |a|] == RunTreePrefix(a)[4..4 + |a|] == a;
      assert k[4..4 + |b|] == RunTreePrefix(b)[4..4 + |b|] == b;
      assert k[4 + |a|] == RunTreePrefix(a)[4 + |a|] == '/';
    }
  }

  /** What opening a run shows: each record's segment objects, or why it refused. */
  datatype Opening = OpenedRun(records: seq<seq<Key>>) | OpenRefused(reason: string)

  /** Opening a run reads its own tree and nothing a prune deletes besides. */
  type Opener = (RunId, Objects) -> Opening

  function SegmentsOf(rec: seq<Key>): (s: set<Key>)
    ensures forall k :: k in s <==> k in rec
  {
    if rec == [] then {} else SegmentsOf(rec[..|rec| - 1]) + {rec[|rec| - 1]}
  }

  function RecordSegments(records: seq<seq<Key>>): (s: set<Key>)
    ensures forall k :: k in s <==> exists rec :: rec in records && k in rec
  {
    if records == [] then {}
    else
      var n := |records| - 1;
      assert records == records[..n] + [records[n]];
      RecordSegments(records[..n]) + SegmentsOf(records[n])
  }

  method CollectSegments(records: seq<seq<Key>>) returns (found: set<Key>)
    ensures found == RecordSegments(records)
  {
    found := {};
    for r := 0 to |records|
      invariant found == RecordSegments(records[..r])
    {
      var rec := records[r];
      for s := 0 to |rec|
        invariant found == RecordSegments(records[..r]) + SegmentsOf(rec[..s])
      {
        assert rec[..s + 1][..s] == rec[..s];
        found := found + {rec[s]};
      }
      assert rec[..|rec|] == rec && records[..r + 1][..r] == records[..r];
    }
    assert records[..|records|] == records;
  }

  /** A run that cannot be opened is incomplete, never empty and complete. */
  function Refs(open: Opener, objects: Objects, id: RunId): RunRefs {
    match open(id, Tree(objects, id))
    case OpenRefused(reason) => RunRefs(id, {}, false, reason)
    case OpenedRun(records) => RunRefs(id, RecordSegments(records), true, "")
  }

  method Enumerate(open: Opener, objects: Objects, ids: seq<RunId>) returns (out: seq<RunRefs>)
    ensures |out| == |ids| && forall i :: 0 <= i < |ids| ==> out[i] == Refs(open, objects, ids[i])
  {
    hide Tree, RecordSegments, SegmentsOf;
    out := [];
    for i := 0 to |ids|
      invariant |out| == i && forall j :: 0 <= j < i ==> out[j] == Refs(open, objects, ids[j])
    {
      var opening := open(ids[i], Tree(objects, ids[i]));
      if opening.OpenRefused? {
        out := out + [RunRefs(ids[i], {}, false, opening.reason)];
      } else {
        var found := CollectSegments(opening.records);
        out := out + [RunRefs(ids[i], found, true, "")];
      }
    }
  }

  // ---- Sorted listings of sets ----

  /** The members of m, each once, in ascending order. */
  ghost predicate Lists(s: seq<string>, m: set<string>) {
    Ascending(s, Codes) && forall k :: k in s <==> k in m
  }

  /** There is only one such listing. */
  lemma ListingUnique(s: seq<string>, t: seq<string>, m: set<string>)
    requires Lists(s, m) && Lists(t, m)
    ensures s == t
  {
    hide Less, Codes, Ascending;
    assert SameMembers(s, t) by {
      forall i | 0 <= i < |s|
        ensures s[i] in t
      {
        assert s[i] in m;
      }
      forall i | 0 <= i < |t|
        ensures t[i] in s
      {
        assert t[i] in m;
      }
    }
    AscendingIsUnique(s, t, Codes);
  }

  lemma SortedListing(s: seq<string>, m: set<string>)
    requires forall i, j :: 0 <= i < j < |s| ==> s[i] != s[j]
    requires forall k :: k in s <==> k in m
    ensures Lists(Sort(s, Codes), m)
  {
    hide Less, Codes, Ascending;
    forall i, j | 0 <= i < j < |s|
      ensures Codes(s[i]) != Codes(s[j])
    {
      if Codes(s[i]) == Codes(s[j]) {
        CodesInjective(s[i], s[j]);
      }
    }
    SortAscending(s, Codes);
  }

  lemma NoDuplicates<T>(s: seq<T>, t: seq<T>)
    requires multiset(s) == multiset(t)
    requires forall i, j :: 0 <= i < j < |s| ==> s[i] != s[j]
    ensures forall i, j :: 0 <= i < j < |t| ==> t[i] != t[j]
  {
    forall i, j | 0 <= i < j < |t|
      ensures t[i] != t[j]
    {
      if t[i] == t[j] {
        var x := t[i];
        assert t == t[..i] + [t[i]] + t[i + 1..j] + [t[j]] + t[j + 1..];
        assert multiset(t)[x] >= 2;
        OnceInDistinct(s, x);
      }
    }
  }

  lemma {:induction false} OnceInDistinct<T>(s: seq<T>, x: T)
    requires forall i, j :: 0 <= i < j < |s| ==> s[i] != s[j]
    ensures multiset(s)[x] <= 1
  {
    if s != [] {
      assert s == [s[0]] + s[1..];
      OnceInDistinct(s[1..], x);
      assert s[0] !in s[1..];
    }
  }

  /** Collects the members of objs that are not live, and sorts them. */
  method SortedDifference(objs: set<Key>, live: set<Key>) returns (s: seq<Key>)
    ensures Lists(s, objs - live)
  {
    hide Less, Codes, Sorted, Lists, Sort;
    var rest := objs;
    s := [];
    while rest != {}
      invariant rest <= objs
      invariant forall k :: k in s <==> k in objs - live && k !in rest
      invariant forall i, j :: 0 <= i < j < |s| ==> s[i] != s[j]
      decreases |rest|
    {
      var k :| k in rest;
      rest := rest - {k};
      if k !in live {
        s := s + [k];
      }
    }
    SortedListing(s, objs - live);
    s := Sort(s, Codes);
  }

  // ---- The plan ----

  /** Segments some enumerated run of the list refers to. */
  function Union(runs: seq<RunRefs>): set<Key> {
    set r, k | r in runs && r.complete && k in r.objects :: k
  }

  function Ids(runs: seq<RunRefs>, complete: bool): set<RunId> {
    set r | r in runs && r.complete == complete :: r.runId
  }

  predicate DistinctRuns(runs: seq<RunRefs>) {
    forall i, j :: 0 <= i < j < |runs| ==> runs[i].runId != runs[j].runId
  }

  predicate AllComplete(runs: seq<RunRefs>) { forall r :: r in runs ==> r.complete }

  /** The plan over the live segments: the segments named by enumerated superseded runs and not
      live, the superseded runs that were enumerated and those that were not, and each
      enumerated run's own share of the orphans. */
  ghost predicate PlanFor(superseded: seq<RunRefs>, live: set<Key>, plan: Plan) {
    && Lists(plan.orphanSegments, Union(superseded) - live)
    && Lists(plan.supersededRuns, Ids(superseded, true))
    && Lists(plan.skippedSuperseded, Ids(superseded, false))
    && plan.orphansByRun.Keys == Ids(superseded, true)
    && forall r :: r in superseded && r.complete ==> Lists(plan.orphansByRun[r.runId], r.objects - live)
  }

  ghost predicate IsPlan(retained: seq<RunRefs>, superseded: seq<RunRefs>, plan: Plan) {
    PlanFor(superseded, Union(retained), plan)
  }

  /** The refusal names the first unreadable retained run in run id order. */
  ghost predicate IsAbstain(retained: seq<RunRefs>, id: RunId, reason: string) {
    && (exists r :: r in retained && !r.complete && r.runId == id && r.reason == reason)
    && forall r :: r in retained && !r.complete ==> !Less(Codes(r.runId), Codes(id))
  }

  function IdCodes(r: RunRefs): seq<int> { Codes(r.runId) }

  method Compute(retained: seq<RunRefs>, superseded: seq<RunRefs>) returns (c: Computed)
    requires DistinctRuns(superseded)
    ensures c.Planned? <==> AllComplete(retained)
    ensures c.Planned? ==> IsPlan(retained, superseded, c.plan)
    ensures c.Abstained? ==> IsAbstain(retained, c.runId, c.reason)
  {
    hide Less, Codes, Sort, Lists;
    var sortedRetained := Sort(retained, IdCodes);
    SortIsSortedPermutation(retained, IdCodes);
    SameElements(sortedRetained, retained);
    var live: set<Key> := {};
    for i := 0 to |sortedRetained|
      invariant live == Union(sortedRetained[..i])
      invariant forall j :: 0 <= j < i ==> sortedRetained[j].complete
    {
      var r := sortedRetained[i];
      if !r.complete {
        FirstUnreadable(retained, sortedRetained, i);
        return Abstained(r.runId, r.reason);
      }
      assert sortedRetained[..i + 1][..i] == sortedRetained[..i];
      live := live + r.objects;
    }
    assert sortedRetained[..|sortedRetained|] == sortedRetained;
    assert live == Union(retained);
    var plan := Subtract(superseded, live);
    c := Planned(plan);
  }

  lemma FirstUnreadable(retained: seq<RunRefs>, ordered: seq<RunRefs>, i: nat)
    requires Sorted(ordered, IdCodes) && forall r :: r in ordered <==> r in retained
    requires i < |ordered| && !ordered[i].complete && forall j :: 0 <= j < i ==> ordered[j].complete
    ensures IsAbstain(retained, ordered[i].runId, ordered[i].reason)
    ensures !AllComplete(retained)
  {
    hide Less, Codes;
    LessIsStrict(IdCodes(ordered[i]), IdCodes(ordered[i]));
    assert ordered[i] in retained;
    forall r | r in retained && !r.complete
      ensures !Less(Codes(r.runId), Codes(ordered[i].runId))
    {
      var j :| 0 <= j < |ordered| && ordered[j] == r;
      assert !Less(IdCodes(ordered[j]), IdCodes(ordered[i]));
    }
  }

  /** The half of Compute after the retained runs have been read. */
  method Subtract(superseded: seq<RunRefs>, live: set<Key>) returns (plan: Plan)
    requires DistinctRuns(superseded)
    ensures PlanFor(superseded, live, plan)
  {
    hide Less, Codes, Sort, Lists, Union, Ids;
    var ordered := Sort(superseded, IdCodes);
    SortIsSortedPermutation(superseded, IdCodes);
    SameElements(ordered, superseded);
    DistinctIds(superseded, ordered);
    var dead: set<Key> := {};
    var runs: seq<RunId> := [];
    var skipped: seq<RunId> := [];
    NothingListed();
    for i := 0 to |ordered|
      invariant dead == Union(ordered[..i])
      invariant Lists(runs, Ids(ordered[..i], true)) && Lists(skipped, Ids(ordered[..i], false))
    {
      var r := ordered[i];
      NextRun(ordered, i);
      NextId(ordered, i, runs, true);
      NextId(ordered, i, skipped, false);
      if !r.complete {
        skipped := skipped + [r.runId];
      } else {
        runs := runs + [r.runId];
        dead := dead + r.objects;
      }
    }
    assert ordered[..|ordered|] == ordered;
    SameRuns(ordered, superseded);
    var orphans := SortedDifference(dead, live);
    var byRun := OrphansByRun(ordered, live);
    plan := Plan(orphans, runs, skipped, byRun);
  }

  method OrphansByRun(ordered: seq<RunRefs>, live: set<Key>) returns (byRun: map<RunId, seq<Key>>)
    requires DistinctRuns(ordered)
    ensures byRun.Keys == Ids(ordered, true)
    ensures forall r :: r in ordered && r.complete ==> Lists(byRun[r.runId], r.objects - live)
  {
    hide Less, Codes, Lists;
    byRun := map[];
    for i := 0 to |ordered|
      invariant byRun.Keys == Ids(ordered[..i], true)
      invariant forall j :: 0 <= j < i && ordered[j].complete ==>
                  ordered[j].runId in byRun && Lists(byRun[ordered[j].runId], ordered[j].objects - live)
    {
      assert ordered[..i + 1][..i] == ordered[..i];
      if ordered[i].complete {
        var mine := SortedDifference(ordered[i].objects, live);
        byRun := byRun[ordered[i].runId := mine];
      }
    }
    assert ordered[..|ordered|] == ordered;
  }

  lemma NothingListed()
    ensures Lists([], Ids([], true)) && Lists([], Ids([], false)) && Union([]) == {}
  {
  }

  lemma NextRun(runs: seq<RunRefs>, i: nat)
    requires i < |runs|
    ensures Union(runs[..i + 1]) == Union(runs[..i]) + if runs[i].complete then runs[i].objects else {}
    ensures forall c :: Ids(runs[..i + 1], c) == Ids(runs[..i], c) + if runs[i].complete == c then {runs[i].runId} else {}
  {
    assert runs[..i + 1][..i] == runs[..i];
  }

  lemma SameRuns(runs: seq<RunRefs>, others: seq<RunRefs>)
    requires forall r :: r in runs <==> r in others
    ensures Union(runs) == Union(others)
    ensures Ids(runs, true) == Ids(others, true) && Ids(runs, false) == Ids(others, false)
  {
  }

  lemma DistinctIds(runs: seq<RunRefs>, ordered: seq<RunRefs>)
    requires DistinctRuns(runs) && multiset(runs) == multiset(ordered)
    ensures DistinctRuns(ordered)
  {
    SameElements(runs, ordered);
    NoDuplicates(runs, ordered);
    forall i, j | 0 <= i < j < |ordered|
      ensures ordered[i].runId != ordered[j].runId
    {
      assert ordered[i] in runs && ordered[j] in runs;
      var p :| 0 <= p < |runs| && runs[p] == ordered[i];
      var q :| 0 <= q < |runs| && runs[q] == ordered[j];
    }
  }

  /** The next run id in order extends an ascending listing. */
  lemma NextId(ordered: seq<RunRefs>, i: nat, ids: seq<RunId>, complete: bool)
    requires Sorted(ordered, IdCodes) && DistinctRuns(ordered) && i < |ordered|
    requires Lists(ids, Ids(ordered[..i], complete))
    ensures Lists(if ordered[i].complete == complete then ids + [ordered[i].runId] else ids, Ids(ordered[..i + 1], complete))
  {
    hide Less, Codes, Union;
    NextRun(ordered, i);
    forall id | id in ids
      ensures Less(Codes(id), Codes(ordered[i].runId))
    {
      var r :| r in ordered[..i] && r.runId == id;
      var j :| 0 <= j < i && ordered[j].runId == id;
      assert !Less(IdCodes(ordered[i]), IdCodes(ordered[j]));
      LessIsTotal(IdCodes(ordered[j]), IdCodes(ordered[i]));
      if Codes(id) == Codes(ordered[i].runId) {
        CodesInjective(id, ordered[i].runId);
      }
    }
  }

  /** The plan depends on which runs there are, not on the order the caller lists them in. */
  lemma PlanIgnoresOrder(retained: seq<RunRefs>, superseded: seq<RunRefs>, plan: Plan,
                                            retained2: seq<RunRefs>, superseded2: seq<RunRefs>, plan2: Plan)
    requires forall r :: r in retained <==> r in retained2
    requires forall r :: r in superseded <==> r in superseded2
    requires IsPlan(retained, superseded, plan) && IsPlan(retained2, superseded2, plan2)
    ensures plan == plan2
  {
    hide Lists, Union, Ids;
    SameRuns(retained, retained2);
    SameRuns(superseded, superseded2);
    ListingUnique(plan.orphanSegments, plan2.orphanSegments, Union(superseded) - Union(retained));
    ListingUnique(plan.supersededRuns, plan2.supersededRuns, Ids(superseded, true));
    ListingUnique(plan.skippedSuperseded, plan2.skippedSuperseded, Ids(superseded, false));
    SameShares(superseded, superseded2, Union(retained), plan, plan2);
  }

  lemma SameShares(runs: seq<RunRefs>, runs2: seq<RunRefs>, live: set<Key>, plan: Plan, plan2: Plan)
    requires forall r :: r in runs <==> r in runs2
    requires plan.orphansByRun.Keys == Ids(runs, true) == plan2.orphansByRun.Keys
    requires forall r :: r in runs && r.complete ==> Lists(plan.orphansByRun[r.runId], r.objects - live)
    requires forall r :: r in runs2 && r.complete ==> Lists(plan2.orphansByRun[r.runId], r.objects - live)
    ensures plan.orphansByRun == plan2.orphansByRun
  {
    hide Lists;
    forall id | id in plan.orphansByRun.Keys
      ensures plan.orphansByRun[id] == plan2.orphansByRun[id]
    {
      var r :| r in runs && r.complete && r.runId == id;
      ListingUnique(plan.orphansByRun[id], plan2.orphansByRun[id], r.objects - live);
    }
  }
}
