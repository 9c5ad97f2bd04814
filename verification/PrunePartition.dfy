/** The retention policy: which runs of the RUNLOG are kept and which may be removed. */
module PrunePartition {
  import opened Common
  import opened Sorting
  import opened Runlog
  import PruneApply
  import PrunePlan
  import PruneSafety

  // ---- Filtering ----

  function Filter<T(!new)>(s: seq<T>, p: T -> bool): (r: seq<T>)
    ensures forall x :: x in r <==> x in s && p(x)
  {
    if s == [] then []
    else
      var n := |s| - 1;
      assert s == s[..n] + [s[n]];
      Filter(s[..n], p) + if p(s[n]) then [s[n]] else []
  }

  lemma {:induction false} FilterCount<T(!new)>(s: seq<T>, p: T -> bool, x: T)
    ensures multiset(Filter(s, p))[x] == if p(x) then multiset(s)[x] else 0
  {
    if s != [] {
      assert s == s[..|s| - 1] + [s[|s| - 1]];
      FilterCount(s[..|s| - 1], p, x);
    }
  }

  lemma FilterInAnyOrder<T(!new)>(s: seq<T>, t: seq<T>, p: T -> bool)
    requires multiset(s) == multiset(t)
    ensures multiset(Filter(s, p)) == multiset(Filter(t, p)) && |Filter(s, p)| == |Filter(t, p)|
  {
    forall x
      ensures multiset(Filter(s, p))[x] == multiset(Filter(t, p))[x]
    {
      FilterCount(s, p, x);
      FilterCount(t, p, x);
    }
    assert multiset(Filter(s, p)) == multiset(Filter(t, p));
    assert |multiset(Filter(s, p))| == |Filter(s, p)| && |multiset(Filter(t, p))| == |Filter(t, p)|;
  }

  lemma {:induction false} FilterGrows<T(!new)>(s: seq<T>, p: T -> bool, q: T -> bool)
    requires forall x :: x in s && p(x) ==> q(x)
    ensures |Filter(s, p)| <= |Filter(s, q)|
    ensures (exists x :: x in s && q(x) && !p(x)) ==> |Filter(s, p)| < |Filter(s, q)|
  {
    if s != [] {
      var n := |s| - 1;
      assert s == s[..n] + [s[n]];
      FilterGrows(s[..n], p, q);
    }
  }

  function IdsOf(s: seq<Entry>): (r: seq<string>)
    ensures |r| == |s| && forall i :: 0 <= i < |s| ==> r[i] == s[i].runId
  {
    seq(|s|, i requires 0 <= i < |s| => s[i].runId)
  }

  function HasId(id: string): Entry -> bool { (e: Entry) => e.runId == id }

  lemma {:induction false} IdCount(s: seq<Entry>, id: string)
    ensures multiset(IdsOf(s))[id] == |Filter(s, HasId(id))|
  {
    if s != [] {
      var n := |s| - 1;
      assert IdsOf(s) == IdsOf(s[..n]) + [s[n].runId];
      IdCount(s[..n], id);
    }
  }

  lemma IdsInAnyOrder(s: seq<Entry>, t: seq<Entry>)
    requires multiset(s) == multiset(t)
    ensures multiset(IdsOf(s)) == multiset(IdsOf(t))
  {
    forall id
      ensures multiset(IdsOf(s))[id] == multiset(IdsOf(t))[id]
    {
      IdCount(s, id);
      IdCount(t, id);
      FilterInAnyOrder(s, t, HasId(id));
    }
  }

  // ---- The policy ----

  predicate Active(e: Entry) { e.status != "superseded" }

  function NewerThan(e: Entry): Entry -> bool {
    (x: Entry) => x.downpipeId == e.downpipeId && Active(x) && x.index > e.index
  }

  /** How many active runs of its downpipe are newer than this one. */
  function Newer(all: seq<Entry>, e: Entry): nat { |Filter(all, NewerThan(e))| }

  predicate IsKept(all: seq<Entry>, n: int, e: Entry) { Active(e) && Newer(all, e) < n }

  function Kept(all: seq<Entry>, n: int): Entry -> bool { (e: Entry) => IsKept(all, n, e) }

  function Dropped(all: seq<Entry>, n: int): Entry -> bool { (e: Entry) => !IsKept(all, n, e) }

  function KeptNewerThan(all: seq<Entry>, n: int, e: Entry): Entry -> bool {
    (x: Entry) => x.downpipeId == e.downpipeId && x.index > e.index && IsKept(all, n, x)
  }

  /** Every active run that is dropped has at least n kept runs of its own downpipe with larger
      indices. */
  lemma {:induction false} DroppedIsOutlived(all: seq<Entry>, n: int, e: Entry)
    requires e in all && Active(e) && !IsKept(all, n, e)
    ensures |Filter(all, KeptNewerThan(all, n, e))| >= n
    decreases Newer(all, e)
  {
    hide Filter;
    if x :| x in all && NewerThan(e)(x) && !IsKept(all, n, x) {
      assert forall y :: y in all && NewerThan(x)(y) ==> NewerThan(e)(y);
      assert NewerThan(e)(x) && !NewerThan(x)(x);
      FilterGrows(all, NewerThan(x), NewerThan(e));
      DroppedIsOutlived(all, n, x);
      FilterGrows(all, KeptNewerThan(all, n, x), KeptNewerThan(all, n, e));
    } else {
      FilterGrows(all, NewerThan(e), KeptNewerThan(all, n, e));
    }
  }

  // ---- What a partition may be ----

  function OfDownpipe(d: string): Entry -> bool { (e: Entry) => e.downpipeId == d }

  /** The policy keeps active runs only and at most n of a downpipe. It drops an active run only
      when n of its downpipe are kept and none of those is older. Which of two runs with one
      index goes first is left to the sort. */
  ghost predicate Chosen(n: int, kept: seq<Entry>, dropped: seq<Entry>) {
    && (forall e :: e in kept ==> Active(e))
    && (forall d :: |Filter(kept, OfDownpipe(d))| <= n)
    && (forall e :: e in dropped && Active(e) ==> |Filter(kept, OfDownpipe(e.downpipeId))| == n)
    && (forall e, x :: e in dropped && Active(e) && x in kept && x.downpipeId == e.downpipeId ==> x.index >= e.index)
  }

  ghost predicate Splits(entries: seq<Entry>, n: int, kept: seq<Entry>, dropped: seq<Entry>) {
    Chosen(n, kept, dropped) && multiset(kept) + multiset(dropped) == multiset(entries)
  }

  /** Where no index is repeated there is one such choice: the active runs with fewer than n newer
      active ones of their downpipe. */
  lemma SplitIsExact(entries: seq<Entry>, n: int, kept: seq<Entry>, dropped: seq<Entry>)
    requires Splits(entries, n, kept, dropped) && DistinctIndices(entries)
    ensures multiset(kept) == multiset(Filter(entries, Kept(entries, n)))
    ensures multiset(dropped) == multiset(Filter(entries, Dropped(entries, n)))
  {
    hide Filter, Splits, IsKept;
    forall x
      ensures multiset(kept)[x] == multiset(Filter(entries, Kept(entries, n)))[x]
      ensures multiset(dropped)[x] == multiset(Filter(entries, Dropped(entries, n)))[x]
    {
      FilterCount(entries, Kept(entries, n), x);
      FilterCount(entries, Dropped(entries, n), x);
      OnOneSide(entries, n, kept, dropped, x);
    }
  }

  lemma OnOneSide(entries: seq<Entry>, n: int, kept: seq<Entry>, dropped: seq<Entry>, x: Entry)
    requires Splits(entries, n, kept, dropped) && DistinctIndices(entries)
    ensures multiset(kept)[x] == if IsKept(entries, n, x) then multiset(entries)[x] else 0
    ensures multiset(dropped)[x] == if IsKept(entries, n, x) then 0 else multiset(entries)[x]
  {
    hide Filter, Chosen, IsKept, DistinctIndices;
    assert multiset(entries)[x] == multiset(kept)[x] + multiset(dropped)[x];
    AtMostOnce(entries, x);
    if x in kept {
      assert multiset(kept)[x] >= 1;
      KeptIsNew(entries, n, kept, dropped, x);
    } else if x in dropped {
      assert multiset(dropped)[x] >= 1;
      DroppedIsOld(entries, n, kept, dropped, x);
    }
  }

  /** The active runs newer than e, counted among the kept ones. */
  lemma NewerAmongKept(entries: seq<Entry>, kept: seq<Entry>, dropped: seq<Entry>, e: Entry)
    requires multiset(kept) + multiset(dropped) == multiset(entries)
    requires forall x :: x in dropped ==> !NewerThan(e)(x)
    ensures Newer(entries, e) == |Filter(kept, NewerThan(e))|
  {
    hide Filter;
    assert multiset(kept + dropped) == multiset(entries);
    FilterInAnyOrder(kept + dropped, entries, NewerThan(e));
    FilterAppend(kept, dropped, NewerThan(e));
    KeepNone(dropped, NewerThan(e));
  }

  lemma KeptIsNew(entries: seq<Entry>, n: int, kept: seq<Entry>, dropped: seq<Entry>, e: Entry)
    requires Splits(entries, n, kept, dropped) && e in kept
    ensures IsKept(entries, n, e)
  {
    hide Filter;
    NewerAmongKept(entries, kept, dropped, e);
    FilterGrows(kept, NewerThan(e), OfDownpipe(e.downpipeId));
  }

  lemma DroppedIsOld(entries: seq<Entry>, n: int, kept: seq<Entry>, dropped: seq<Entry>, e: Entry)
    requires Splits(entries, n, kept, dropped) && DistinctIndices(entries) && e in dropped && e !in kept
    ensures !IsKept(entries, n, e)
  {
    hide Filter;
    if Active(e) {
      assert multiset(kept + dropped) == multiset(entries);
      SameElements(kept + dropped, entries);
      forall x | x in kept && x.downpipeId == e.downpipeId
        ensures x.index > e.index
      {
        var p := Position(entries, x);
        var q := Position(entries, e);
      }
      FilterInAnyOrder(kept + dropped, entries, NewerThan(e));
      FilterAppend(kept, dropped, NewerThan(e));
      FilterGrows(kept, OfDownpipe(e.downpipeId), NewerThan(e));
    }
  }

  lemma {:induction false} FilterAppend<T(!new)>(s: seq<T>, t: seq<T>, p: T -> bool)
    ensures Filter(s + t, p) == Filter(s, p) + Filter(t, p)
  {
    if t == [] {
      assert s + t == s;
    } else {
      var n := |t| - 1;
      assert (s + t)[..|s + t| - 1] == s + t[..n];
      FilterAppend(s, t[..n], p);
    }
  }

  lemma {:induction false} KeepNone<T(!new)>(s: seq<T>, p: T -> bool)
    requires forall x :: x in s ==> !p(x)
    ensures Filter(s, p) == []
  {
    if s != [] {
      KeepNone(s[..|s| - 1], p);
    }
  }

  lemma {:induction false} KeepAll<T(!new)>(s: seq<T>, p: T -> bool)
    requires forall x :: x in s ==> p(x)
    ensures Filter(s, p) == s
  {
    if s != [] {
      KeepAll(s[..|s| - 1], p);
      assert s == s[..|s| - 1] + [s[|s| - 1]];
    }
  }

  lemma FilterSnoc<T(!new)>(s: seq<T>, x: T, p: T -> bool)
    ensures Filter(s + [x], p) == Filter(s, p) + if p(x) then [x] else []
  {
    assert (s + [x])[..|s|] == s;
  }

  // ---- The loop over downpipes ----

  function NewestFirst(e: Entry): seq<int> { [-e.index] }

  predicate Descending(runs: seq<Entry>) {
    forall i, j :: 0 <= i < j < |runs| ==> runs[i].index >= runs[j].index
  }

  lemma SortedDescending(runs: seq<Entry>)
    requires Sorted(runs, NewestFirst)
    ensures Descending(runs)
  {
    forall i, j | 0 <= i < j < |runs|
      ensures runs[i].index >= runs[j].index
    {
      assert !Less(NewestFirst(runs[j]), NewestFirst(runs[i]));
    }
  }

  /** The first j runs of a downpipe have been sent to kept and dropped. */
  ghost predicate SplitTo(runs: seq<Entry>, n: int, j: nat, kept: seq<Entry>, dropped: seq<Entry>)
    requires j <= |runs|
  {
    && multiset(kept) + multiset(dropped) == multiset(runs[..j]) && |kept| <= n
    && (forall x :: x in kept ==> Active(x))
    && (forall x, i :: x in kept && j <= i < |runs| ==> x.index >= runs[i].index)
    && (forall e :: e in dropped && Active(e) ==> |kept| == n)
    && (forall e, x :: e in dropped && Active(e) && x in kept ==> x.index >= e.index)
  }

  lemma SplitStart(runs: seq<Entry>, n: int)
    requires n >= 0
    ensures SplitTo(runs, n, 0, [], [])
  {
  }

  lemma SplitStep(runs: seq<Entry>, n: int, j: nat, kept: seq<Entry>, dropped: seq<Entry>)
    requires Descending(runs) && j < |runs| && SplitTo(runs, n, j, kept, dropped)
    ensures Active(runs[j]) && |kept| < n ==> SplitTo(runs, n, j + 1, kept + [runs[j]], dropped)
    ensures !Active(runs[j]) || |kept| >= n ==> SplitTo(runs, n, j + 1, kept, dropped + [runs[j]])
  {
    assert runs[..j + 1] == runs[..j] + [runs[j]];
  }

  lemma IdsSnoc(s: seq<Entry>, e: Entry)
    ensures IdsOf(s + [e]) == IdsOf(s) + [e.runId]
  {
  }

  /** One downpipe's runs, newest first: superseded ones dropped, the first n others kept. */
  method SplitRuns(runs: seq<Entry>, n: int)
    returns (keep: seq<string>, drop: seq<string>, ghost k: seq<Entry>, ghost p: seq<Entry>)
    requires n >= 1 && Descending(runs)
    ensures keep == IdsOf(k) && drop == IdsOf(p) && SplitTo(runs, n, |runs|, k, p)
  {
    keep, drop, k, p := [], [], [], [];
    var kept := 0;
    SplitStart(runs, n);
    hide Descending, SplitTo, IdsOf;
    for j := 0 to |runs|
      invariant SplitTo(runs, n, j, k, p) && kept == |k| && keep == IdsOf(k) && drop == IdsOf(p)
    {
      var e := runs[j];
      SplitStep(runs, n, j, k, p);
      IdsSnoc(k, e);
      IdsSnoc(p, e);
      if e.status == "superseded" {
        drop, p := drop + [e.runId], p + [e];
      } else if kept < n {
        keep, k := keep + [e.runId], k + [e];
        kept := kept + 1;
      } else {
        drop, p := drop + [e.runId], p + [e];
      }
    }
  }

  /** Entries of the downpipes dealt with so far. */
  function Among(done: set<string>): Entry -> bool { (e: Entry) => e.downpipeId in done }

  lemma IdsAppend(s: seq<Entry>, t: seq<Entry>)
    ensures IdsOf(s + t) == IdsOf(s) + IdsOf(t)
  {
  }

  function GroupIn(byDownpipe: map<string, seq<Entry>>, d: string): seq<Entry> {
    if d in byDownpipe then byDownpipe[d] else []
  }

  ghost predicate Grouped(entries: seq<Entry>, i: nat, byDownpipe: map<string, seq<Entry>>)
    requires i <= |entries|
  {
    && (forall j :: 0 <= j < i ==> entries[j].downpipeId in byDownpipe)
    && (forall d :: GroupIn(byDownpipe, d) == Filter(entries[..i], OfDownpipe(d)))
  }

  lemma GroupedStep(entries: seq<Entry>, i: nat, byDownpipe: map<string, seq<Entry>>)
    requires i < |entries| && Grouped(entries, i, byDownpipe)
    ensures var e := entries[i];
            Grouped(entries, i + 1, byDownpipe[e.downpipeId := GroupIn(byDownpipe, e.downpipeId) + [e]])
  {
    hide Filter;
    var e := entries[i];
    var after := byDownpipe[e.downpipeId := GroupIn(byDownpipe, e.downpipeId) + [e]];
    forall d
      ensures GroupIn(after, d) == Filter(entries[..i + 1], OfDownpipe(d))
    {
      assert entries[..i + 1] == entries[..i] + [e];
      FilterSnoc(entries[..i], e, OfDownpipe(d));
      assert GroupIn(byDownpipe, d) == Filter(entries[..i], OfDownpipe(d));
    }
  }

  method GroupByDownpipe(entries: seq<Entry>) returns (byDownpipe: map<string, seq<Entry>>)
    ensures Grouped(entries, |entries|, byDownpipe)
  {
    byDownpipe := map[];
    for i := 0 to |entries|
      invariant Grouped(entries, i, byDownpipe)
    {
      hide Grouped;
      var e := entries[i];
      GroupedStep(entries, i, byDownpipe);
      byDownpipe := byDownpipe[e.downpipeId := GroupIn(byDownpipe, e.downpipeId) + [e]];
    }
  }

  /** Sorts one downpipe's group newest first and splits it. */
  method SplitGroup(group: seq<Entry>, n: int)
    returns (keep: seq<string>, drop: seq<string>, ghost k: seq<Entry>, ghost p: seq<Entry>)
    requires n >= 1
    ensures keep == IdsOf(k) && drop == IdsOf(p) && multiset(k) + multiset(p) == multiset(group) && |k| <= n
    ensures forall x :: x in k ==> Active(x)
    ensures forall e :: e in p && Active(e) ==> |k| == n && forall x :: x in k ==> x.index >= e.index
  {
    hide Sorted, Sort, IdsOf, Descending;
    var sorted := Sort(group, NewestFirst);
    SortIsSortedPermutation(group, NewestFirst);
    SortedDescending(sorted);
    keep, drop, k, p := SplitRuns(sorted, n);
    assert sorted[..|sorted|] == sorted;
  }

  /** The runs of the downpipes done so far, split as the policy allows. */
  ghost predicate SplitAmong(entries: seq<Entry>, done: set<string>, n: int, k: seq<Entry>, p: seq<Entry>) {
    Splits(Filter(entries, Among(done)), n, k, p)
  }

  lemma AmongMore(entries: seq<Entry>, done: set<string>, d: string)
    requires d !in done
    ensures multiset(Filter(entries, Among(done + {d}))) ==
            multiset(Filter(entries, Among(done))) + multiset(Filter(entries, OfDownpipe(d)))
  {
    hide Filter;
    forall x
      ensures multiset(Filter(entries, Among(done + {d})))[x] ==
              multiset(Filter(entries, Among(done)))[x] + multiset(Filter(entries, OfDownpipe(d)))[x]
    {
      FilterCount(entries, Among(done), x);
      FilterCount(entries, Among(done + {d}), x);
      FilterCount(entries, OfDownpipe(d), x);
    }
  }

  /** One more downpipe's split joins those of the others. */
  lemma ChosenJoin(n: int, k: seq<Entry>, p: seq<Entry>, d: string, k2: seq<Entry>, p2: seq<Entry>)
    requires Chosen(n, k, p) && forall e :: e in k || e in p ==> e.downpipeId != d
    requires (forall e :: e in k2 || e in p2 ==> e.downpipeId == d) && |k2| <= n
    requires forall x :: x in k2 ==> Active(x)
    requires forall e :: e in p2 && Active(e) ==> |k2| == n && forall x :: x in k2 ==> x.index >= e.index
    ensures Chosen(n, k + k2, p + p2)
  {
    hide Filter;
    forall c
      ensures |Filter(k + k2, OfDownpipe(c))| == if c == d then |k2| else |Filter(k, OfDownpipe(c))|
    {
      FilterAppend(k, k2, OfDownpipe(c));
      if c == d {
        KeepNone(k, OfDownpipe(c));
        KeepAll(k2, OfDownpipe(c));
      } else {
        KeepNone(k2, OfDownpipe(c));
      }
    }
  }

  lemma SplitJoin(entries: seq<Entry>, done: set<string>, n: int, k: seq<Entry>, p: seq<Entry>, d: string, k2: seq<Entry>, p2: seq<Entry>)
    requires SplitAmong(entries, done, n, k, p) && d !in done
    requires multiset(k2) + multiset(p2) == multiset(Filter(entries, OfDownpipe(d))) && |k2| <= n
    requires forall x :: x in k2 ==> Active(x)
    requires forall e :: e in p2 && Active(e) ==> |k2| == n && forall x :: x in k2 ==> x.index >= e.index
    ensures SplitAmong(entries, done + {d}, n, k + k2, p + p2)
  {
    hide Filter, Chosen;
    AmongMore(entries, done, d);
    MembersOf(k, p, Filter(entries, Among(done)));
    MembersOf(k2, p2, Filter(entries, OfDownpipe(d)));
    ChosenJoin(n, k, p, d, k2, p2);
  }

  lemma MembersOf(k: seq<Entry>, p: seq<Entry>, s: seq<Entry>)
    requires multiset(k) + multiset(p) == multiset(s)
    ensures forall e :: e in k || e in p ==> e in s
  {
    assert multiset(k + p) == multiset(s);
    SameElements(k + p, s);
  }

  lemma NothingSplit(entries: seq<Entry>, n: int)
    requires n >= 0
    ensures SplitAmong(entries, {}, n, [], [])
  {
    NoneAmong(entries);
  }

  lemma {:induction false} NoneAmong(all: seq<Entry>)
    ensures Filter(all, Among({})) == []
  {
    if all != [] {
      NoneAmong(all[..|all| - 1]);
    }
  }

  /** Splits the downpipes one after another, in whatever order the map gives them. */
  method SplitGroups(ghost entries: seq<Entry>, byDownpipe: map<string, seq<Entry>>, n: int)
    returns (keep: seq<string>, drop: seq<string>, ghost k: seq<Entry>, ghost p: seq<Entry>)
    requires n >= 1 && Grouped(entries, |entries|, byDownpipe)
    ensures keep == IdsOf(k) && drop == IdsOf(p) && SplitAmong(entries, byDownpipe.Keys, n, k, p)
  {
    hide Filter, IdsOf, OfDownpipe, Grouped, SplitAmong;
    GroupOf(entries, byDownpipe);
    keep, drop, k, p := [], [], [], [];
    IdsOfNone();
    NothingSplit(entries, n);
    var rest := byDownpipe.Keys;
    ghost var done: set<string> := {};
    while rest != {}
      invariant done + rest == byDownpipe.Keys && done !! rest
      invariant keep == IdsOf(k) && drop == IdsOf(p) && SplitAmong(entries, done, n, k, p)
      decreases |rest|
    {
      var d :| d in rest;
      var keepD, dropD;
      ghost var k2, p2;
      keepD, dropD, k2, p2 := SplitGroup(byDownpipe[d], n);
      SplitJoin(entries, done, n, k, p, d, k2, p2);
      IdsAppend(k, k2);
      IdsAppend(p, p2);
      keep, drop, k, p := keep + keepD, drop + dropD, k + k2, p + p2;
      rest, done := rest - {d}, done + {d};
    }
    assert done == byDownpipe.Keys;
  }

  lemma IdsOfNone()
    ensures IdsOf([]) == []
  {
  }

  /** Refuses a policy of keeping none. Otherwise splits the log as the policy allows, and lists
      both sides in order. */
  method Partition(entries: seq<Entry>, keepPerDownpipe: int)
    returns (r: Option<(seq<string>, seq<string>)>, ghost kept: seq<Entry>, ghost dropped: seq<Entry>)
    ensures r.None? <==> keepPerDownpipe < 1
    ensures r.Some? ==> Splits(entries, keepPerDownpipe, kept, dropped)
    ensures r.Some? ==> Sorted(r.value.0, Codes) && multiset(r.value.0) == multiset(IdsOf(kept))
    ensures r.Some? ==> Sorted(r.value.1, Codes) && multiset(r.value.1) == multiset(IdsOf(dropped))
  {
    if keepPerDownpipe < 1 {
      return None, [], [];
    }
    hide Filter, Sorted, Sort, IdsOf, Grouped, Splits;
    var byDownpipe := GroupByDownpipe(entries);
    GroupOf(entries, byDownpipe);
    var keep, drop;
    keep, drop, kept, dropped := SplitGroups(entries, byDownpipe, keepPerDownpipe);
    KeepAll(entries, Among(byDownpipe.Keys));
    SortIsSortedPermutation(keep, Codes);
    SortIsSortedPermutation(drop, Codes);
    r := Some((Sort(keep, Codes), Sort(drop, Codes)));
  }

  lemma GroupOf(entries: seq<Entry>, byDownpipe: map<string, seq<Entry>>)
    requires Grouped(entries, |entries|, byDownpipe)
    ensures forall d :: d in byDownpipe ==> byDownpipe[d] == Filter(entries, OfDownpipe(d))
    ensures forall e :: e in entries ==> e.downpipeId in byDownpipe
  {
    hide Filter;
    assert entries[..|entries|] == entries;
    forall d | d in byDownpipe
      ensures byDownpipe[d] == Filter(entries, OfDownpipe(d))
    {
      assert GroupIn(byDownpipe, d) == byDownpipe[d];
    }
  }

  // ---- What the partition is for ----

  /** Nothing is lost and nothing is in both lists. */
  lemma SplitsAll(entries: seq<Entry>, n: int, kept: seq<Entry>, dropped: seq<Entry>)
    requires Splits(entries, n, kept, dropped)
    ensures multiset(IdsOf(kept)) + multiset(IdsOf(dropped)) == multiset(IdsOf(entries))
  {
    hide IdsOf, Chosen;
    assert multiset(kept + dropped) == multiset(entries);
    IdsInAnyOrder(kept + dropped, entries);
    IdsAppend(kept, dropped);
  }

  /** With distinct, slash-free run ids the two lists are what a prune can work from. */
  lemma PartitionIsWellNamed(entries: seq<Entry>, n: int, kept: seq<Entry>, dropped: seq<Entry>, keep: seq<string>, drop: seq<string>)
    requires DistinctRunIds(entries) && forall e :: e in entries ==> PrunePlan.SlashFree(e.runId)
    requires Splits(entries, n, kept, dropped)
    requires multiset(keep) == multiset(IdsOf(kept)) && multiset(drop) == multiset(IdsOf(dropped))
    ensures PruneSafety.WellNamed(keep, drop)
  {
    hide Splits, IdsOf;
    SplitsAll(entries, n, kept, dropped);
    forall id
      ensures multiset(keep)[id] + multiset(drop)[id] == multiset(IdsOf(entries))[id] <= 1
    {
      IdOnce(entries, id);
    }
    forall id | id in keep + drop
      ensures PrunePlan.SlashFree(id) && (id in keep ==> id !in drop)
    {
      assert id in multiset(keep) || id in multiset(drop);
      assert id in keep ==> multiset(keep)[id] >= 1;
      assert id in drop ==> multiset(drop)[id] >= 1;
      assert id in IdsOf(entries);
      IdFound(entries, id);
    }
    OnceEach(drop);
  }

  lemma {:induction false} OnceEach(ids: seq<string>)
    requires forall id :: multiset(ids)[id] <= 1
    ensures forall i, j :: 0 <= i < j < |ids| ==> ids[i] != ids[j]
  {
    if ids != [] {
      var n := |ids| - 1;
      assert ids == ids[..n] + [ids[n]];
      assert multiset(ids) == multiset(ids[..n]) + multiset{ids[n]};
      assert forall id :: multiset(ids[..n])[id] <= multiset(ids)[id];
      OnceEach(ids[..n]);
      assert multiset(ids)[ids[n]] == multiset(ids[..n])[ids[n]] + 1;
      assert ids[n] !in ids[..n];
    }
  }

  lemma IdFound(entries: seq<Entry>, id: string)
    requires id in IdsOf(entries)
    ensures exists e :: e in entries && e.runId == id
  {
    var i :| 0 <= i < |entries| && IdsOf(entries)[i] == id;
    assert entries[i] in entries;
  }

  lemma {:induction false} IdOnce(entries: seq<Entry>, id: string)
    requires DistinctRunIds(entries)
    ensures multiset(IdsOf(entries))[id] <= 1
  {
    if entries != [] {
      var n := |entries| - 1;
      assert IdsOf(entries) == IdsOf(entries[..n]) + [entries[n].runId];
      IdOnce(entries[..n], id);
      if id == entries[n].runId {
        assert id !in IdsOf(entries[..n]);
      }
    }
  }

  lemma KeptIsListed(kept: seq<Entry>, keep: seq<string>, e: Entry)
    requires multiset(keep) == multiset(IdsOf(kept)) && e in kept
    ensures e.runId in keep
  {
    var p := Position(kept, e);
    assert IdsOf(kept)[p] == e.runId;
    SameElements(keep, IdsOf(kept));
  }

  /** The command: partition by policy, then prune. Whatever the destination answers and wherever
      the pass is cut short, every run the policy keeps still has its tree and its segments. */
  method PruneByPolicy(store: PruneApply.Destination, open: PrunePlan.Opener, entries: seq<Entry>, keepPerDownpipe: int, dryRun: bool)
    returns (r: Option<(PrunePlan.Computed, Option<PruneApply.Applied>)>, ghost kept: seq<Entry>, ghost dropped: seq<Entry>)
    requires store.Valid() && PruneSafety.SegmentsOutside(open)
    requires DistinctRunIds(entries) && forall e :: e in entries ==> PrunePlan.SlashFree(e.runId)
    modifies store`objects, store`deletes, store`past, store`asked, store`lists
    ensures store.Valid() && old(store.past) <= store.past
    ensures r.None? <==> keepPerDownpipe < 1
    ensures r.None? || dryRun || r.value.0.Abstained? ==> store.objects == old(store.objects) && store.past == old(store.past)
    ensures r.Some? ==> Splits(entries, keepPerDownpipe, kept, dropped)
    ensures r.Some? ==>
              forall e, i :: e in kept && |old(store.past)| <= i < |store.past| ==>
                PruneSafety.Whole(open, old(store.objects), store.past[i], e.runId)
  {
    hide Splits, IdsOf, DistinctRunIds, Sorted, PruneSafety.SegmentsOutside, PruneSafety.WellNamed, PruneSafety.Whole;
    ghost var first := store.objects;
    var split;
    split, kept, dropped := Partition(entries, keepPerDownpipe);
    if split.None? {
      return None, kept, dropped;
    }
    var keep, drop := split.value.0, split.value.1;
    PartitionIsWellNamed(entries, keepPerDownpipe, kept, dropped, keep, drop);
    var computed, applied := PruneSafety.Prune(store, open, keep, drop, dryRun);
    r := Some((computed, applied));
    forall e, i | e in kept && |old(store.past)| <= i < |store.past|
      ensures PruneSafety.Whole(open, first, store.past[i], e.runId)
    {
      KeptIsListed(kept, keep, e);
      assert PruneSafety.Safe(open, keep, drop, first, store.past[i]);
    }
  }
}
