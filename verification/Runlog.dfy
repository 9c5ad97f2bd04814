/** The RUNLOG: its chain rules, the check that decides them, and what removing an entry shows. */
module Runlog {
  import opened Common
  import opened Sorting

  datatype Entry = Entry(index: int, runId: string, downpipeId: string, prevRunId: Option<string>, status: string)

  // ---- The chain rules of section 10 of the format, free of line order ----

  predicate DistinctIndices(log: seq<Entry>) {
    forall i, j :: 0 <= i < j < |log| ==> log[i].index != log[j].index
  }

  /** f is the next entry of e's downpipe in ascending index order. */
  predicate Next(log: seq<Entry>, e: Entry, f: Entry) {
    && e.downpipeId == f.downpipeId && e.index < f.index
    && forall g :: g in log && g.downpipeId == e.downpipeId ==> !(e.index < g.index < f.index)
  }

  predicate Linear(log: seq<Entry>) {
    forall e, f :: e in log && f in log && Next(log, e, f) ==> f.prevRunId == Some(e.runId)
  }

  predicate Resolved(log: seq<Entry>) {
    forall e :: e in log && e.prevRunId.Some? ==> exists f :: f in log && f.runId == e.prevRunId.value
  }

  predicate Unforked(log: seq<Entry>) {
    forall e, f :: e in log && f in log && e != f && e.prevRunId.Some? ==> e.prevRunId != f.prevRunId
  }

  predicate Chained(log: seq<Entry>) {
    DistinctIndices(log) && Linear(log) && Resolved(log) && Unforked(log)
  }

  /** Line order carries no weight, rule by rule. */
  lemma RulesIgnoreOrder(log: seq<Entry>, other: seq<Entry>)
    requires multiset(log) == multiset(other)
    ensures DistinctIndices(log) <==> DistinctIndices(other)
    ensures Linear(log) <==> Linear(other)
    ensures Resolved(log) <==> Resolved(other)
    ensures Unforked(log) <==> Unforked(other)
    ensures Chained(log) <==> Chained(other)
  {
    SameElements(log, other);
    if DistinctIndices(log) {
      DistinctInAnyOrder(log, other);
    }
    if DistinctIndices(other) {
      DistinctInAnyOrder(other, log);
    }
    hide Linear, Resolved, Unforked;
    RulesByMembership(log, other);
  }

  /** Apart from repeated indices the rules only ask which entries there are. */
  lemma RulesByMembership(log: seq<Entry>, other: seq<Entry>)
    requires forall e :: e in log <==> e in other
    ensures Linear(log) <==> Linear(other)
    ensures Resolved(log) <==> Resolved(other)
    ensures Unforked(log) <==> Unforked(other)
  {
    forall e, f
      ensures Next(log, e, f) <==> Next(other, e, f)
    {
    }
  }

  lemma DistinctInAnyOrder(log: seq<Entry>, other: seq<Entry>)
    requires multiset(log) == multiset(other) && DistinctIndices(log)
    ensures DistinctIndices(other)
  {
    SameElements(log, other);
    forall i, j | 0 <= i < j < |other|
      ensures other[i].index != other[j].index
    {
      if other[i].index == other[j].index {
        var p := Position(log, other[i]);
        var q := Position(log, other[j]);
        Twice(log, other, i, j);
      }
    }
  }

  lemma Position(log: seq<Entry>, e: Entry) returns (p: nat)
    requires e in log
    ensures p < |log| && log[p] == e
  {
    p :| p < |log| && log[p] == e;
  }

  /** An element at two places of a permutation is at two places of the original. */
  lemma Twice(log: seq<Entry>, other: seq<Entry>, i: nat, j: nat)
    requires multiset(log) == multiset(other) && i < j < |other|
    requires DistinctIndices(log)
    ensures other[i] != other[j]
  {
    var x := other[i];
    if other[j] == x {
      assert other == other[..i] + [x] + other[i + 1..j] + [x] + other[j + 1..];
      assert multiset(other)[x] >= 2;
      AtMostOnce(log, x);
    }
  }

  lemma {:induction false} AtMostOnce(log: seq<Entry>, x: Entry)
    requires DistinctIndices(log)
    ensures multiset(log)[x] <= 1
  {
    if log != [] {
      assert log == [log[0]] + log[1..];
      AtMostOnce(log[1..], x);
      assert log[0] !in log[1..];
    }
  }

  // ---- The checker ----

  datatype Anomaly =
    | DuplicateIndex(index: int)
    | BrokenChain(runId: string, downpipeId: string, last: string)
    | DanglingPrev(runId: string, prev: string)
    | ForkedPrev(first: string, runId: string, prev: string)

  function IndexKey(e: Entry): seq<int> { [e.index] }

  predicate Increasing(s: seq<Entry>) {
    forall i, j :: 0 <= i < j < |s| ==> s[i].index < s[j].index
  }

  lemma SortedByIndex(s: seq<Entry>)
    requires Sorted(s, IndexKey)
    ensures forall i, j :: 0 <= i < j < |s| ==> s[i].index <= s[j].index
  {
    forall i, j | 0 <= i < j < |s|
      ensures s[i].index <= s[j].index
    {
      assert !Less(IndexKey(s[j]), IndexKey(s[i]));
    }
  }

  /** Neighbours of one downpipe, by position. */
  predicate Adjacent(s: seq<Entry>, p: nat, q: nat)
    requires p < |s| && q < |s|
  {
    p < q && s[p].downpipeId == s[q].downpipeId && forall k :: p < k < q ==> s[k].downpipeId != s[p].downpipeId
  }

  lemma AdjacentIsNext(s: seq<Entry>, p: nat, q: nat)
    requires Increasing(s) && p < |s| && q < |s|
    ensures Adjacent(s, p, q) <==> Next(s, s[p], s[q])
  {
    if p != q {
      assert s[p].index < s[q].index <==> p < q;
      if p < q && s[p].downpipeId == s[q].downpipeId && !Adjacent(s, p, q) {
        var k :| p < k < q && s[k].downpipeId == s[p].downpipeId;
        assert s[k] in s && s[p].index < s[k].index < s[q].index;
      }
    }
  }

  /** Every entry before position n chains to its neighbour before it. */
  predicate ChainedUpTo(s: seq<Entry>, n: nat)
    requires n <= |s|
  {
    forall p, q :: 0 <= p < q < n && Adjacent(s, p, q) ==> s[q].prevRunId == Some(s[p].runId)
  }

  lemma ChainedUpToLinear(s: seq<Entry>)
    requires Increasing(s)
    ensures ChainedUpTo(s, |s|) <==> Linear(s)
  {
    hide Next, Adjacent;
    forall p, q | 0 <= p < |s| && 0 <= q < |s|
      ensures Adjacent(s, p, q) <==> Next(s, s[p], s[q])
    {
      AdjacentIsNext(s, p, q);
    }
    if Linear(s) {
      forall p, q | 0 <= p < q < |s| && Adjacent(s, p, q)
        ensures s[q].prevRunId == Some(s[p].runId)
      {
        assert s[p] in s && s[q] in s;
      }
    }
    if ChainedUpTo(s, |s|) {
      forall e, f | e in s && f in s && Next(s, e, f)
        ensures f.prevRunId == Some(e.runId)
      {
        var p := Position(s, e);
        var q := Position(s, f);
        assert e.index < f.index by { NextRises(s, e, f); }
      }
    }
  }

  lemma NextRises(log: seq<Entry>, e: Entry, f: Entry)
    requires Next(log, e, f)
    ensures e.index < f.index
  {
  }

  /** p is the last position before i that belongs to the downpipe. */
  predicate LastOf(s: seq<Entry>, i: nat, d: string, p: nat)
    requires p < i <= |s|
  {
    s[p].downpipeId == d && forall k :: p < k < i ==> s[k].downpipeId != d
  }

  /** Each downpipe seen before position i is mapped to its last run there; `at` is where. */
  ghost predicate Tails(s: seq<Entry>, i: nat, tail: map<string, string>, at: map<string, nat>)
    requires i <= |s|
  {
    && tail.Keys == at.Keys
    && (forall d :: d in at ==> at[d] < i && LastOf(s, i, d, at[d]) && tail[d] == s[at[d]].runId)
    && (forall j :: 0 <= j < i ==> s[j].downpipeId in at)
  }

  lemma TailsStart(s: seq<Entry>)
    ensures Tails(s, 0, map[], map[]) && ChainedUpTo(s, 0)
  {
  }

  lemma TailsStep(s: seq<Entry>, i: nat, tail: map<string, string>, at: map<string, nat>)
    requires i < |s| && Tails(s, i, tail, at)
    ensures Tails(s, i + 1, tail[s[i].downpipeId := s[i].runId], at[s[i].downpipeId := i])
  {
  }

  lemma LastIsAdjacent(s: seq<Entry>, i: nat, p: nat)
    requires p < i < |s|
    requires LastOf(s, i, s[i].downpipeId, p)
    ensures Adjacent(s, p, i)
    ensures forall q :: 0 <= q < i && Adjacent(s, q, i) ==> q == p
  {
  }

  lemma BreakFound(s: seq<Entry>, i: nat, p: nat)
    requires p < i < |s| && Adjacent(s, p, i) && s[i].prevRunId != Some(s[p].runId)
    ensures !ChainedUpTo(s, |s|)
  {
    hide Adjacent;
  }

  lemma ChainExtends(s: seq<Entry>, i: nat)
    requires i < |s| && ChainedUpTo(s, i)
    requires forall q :: 0 <= q < i && Adjacent(s, q, i) ==> s[i].prevRunId == Some(s[q].runId)
    ensures ChainedUpTo(s, i + 1)
  {
    hide Adjacent;
  }

  lemma ChainStep(s: seq<Entry>, i: nat, tail: map<string, string>, at: map<string, nat>)
    requires i < |s| && Tails(s, i, tail, at) && ChainedUpTo(s, i)
    ensures var d := s[i].downpipeId;
            if d in tail && s[i].prevRunId != Some(tail[d]) then !ChainedUpTo(s, |s|) else ChainedUpTo(s, i + 1)
  {
    hide Adjacent, LastOf, ChainedUpTo;
    var d := s[i].downpipeId;
    if d in tail {
      LastIsAdjacent(s, i, at[d]);
      if s[i].prevRunId != Some(tail[d]) {
        BreakFound(s, i, at[d]);
      } else {
        ChainExtends(s, i);
      }
    } else {
      NoneAdjacent(s, i);
      ChainExtends(s, i);
    }
  }

  lemma NoneAdjacent(s: seq<Entry>, i: nat)
    requires i < |s| && forall j :: 0 <= j < i ==> s[j].downpipeId != s[i].downpipeId
    ensures forall q :: 0 <= q < i ==> !Adjacent(s, q, i)
  {
  }

  /** The pass that follows each downpipe's tail in index order. */
  method CheckLinear(sorted: seq<Entry>) returns (r: Option<Anomaly>)
    requires Increasing(sorted)
    ensures r.None? <==> Linear(sorted)
    ensures r.Some? ==> r.value.BrokenChain?
  {
    hide Linear, Increasing, ChainedUpTo, Tails;
    ChainedUpToLinear(sorted);
    TailsStart(sorted);
    var tail: map<string, string> := map[];
    ghost var at: map<string, nat> := map[];
    for i := 0 to |sorted|
      invariant ChainedUpTo(sorted, i) && Tails(sorted, i, tail, at)
    {
      var e := sorted[i];
      ChainStep(sorted, i, tail, at);
      if e.downpipeId in tail && e.prevRunId != Some(tail[e.downpipeId]) {
        return Some(BrokenChain(e.runId, e.downpipeId, tail[e.downpipeId]));
      }
      TailsStep(sorted, i, tail, at);
      tail := tail[e.downpipeId := e.runId];
      at := at[e.downpipeId := i];
    }
    r := None;
  }

  method CollectIds(sorted: seq<Entry>) returns (ids: set<string>)
    ensures forall x :: x in ids <==> exists e :: e in sorted && e.runId == x
  {
    ids := {};
    for i := 0 to |sorted|
      invariant forall x :: x in ids <==> exists e :: e in sorted[..i] && e.runId == x
    {
      assert sorted[..i + 1] == sorted[..i] + [sorted[i]];
      ids := ids + {sorted[i].runId};
    }
    assert sorted[..|sorted|] == sorted;
  }

  /** The first i entries' prevRunIds resolve and are distinct; prevSeen holds them. */
  ghost predicate PrevsSeen(s: seq<Entry>, i: nat, ids: set<string>, prevSeen: set<string>)
    requires i <= |s|
  {
    && (forall j :: 0 <= j < i && s[j].prevRunId.Some? ==> s[j].prevRunId.value in ids && s[j].prevRunId.value in prevSeen)
    && (forall x :: x in prevSeen ==> exists j :: 0 <= j < i && s[j].prevRunId == Some(x))
    && (forall j, k :: 0 <= j < k < i && s[j].prevRunId.Some? ==> s[j].prevRunId != s[k].prevRunId)
  }

  lemma SeenStep(s: seq<Entry>, i: nat, ids: set<string>, prevSeen: set<string>)
    requires i < |s| && PrevsSeen(s, i, ids, prevSeen)
    ensures s[i].prevRunId.None? ==> PrevsSeen(s, i + 1, ids, prevSeen)
    ensures s[i].prevRunId.Some? && s[i].prevRunId.value in ids - prevSeen ==>
              PrevsSeen(s, i + 1, ids, prevSeen + {s[i].prevRunId.value})
  {
  }

  lemma Forks(s: seq<Entry>, i: nat, ids: set<string>, prevSeen: set<string>)
    requires Increasing(s) && i < |s| && PrevsSeen(s, i, ids, prevSeen)
    requires s[i].prevRunId.Some? && s[i].prevRunId.value in prevSeen
    ensures !Unforked(s)
  {
    var j :| 0 <= j < i && s[j].prevRunId == s[i].prevRunId;
    assert s[j] in s && s[i] in s && s[j].index < s[i].index;
  }

  lemma Dangles(s: seq<Entry>, i: nat, ids: set<string>)
    requires forall x :: x in ids <==> exists e :: e in s && e.runId == x
    requires i < |s| && s[i].prevRunId.Some? && s[i].prevRunId.value !in ids
    ensures !Resolved(s)
  {
    assert s[i] in s;
  }

  lemma AllSeen(s: seq<Entry>, ids: set<string>, prevSeen: set<string>)
    requires forall x :: x in ids <==> exists e :: e in s && e.runId == x
    requires PrevsSeen(s, |s|, ids, prevSeen)
    ensures Resolved(s) && Unforked(s)
  {
    forall e, f | e in s && f in s && e != f && e.prevRunId.Some?
      ensures e.prevRunId != f.prevRunId
    {
      var p := Position(s, e);
      var q := Position(s, f);
    }
  }

  /** The passes over prevRunId: every one resolves, and no two are the same. */
  method CheckPrevs(sorted: seq<Entry>) returns (r: Option<Anomaly>)
    requires Increasing(sorted)
    ensures r.None? <==> Resolved(sorted) && Unforked(sorted)
    ensures r.Some? ==> if r.value.DanglingPrev? then !Resolved(sorted) else r.value.ForkedPrev? && !Unforked(sorted)
  {
    hide Increasing, Resolved, Unforked, PrevsSeen;
    var ids := CollectIds(sorted);
    var prevSeen: map<string, string> := map[];
    NothingSeen(sorted, ids);
    assert prevSeen.Keys == {};
    for i := 0 to |sorted|
      invariant PrevsSeen(sorted, i, ids, prevSeen.Keys)
    {
      var e := sorted[i];
      SeenStep(sorted, i, ids, prevSeen.Keys);
      if e.prevRunId.Some? {
        var prev := e.prevRunId.value;
        if prev !in ids {
          Dangles(sorted, i, ids);
          return Some(DanglingPrev(e.runId, prev));
        }
        if prev in prevSeen {
          Forks(sorted, i, ids, prevSeen.Keys);
          return Some(ForkedPrev(prevSeen[prev], e.runId, prev));
        }
        assert prevSeen[prev := e.runId].Keys == prevSeen.Keys + {prev};
        prevSeen := prevSeen[prev := e.runId];
      }
    }
    AllSeen(sorted, ids, prevSeen.Keys);
    r := None;
  }

  lemma NothingSeen(s: seq<Entry>, ids: set<string>)
    ensures PrevsSeen(s, 0, ids, {})
  {
  }

  /** Accepts a log exactly when it keeps the chain rules, whatever order its lines are in, and
      names the first rule a rejected one breaks. */
  method DetectChainAnomaly(entries: seq<Entry>) returns (r: Option<Anomaly>)
    ensures r.None? <==> Chained(entries)
    ensures r.Some? && r.value.DuplicateIndex? ==> !DistinctIndices(entries)
    ensures r.Some? && r.value.BrokenChain? ==> DistinctIndices(entries) && !Linear(entries)
    ensures r.Some? && r.value.DanglingPrev? ==> DistinctIndices(entries) && Linear(entries) && !Resolved(entries)
    ensures r.Some? && r.value.ForkedPrev? ==> DistinctIndices(entries) && Linear(entries) && !Unforked(entries)
  {
    hide Sort, Sorted, Linear, Resolved, Unforked;
    var sorted := Sort(entries, IndexKey);
    SortIsSortedPermutation(entries, IndexKey);
    SortedByIndex(sorted);
    RulesIgnoreOrder(entries, sorted);
    var i := 1;
    while i < |sorted|
      invariant i >= 1
      invariant forall j :: 1 <= j < i && j < |sorted| ==> sorted[j - 1].index < sorted[j].index
    {
      if sorted[i].index == sorted[i - 1].index {
        return Some(DuplicateIndex(sorted[i].index));
      }
      i := i + 1;
    }
    StepsIncrease(sorted);
    r := CheckLinear(sorted);
    if r.Some? {
      return;
    }
    r := CheckPrevs(sorted);
  }

  lemma StepsIncrease(s: seq<Entry>)
    requires forall j :: 1 <= j < |s| ==> s[j - 1].index < s[j].index
    ensures Increasing(s)
  {
    forall i, j | 0 <= i < j < |s|
      ensures s[i].index < s[j].index
    {
      Rises(s, i, j);
    }
  }

  lemma {:induction false} Rises(s: seq<Entry>, i: nat, j: nat)
    requires i < j < |s| && forall k :: 1 <= k < |s| ==> s[k - 1].index < s[k].index
    ensures s[i].index < s[j].index
  {
    if i + 1 < j {
      Rises(s, i, j - 1);
    }
  }

  // ---- What the chain rules detect ----

  predicate DistinctRunIds(log: seq<Entry>) {
    forall i, j :: 0 <= i < j < |log| ==> log[i].runId != log[j].runId
  }

  function Without(log: seq<Entry>, i: nat): seq<Entry>
    requires i < |log|
  {
    log[..i] + log[i + 1..]
  }

  lemma WithoutElements(log: seq<Entry>, i: nat)
    requires i < |log| && DistinctIndices(log)
    ensures DistinctIndices(Without(log, i))
    ensures forall e :: e in Without(log, i) <==> e in log && e != log[i]
  {
    var rest := Without(log, i);
    forall j | 0 <= j < |rest|
      ensures rest[j] == log[if j < i then j else j + 1] && rest[j] != log[i]
    {
    }
    forall e | e in log && e != log[i]
      ensures e in rest
    {
      var p := Position(log, e);
      assert rest[if p < i then p else p - 1] == e;
    }
  }

  /** Removing one entry from a well-formed log is detected exactly when another entry names it
      as its predecessor: only the tail of the log can go unnoticed. */
  lemma RemovalDetected(log: seq<Entry>, i: nat)
    requires Chained(log) && DistinctRunIds(log) && i < |log|
    ensures !Chained(Without(log, i)) <==> exists e :: e in log && e != log[i] && e.prevRunId == Some(log[i].runId)
  {
    hide Linear, Resolved, Unforked, Without;
    WithoutElements(log, i);
    if e :| e in log && e != log[i] && e.prevRunId == Some(log[i].runId) {
      NamedIsMissed(log, i, e);
    } else {
      UnnamedIsNotMissed(log, i);
    }
  }

  lemma NamedIsMissed(log: seq<Entry>, i: nat, e: Entry)
    requires DistinctIndices(log) && DistinctRunIds(log) && i < |log|
    requires e in log && e != log[i] && e.prevRunId == Some(log[i].runId)
    ensures !Resolved(Without(log, i))
  {
    WithoutElements(log, i);
    forall f | f in Without(log, i)
      ensures f.runId != log[i].runId
    {
      var p := Position(log, f);
    }
  }

  /** An entry removed from between two neighbours was itself the later one's neighbour. */
  lemma GapNeighbour(log: seq<Entry>, i: nat, e: Entry, f: Entry)
    requires i < |log| && DistinctIndices(log) && Next(Without(log, i), e, f)
    requires log[i].downpipeId == e.downpipeId && e.index < log[i].index < f.index
    ensures Next(log, log[i], f)
  {
    WithoutElements(log, i);
  }

  lemma UnnamedIsNotMissed(log: seq<Entry>, i: nat)
    requires Chained(log) && i < |log|
    requires forall e :: e in log && e != log[i] ==> e.prevRunId != Some(log[i].runId)
    ensures Chained(Without(log, i))
  {
    WithoutElements(log, i);
    hide Without;
    var rest, gone := Without(log, i), log[i];
    forall e, f | e in rest && f in rest && Next(rest, e, f)
      ensures f.prevRunId == Some(e.runId)
    {
      if gone.downpipeId == e.downpipeId && e.index < gone.index < f.index {
        GapNeighbour(log, i, e, f);
      }
    }
  }
}
