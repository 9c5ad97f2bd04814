/** The freshness check of one run against the signed RUNLOG and the run's signed root. */
module Freshness {
  import opened Common
  import opened Runlog

  /** What the signed root says about the run's place in the log. */
  datatype Root = Root(downpipeId: string, runlogIndex: int, prevRunId: Option<string>)

  datatype Unbound = Absent | OtherDownpipe | IndexDisagrees | PrevDisagrees

  datatype Found = Found(entry: Entry, runlogMax: int, downpipeMax: int) | NotFound(why: Unbound)

  /** The greatest index of the entries of a downpipe, or of all, and zero for none. */
  ghost predicate IsMax(log: seq<Entry>, ofDownpipe: Option<string>, m: int) {
    && m >= 0
    && (forall e :: e in log && (ofDownpipe.None? || e.downpipeId == ofDownpipe.value) ==> e.index <= m)
    && (m == 0 || exists e :: e in log && (ofDownpipe.None? || e.downpipeId == ofDownpipe.value) && e.index == m)
  }

  /** The entry a run is looked up as: the last line that carries its id. */
  ghost predicate IsEntryOf(log: seq<Entry>, runId: string, e: Entry) {
    exists i :: 0 <= i < |log| && log[i] == e && e.runId == runId && forall j :: i < j < |log| ==> log[j].runId != runId
  }

  predicate Agrees(e: Entry, root: Root) {
    e.downpipeId == root.downpipeId && e.index == root.runlogIndex && e.prevRunId == root.prevRunId
  }

  method LookupRunEntry(entries: seq<Entry>, runId: string, root: Root) returns (r: Found)
    ensures r.Found? ==> IsEntryOf(entries, runId, r.entry) && Agrees(r.entry, root)
    ensures r.Found? ==> IsMax(entries, None, r.runlogMax) && IsMax(entries, Some(root.downpipeId), r.downpipeMax)
    ensures r.NotFound? ==> forall e :: IsEntryOf(entries, runId, e) ==> !Agrees(e, root)
    ensures r == NotFound(Absent) <==> forall e :: e in entries ==> e.runId != runId
  {
    hide IsMax;
    var mine: Option<Entry> := None;
    var runlogMax, downpipeMax := 0, 0;
    NoMax(None);
    NoMax(Some(root.downpipeId));
    for i := 0 to |entries|
      invariant IsMax(entries[..i], None, runlogMax) && IsMax(entries[..i], Some(root.downpipeId), downpipeMax)
      invariant mine.None? ==> forall j :: 0 <= j < i ==> entries[j].runId != runId
      invariant mine.Some? ==> exists p :: 0 <= p < i && entries[p] == mine.value && mine.value.runId == runId
                                            && forall j :: p < j < i ==> entries[j].runId != runId
    {
      var e := entries[i];
      MaxStep(entries, i, None, runlogMax);
      MaxStep(entries, i, Some(root.downpipeId), downpipeMax);
      if e.index > runlogMax {
        runlogMax := e.index;
      }
      if e.downpipeId == root.downpipeId && e.index > downpipeMax {
        downpipeMax := e.index;
      }
      if e.runId == runId {
        mine := Some(e);
      }
    }
    assert entries[..|entries|] == entries;
    if mine.None? {
      return NotFound(Absent);
    }
    OneEntry(entries, runId, mine.value);
    var e := mine.value;
    if e.downpipeId != root.downpipeId {
      return NotFound(OtherDownpipe);
    }
    if e.index != root.runlogIndex {
      return NotFound(IndexDisagrees);
    }
    if e.prevRunId != root.prevRunId {
      return NotFound(PrevDisagrees);
    }
    r := Found(e, runlogMax, downpipeMax);
  }

  lemma NoMax(ofDownpipe: Option<string>)
    ensures IsMax([], ofDownpipe, 0)
  {
  }

  lemma MaxStep(log: seq<Entry>, i: nat, ofDownpipe: Option<string>, m: int)
    requires i < |log| && IsMax(log[..i], ofDownpipe, m)
    ensures var e := log[i];
            IsMax(log[..i + 1], ofDownpipe, if (ofDownpipe.None? || e.downpipeId == ofDownpipe.value) && e.index > m then e.index else m)
  {
    assert log[..i + 1] == log[..i] + [log[i]];
  }

  lemma OneEntry(log: seq<Entry>, runId: string, e: Entry)
    requires IsEntryOf(log, runId, e)
    ensures e in log && e.runId == runId
    ensures forall f :: IsEntryOf(log, runId, f) ==> f == e
  {
  }

  datatype Unchecked = SignatureUndecodable | SignatureInvalid | Unparseable | Empty | Disagreement(why: Unbound)

  datatype Finding = CouldNotRun(cause: Unchecked) | Anomalous(anomaly: Anomaly) | BelowPin | NotLatest

  datatype FreshnessResult = FreshnessResult(
    isLatestForDownpipe: bool,
    maxIndexForDownpipe: int,
    runlogMaxIndex: int,
    rollbackWarning: bool,
    unchecked: bool,
    runlogUntrusted: bool)

  datatype Signature = Undecodable | Invalid | Valid

  function UncheckedFreshness(): FreshnessResult { FreshnessResult(false, 0, 0, true, true, true) }

  /** The finding is about the log's trustworthiness rather than the run's age. */
  predicate RunlogUntrusted(f: Option<Finding>) {
    f.Some? && (f.value.CouldNotRun? || f.value.Anomalous?)
  }

  /** The run is in a well-formed log as its root says, nothing newer of its downpipe is, and the
      log reaches the pinned index. */
  ghost predicate Fresh(log: seq<Entry>, runId: string, root: Root, minIndex: int) {
    Trusted(log, runId, root) && Newest(log, root, minIndex)
  }

  /** The log is well formed and says of the run what its root says. */
  ghost predicate Trusted(log: seq<Entry>, runId: string, root: Root) {
    Chained(log) && exists e :: IsEntryOf(log, runId, e) && Agrees(e, root)
  }

  ghost predicate Newest(log: seq<Entry>, root: Root, minIndex: int) {
    && (forall f :: f in log && f.downpipeId == root.downpipeId ==> f.index <= root.runlogIndex)
    && (minIndex > 0 ==> exists f :: f in log && f.index >= minIndex)
  }

  /** Passes exactly the fresh runs of a signed, parseable log. The result's flags say which of
      the two acknowledgements a refusal needs, in step with the finding. */
  method CheckFreshness(sig: Signature, parsed: Option<seq<Entry>>, runId: string, root: Root, minIndex: int)
    returns (result: FreshnessResult, finding: Option<Finding>)
    requires parsed.Some? ==> forall e :: e in parsed.value ==> e.index >= 0
    ensures finding.None? <==> sig.Valid? && parsed.Some? && Fresh(parsed.value, runId, root, minIndex)
    ensures result.rollbackWarning <==> finding.Some?
    ensures result.unchecked <==> finding.Some? && finding.value.CouldNotRun?
    ensures result.runlogUntrusted <==> RunlogUntrusted(finding)
    ensures result.runlogUntrusted <==> !(sig.Valid? && parsed.Some? && Trusted(parsed.value, runId, root))
    ensures !result.unchecked ==> parsed.Some? && IsMax(parsed.value, None, result.runlogMaxIndex)
                                  && IsMax(parsed.value, Some(root.downpipeId), result.maxIndexForDownpipe)
                                  && (result.isLatestForDownpipe <==> root.runlogIndex == result.maxIndexForDownpipe)
    ensures finding == Some(NotLatest) ==>
              Chained(parsed.value) && exists f :: f in parsed.value && f.downpipeId == root.downpipeId && f.index > root.runlogIndex
  {
    hide Chained, IsEntryOf;
    if sig.Undecodable? {
      return UncheckedFreshness(), Some(CouldNotRun(SignatureUndecodable));
    }
    if sig.Invalid? {
      return UncheckedFreshness(), Some(CouldNotRun(SignatureInvalid));
    }
    if parsed.None? {
      return UncheckedFreshness(), Some(CouldNotRun(Unparseable));
    }
    var entries := parsed.value;
    if |entries| == 0 {
      NoEntry(runId);
      return UncheckedFreshness(), Some(CouldNotRun(Empty));
    }
    var found := LookupRunEntry(entries, runId, root);
    if found.NotFound? {
      return UncheckedFreshness(), Some(CouldNotRun(Disagreement(found.why)));
    }
    var e := found.entry;
    OneEntry(entries, runId, e);
    result := FreshnessResult(e.index == found.downpipeMax, found.downpipeMax, found.runlogMax, false, false, false);
    var anomaly := DetectChainAnomaly(entries);
    if anomaly.Some? {
      return result.(rollbackWarning := true, runlogUntrusted := true), Some(Anomalous(anomaly.value));
    }
    if minIndex > 0 && found.runlogMax < minIndex {
      return result.(rollbackWarning := true), Some(BelowPin);
    }
    if !result.isLatestForDownpipe {
      return result.(rollbackWarning := true), Some(NotLatest);
    }
    finding := None;
  }

  lemma NoEntry(runId: string)
    ensures forall e :: !IsEntryOf([], runId, e)
  {
  }

  /** Some signed root of the downpipe passes the check as this run. */
  ghost predicate CanPass(log: seq<Entry>, downpipeId: string, runId: string) {
    exists root: Root :: root.downpipeId == downpipeId && Fresh(log, runId, root, 0)
  }

  /** Of each downpipe with an entry, exactly one run can pass. */
  lemma ExactlyOneCanPass(log: seq<Entry>, downpipeId: string) returns (runId: string)
    requires Chained(log) && DistinctRunIds(log)
    requires exists e :: e in log && e.downpipeId == downpipeId
    ensures forall id :: CanPass(log, downpipeId, id) <==> id == runId
  {
    hide Chained;
    var newest := NewestEntry(log, downpipeId);
    runId := newest.runId;
    EntryIsItself(log, newest);
    var root := Root(downpipeId, newest.index, newest.prevRunId);
    assert Agrees(newest, root) && Fresh(log, runId, root, 0);
    forall id | CanPass(log, downpipeId, id)
      ensures id == runId
    {
      SameAsNewest(log, downpipeId, id, newest);
    }
  }

  lemma SameAsNewest(log: seq<Entry>, downpipeId: string, id: string, newest: Entry)
    requires Chained(log) && CanPass(log, downpipeId, id)
    requires newest in log && newest.downpipeId == downpipeId
    requires forall f :: f in log && f.downpipeId == downpipeId ==> f.index <= newest.index
    ensures id == newest.runId
  {
    hide Linear, Resolved, Unforked;
    var root: Root :| root.downpipeId == downpipeId && Fresh(log, id, root, 0);
    var e :| IsEntryOf(log, id, e) && Agrees(e, root);
    assert e in log && e.index == newest.index;
    var p := Position(log, e);
    var q := Position(log, newest);
  }

  lemma EntryIsItself(log: seq<Entry>, e: Entry)
    requires DistinctRunIds(log) && e in log
    ensures IsEntryOf(log, e.runId, e)
  {
    var p := Position(log, e);
  }

  lemma {:induction false} NewestEntry(log: seq<Entry>, downpipeId: string) returns (newest: Entry)
    requires exists e :: e in log && e.downpipeId == downpipeId
    ensures newest in log && newest.downpipeId == downpipeId
    ensures forall f :: f in log && f.downpipeId == downpipeId ==> f.index <= newest.index
  {
    var n := |log| - 1;
    assert log == log[..n] + [log[n]];
    if e :| e in log[..n] && e.downpipeId == downpipeId {
      newest := NewestEntry(log[..n], downpipeId);
      if log[n].downpipeId == downpipeId && log[n].index > newest.index {
        newest := log[n];
      }
    } else {
      newest := log[n];
    }
  }
}
