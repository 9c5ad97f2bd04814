/** The writer's side of the RUNLOG. */
module RunlogWriter {
  // One account-wide counter, indices taken when a run is triggered, entries appended when it
  // finalises, and any number of runs in flight. Which of the logs it can leave keep the chain
  // rules.
  import opened Common
  import opened Sorting
  import opened Runlog

  datatype Flight = Flight(index: int, downpipeId: string)

  /** `flying` holds the runs under way, by run id; `done` the entries in the order they were
      finalised in, without their status, whatever has become of the log since. */
  datatype Writer = Writer(counter: int, flying: map<string, Flight>, used: set<string>, done: seq<Entry>, log: seq<Entry>)

  datatype Step =
    | Trigger(downpipeId: string, runId: string)
    | Finalise(runId: string)
    | Abandon(runId: string)
    | Supersede(line: nat)
    | Rewrite(lines: seq<Entry>)

  function Fresh(): Writer { Writer(1, map[], {}, [], []) }

  predicate Enabled(w: Writer, s: Step) {
    match s
    case Trigger(_, id) => id !in w.used
    case Finalise(id) => id in w.flying
    case Abandon(id) => id in w.flying
    case Supersede(i) => i < |w.log|
    case Rewrite(lines) => multiset(lines) == multiset(w.log)
  }

  /** The run of the downpipe that was finalised last. */
  function LastRun(done: seq<Entry>, d: string): Option<string> {
    if done == [] then None
    else
      var e := done[|done| - 1];
      if e.downpipeId == d then Some(e.runId) else LastRun(done[..|done| - 1], d)
  }

  /** A run chains to the run of its downpipe that was finalised last. */
  function NewEntry(w: Writer, id: string): Entry
    requires id in w.flying
  {
    Entry(w.flying[id].index, id, w.flying[id].downpipeId, LastRun(w.done, w.flying[id].downpipeId), "active")
  }

  /** An abandoned run has used its index up and leaves no entry. */
  function After(w: Writer, s: Step): Writer
    requires Enabled(w, s)
  {
    match s
    case Trigger(d, id) => w.(counter := w.counter + 1, flying := w.flying[id := Flight(w.counter, d)], used := w.used + {id})
    case Finalise(id) =>
      w.(log := w.log + [NewEntry(w, id)], done := w.done + [Bare(NewEntry(w, id))], flying := w.flying - {id})
    case Abandon(id) => w.(flying := w.flying - {id})
    case Supersede(i) => w.(log := w.log[i := w.log[i].(status := "superseded")])
    case Rewrite(lines) => w.(log := lines)
  }

  predicate IsRun(steps: seq<Step>, states: seq<Writer>) {
    && |states| == |steps| + 1 && states[0] == Fresh()
    && forall i :: 0 <= i < |steps| ==> Enabled(states[i], steps[i]) && states[i + 1] == After(states[i], steps[i])
  }

  // ---- Status carries no weight in the chain rules ----

  function Bare(e: Entry): Entry { e.(status := "") }

  function BareLog(log: seq<Entry>): (r: seq<Entry>)
    ensures |r| == |log| && forall i :: 0 <= i < |log| ==> r[i] == Bare(log[i])
  {
    seq(|log|, i requires 0 <= i < |log| => Bare(log[i]))
  }

  lemma StatusCarriesNoWeight(log: seq<Entry>, other: seq<Entry>)
    requires BareLog(log) == BareLog(other)
    ensures Chained(log) <==> Chained(other)
  {
    hide Chained;
    SameButStatus(log, other);
    forall i | 0 <= i < |log|
      ensures Bare(log[i]) == Bare(other[i])
    {
      assert BareLog(log)[i] == BareLog(other)[i];
    }
    if Chained(log) {
      ChainedButStatus(log, other);
    }
    if Chained(other) {
      ChainedButStatus(other, log);
    }
  }

  lemma SameButStatus(log: seq<Entry>, other: seq<Entry>)
    requires BareLog(log) == BareLog(other)
    ensures |log| == |other|
  {
    assert |BareLog(log)| == |log| && |BareLog(other)| == |other|;
  }

  lemma ChainedButStatus(log: seq<Entry>, other: seq<Entry>)
    requires |log| == |other| && forall i :: 0 <= i < |log| ==> Bare(log[i]) == Bare(other[i])
    requires Chained(log)
    ensures Chained(other)
  {
    forall e, f | e in other && f in other && Next(other, e, f)
      ensures f.prevRunId == Some(e.runId)
    {
      var p := Position(other, e);
      var q := Position(other, f);
      NextButStatus(log, other, p, q);
    }
    forall e | e in other && e.prevRunId.Some?
      ensures exists f :: f in other && f.runId == e.prevRunId.value
    {
      var p := Position(other, e);
      var g :| g in log && g.runId == log[p].prevRunId.value;
      var q := Position(log, g);
      assert other[q].runId == g.runId;
    }
    forall e, f | e in other && f in other && e != f && e.prevRunId.Some?
      ensures e.prevRunId != f.prevRunId
    {
      var p := Position(other, e);
      var q := Position(other, f);
      assert log[p].index != log[q].index;
    }
  }

  lemma NextButStatus(log: seq<Entry>, other: seq<Entry>, p: nat, q: nat)
    requires |log| == |other| && forall i :: 0 <= i < |log| ==> Bare(log[i]) == Bare(other[i])
    requires p < |log| && q < |log| && Next(other, other[p], other[q])
    ensures Next(log, log[p], log[q])
  {
    forall g | g in log && g.downpipeId == log[p].downpipeId
      ensures !(log[p].index < g.index < log[q].index)
    {
      var r := Position(log, g);
      assert other[r] in other;
    }
  }

  // ---- Histories: entries in the order they were finalised in ----

  predicate Distinct(h: seq<Entry>) { DistinctIndices(h) && DistinctRunIds(h) }

  predicate ChainsToLast(h: seq<Entry>) {
    forall q :: 0 <= q < |h| ==> h[q].prevRunId == LastRun(h[..q], h[q].downpipeId)
  }

  /** Each downpipe's runs were finalised in the order of their indices. */
  predicate InOrder(h: seq<Entry>) {
    forall p, q :: 0 <= p < q < |h| && h[p].downpipeId == h[q].downpipeId ==> h[p].index < h[q].index
  }

  lemma {:induction false} LastRunIsLast(h: seq<Entry>, q: nat, d: string)
    requires q <= |h|
    ensures LastRun(h[..q], d).None? ==> forall p :: 0 <= p < q ==> h[p].downpipeId != d
    ensures LastRun(h[..q], d).Some? ==> exists p :: 0 <= p < q && LastOf(h, q, d, p) && LastRun(h[..q], d) == Some(h[p].runId)
  {
    if q > 0 {
      assert h[..q][..q - 1] == h[..q - 1] && h[..q][q - 1] == h[q - 1];
      if h[q - 1].downpipeId == d {
        assert LastOf(h, q, d, q - 1);
      } else {
        LastRunIsLast(h, q - 1, d);
        if LastRun(h[..q - 1], d).Some? {
          var p :| 0 <= p < q - 1 && LastOf(h, q - 1, d, p) && LastRun(h[..q - 1], d) == Some(h[p].runId);
          assert LastOf(h, q, d, p);
        }
      }
    }
  }

  /** The position an entry chains to. */
  lemma Predecessor(h: seq<Entry>, q: nat) returns (p: nat)
    requires ChainsToLast(h) && q < |h| && h[q].prevRunId.Some?
    ensures p < q && LastOf(h, q, h[q].downpipeId, p) && h[q].prevRunId == Some(h[p].runId)
  {
    LastRunIsLast(h, q, h[q].downpipeId);
    p :| 0 <= p < q && LastOf(h, q, h[q].downpipeId, p) && LastRun(h[..q], h[q].downpipeId) == Some(h[p].runId);
  }

  lemma SameRunId(h: seq<Entry>, p: nat, q: nat)
    requires DistinctRunIds(h) && p < |h| && q < |h| && h[p].runId == h[q].runId
    ensures p == q
  {
  }

  /** Nothing a writer appends dangles or forks, whatever the order. */
  lemma HistoryResolves(h: seq<Entry>)
    requires Distinct(h) && ChainsToLast(h)
    ensures Resolved(h) && Unforked(h)
  {
    hide ChainsToLast, DistinctIndices, DistinctRunIds, LastOf;
    forall e | e in h && e.prevRunId.Some?
      ensures exists f :: f in h && f.runId == e.prevRunId.value
    {
      var q := Position(h, e);
      var p := Predecessor(h, q);
      assert h[p] in h;
    }
    forall e, f | e in h && f in h && e != f && e.prevRunId.Some?
      ensures e.prevRunId != f.prevRunId
    {
      var p := Position(h, e);
      var q := Position(h, f);
      if e.prevRunId == f.prevRunId {
        SamePredecessor(h, p, q);
      }
    }
  }

  lemma SamePredecessor(h: seq<Entry>, p: nat, q: nat)
    requires Distinct(h) && ChainsToLast(h) && p < |h| && q < |h|
    requires h[p].prevRunId.Some? && h[p].prevRunId == h[q].prevRunId
    ensures p == q
  {
    hide ChainsToLast;
    var a := Predecessor(h, p);
    var b := Predecessor(h, q);
    SameRunId(h, a, b);
  }

  lemma InOrderIsLinear(h: seq<Entry>)
    requires ChainsToLast(h) && InOrder(h)
    ensures Linear(h)
  {
    hide ChainsToLast;
    forall e, f | e in h && f in h && Next(h, e, f)
      ensures f.prevRunId == Some(e.runId)
    {
      var p := Position(h, e);
      var q := Position(h, f);
      ChainsToNext(h, p, q);
    }
  }

  lemma ChainsToNext(h: seq<Entry>, p: nat, q: nat)
    requires ChainsToLast(h) && InOrder(h) && p < |h| && q < |h| && Next(h, h[p], h[q])
    ensures h[q].prevRunId == Some(h[p].runId)
  {
    assert p < q;
    LastRunIsLast(h, q, h[q].downpipeId);
    var last := Predecessor(h, q);
    assert h[last] in h;
  }

  /** The entry just below a given one, in index order. */
  lemma {:induction false} EntryBelow(log: seq<Entry>, g: Entry, f: Entry) returns (e: Entry)
    requires g in log && f in log && g.downpipeId == f.downpipeId && g.index < f.index
    ensures e in log && Next(log, e, f)
    decreases f.index - g.index
  {
    if h :| h in log && h.downpipeId == f.downpipeId && g.index < h.index < f.index {
      e := EntryBelow(log, h, f);
    } else {
      e := g;
    }
  }

  /** The first run of an entry's downpipe to be finalised. */
  lemma {:induction false} FirstFinalised(h: seq<Entry>, q: nat) returns (s: nat)
    requires ChainsToLast(h) && q < |h|
    ensures s <= q && h[s].downpipeId == h[q].downpipeId && h[s].prevRunId.None?
  {
    if h[q].prevRunId.None? {
      s := q;
    } else {
      var p := Predecessor(h, q);
      s := FirstFinalised(h, p);
    }
  }

  /** In a linear history each entry has a greater index than the one it chains to. */
  lemma LinearRises(h: seq<Entry>, q: nat)
    requires Distinct(h) && ChainsToLast(h) && Linear(h) && q < |h| && h[q].prevRunId.Some?
    ensures exists p :: 0 <= p < q && LastOf(h, q, h[q].downpipeId, p) && h[p].index < h[q].index
  {
    hide ChainsToLast, LastOf;
    var p := Predecessor(h, q);
    var s := FirstFinalised(h, q);
    assert h[s] in h && h[q] in h && h[s].index != h[q].index;
    if h[q].index < h[s].index {
      var e := EntryBelow(h, h[q], h[s]);
      assert false;
    }
    var e := EntryBelow(h, h[s], h[q]);
    var b := Position(h, e);
    SameRunId(h, b, p);
  }

  lemma {:induction false} LinearIsInOrder(h: seq<Entry>, p: nat, q: nat)
    requires Distinct(h) && ChainsToLast(h) && Linear(h)
    requires p < q < |h| && h[p].downpipeId == h[q].downpipeId
    ensures h[p].index < h[q].index
    decreases q
  {
    hide Linear, DistinctIndices, DistinctRunIds;
    LastRunIsLast(h, q, h[q].downpipeId);
    LinearRises(h, q);
    var last :| 0 <= last < q && LastOf(h, q, h[q].downpipeId, last) && h[last].index < h[q].index;
    if p != last {
      LinearIsInOrder(h, p, last);
    }
  }

  lemma HistoryChained(h: seq<Entry>)
    requires Distinct(h) && ChainsToLast(h)
    ensures Chained(h) <==> InOrder(h)
  {
    hide Linear, Resolved, Unforked, DistinctRunIds, ChainsToLast;
    HistoryResolves(h);
    if InOrder(h) {
      InOrderIsLinear(h);
    }
    if Linear(h) {
      forall p, q | 0 <= p < q < |h| && h[p].downpipeId == h[q].downpipeId
        ensures h[p].index < h[q].index
      {
        LinearIsInOrder(h, p, q);
      }
    }
  }

  // ---- What every run of the writer keeps ----

  /** Indices below the counter and used run ids: of the entries, and of the runs still flying,
      which share neither with an entry or each other. */
  predicate InvIds(w: Writer) {
    && (forall q :: 0 <= q < |w.done| ==> w.done[q].index < w.counter && w.done[q].runId in w.used)
    && (forall id :: id in w.flying ==> w.flying[id].index < w.counter && id in w.used)
    && (forall id, q :: id in w.flying && 0 <= q < |w.done| ==> w.done[q].index != w.flying[id].index && w.done[q].runId != id)
    && (forall a, b :: a in w.flying && b in w.flying && a != b ==> w.flying[a].index != w.flying[b].index)
  }

  /** The log holds the history, in some order and under some status. */
  predicate Holds(log: seq<Entry>, done: seq<Entry>) { multiset(BareLog(log)) == multiset(done) }

  predicate Inv(w: Writer) { InvIds(w) && Distinct(w.done) && ChainsToLast(w.done) && Holds(w.log, w.done) }

  lemma BareAppend(log: seq<Entry>, e: Entry)
    ensures BareLog(log + [e]) == BareLog(log) + [Bare(e)]
  {
  }

  lemma AppendIds(w: Writer, id: string)
    requires InvIds(w) && Distinct(w.done) && id in w.flying
    ensures InvIds(After(w, Finalise(id))) && Distinct(After(w, Finalise(id)).done)
  {
    hide LastRun;
  }

  lemma AppendChains(w: Writer, id: string)
    requires ChainsToLast(w.done) && id in w.flying
    ensures ChainsToLast(After(w, Finalise(id)).done)
  {
    hide LastRun;
    var done := After(w, Finalise(id)).done;
    forall q | 0 <= q < |done|
      ensures done[q].prevRunId == LastRun(done[..q], done[q].downpipeId)
    {
      assert done[..q] == w.done[..q];
      assert w.done[..|w.done|] == w.done;
    }
  }

  lemma FinaliseKeepsInv(w: Writer, id: string)
    requires Inv(w) && id in w.flying
    ensures Inv(After(w, Finalise(id)))
  {
    AppendIds(w, id);
    AppendChains(w, id);
    assert Holds(w.log + [NewEntry(w, id)], w.done + [Bare(NewEntry(w, id))]) by {
      BareAppend(w.log, NewEntry(w, id));
      hide InvIds, Distinct, ChainsToLast, LastRun, BareLog;
    }
    hide InvIds, Distinct, ChainsToLast, LastRun, Holds;
  }

  lemma WithoutHead(s: seq<Entry>)
    requires s != []
    ensures multiset(s[1..]) == multiset(s) - multiset{s[0]} && multiset(s) == multiset{s[0]} + multiset(s[1..])
  {
    assert s == [s[0]] + s[1..];
  }

  lemma WithoutAt(s: seq<Entry>, p: nat)
    requires p < |s|
    ensures multiset(Without(s, p)) == multiset(s) - multiset{s[p]} && multiset(s) == multiset{s[p]} + multiset(Without(s, p))
  {
    assert s == s[..p] + [s[p]] + s[p + 1..];
  }

  lemma BareWithout(s: seq<Entry>, p: nat)
    requires p < |s|
    ensures Without(BareLog(s), p) == BareLog(Without(s, p))
  {
  }

  lemma {:induction false} BareRewrite(log: seq<Entry>, lines: seq<Entry>)
    requires multiset(log) == multiset(lines)
    ensures multiset(BareLog(log)) == multiset(BareLog(lines))
    decreases |log|
  {
    hide Without, BareLog;
    if log == [] {
      assert |multiset(lines)| == 0;
      assert lines == [];
    } else {
      assert log[0] in multiset(lines);
      var p := Position(lines, log[0]);
      WithoutHead(log);
      WithoutAt(lines, p);
      BareRewrite(log[1..], Without(lines, p));
      WithoutHead(BareLog(log));
      WithoutAt(BareLog(lines), p);
      BareWithout(lines, p);
      BareTail(log);
    }
  }

  lemma BareTail(s: seq<Entry>)
    requires s != []
    ensures BareLog(s)[1..] == BareLog(s[1..])
  {
  }

  lemma StepKeepsInv(w: Writer, s: Step)
    requires Inv(w) && Enabled(w, s)
    ensures Inv(After(w, s))
  {
    match s
    case Trigger(_, _) => hide Distinct, ChainsToLast, Holds;
    case Finalise(id) => FinaliseKeepsInv(w, id);
    case Abandon(_) => hide Distinct, ChainsToLast, Holds;
    case Supersede(_) =>
      assert BareLog(After(w, s).log) == BareLog(w.log);
      hide Distinct, ChainsToLast;
    case Rewrite(lines) =>
      BareRewrite(lines, w.log);
      hide Distinct, ChainsToLast;
  }

  lemma {:induction false} RunKeepsInv(steps: seq<Step>, states: seq<Writer>, n: nat)
    requires IsRun(steps, states) && n < |states|
    ensures Inv(states[n])
  {
    if n > 0 {
      hide Enabled, After, Inv;
      RunKeepsInv(steps, states, n - 1);
      StepKeepsInv(states[n - 1], steps[n - 1]);
    }
  }

  /** The log a writer leaves, whatever runs failed, were pruned or were rewritten into another
      line, repeats no run id, and keeps the chain rules if and only if each downpipe's runs
      were finalised in the order they were triggered in. */
  lemma LogChainedExactly(steps: seq<Step>, states: seq<Writer>, n: nat)
    requires IsRun(steps, states) && n < |states|
    ensures DistinctRunIds(states[n].log)
    ensures Chained(states[n].log) <==> InOrder(states[n].done)
  {
    RunKeepsInv(steps, states, n);
    var w := states[n];
    hide IsRun, InvIds, Chained, InOrder, ChainsToLast, Distinct, BareLog;
    HistoryChained(w.done);
    RulesIgnoreOrder(w.done, BareLog(w.log));
    BareTwice(w.log);
    StatusCarriesNoWeight(w.log, BareLog(w.log));
    NoRunIdTwice(w.log, w.done);
  }

  lemma BareTwice(log: seq<Entry>)
    ensures BareLog(BareLog(log)) == BareLog(log)
  {
  }

  lemma NoRunIdTwice(log: seq<Entry>, done: seq<Entry>)
    requires Distinct(done) && Holds(log, done)
    ensures DistinctRunIds(log) && DistinctIndices(log)
  {
    var bare := BareLog(log);
    DistinctInAnyOrder(done, bare);
    SameElements(done, bare);
    forall i, j | 0 <= i < j < |log|
      ensures log[i].runId != log[j].runId && log[i].index != log[j].index
    {
      assert bare[i] in done && bare[j] in done && bare[i].index != bare[j].index;
      var p := Position(done, bare[i]);
      var q := Position(done, bare[j]);
    }
  }

  // ---- Writers that keep the order, and one that does not ----

  /** No run is triggered while another of its downpipe is under way. */
  predicate OneAtATime(steps: seq<Step>, states: seq<Writer>)
    requires |states| == |steps| + 1
  {
    forall i, id :: 0 <= i < |steps| && steps[i].Trigger? && id in states[i].flying ==>
      states[i].flying[id].downpipeId != steps[i].downpipeId
  }

  predicate InvAlone(w: Writer) {
    && InOrder(w.done)
    && (forall a, b :: a in w.flying && b in w.flying && a != b ==> w.flying[a].downpipeId != w.flying[b].downpipeId)
    && (forall id, q :: id in w.flying && 0 <= q < |w.done| && w.done[q].downpipeId == w.flying[id].downpipeId ==>
          w.done[q].index < w.flying[id].index)
  }

  lemma AloneStep(w: Writer, s: Step)
    requires InvIds(w) && InvAlone(w) && Enabled(w, s)
    requires s.Trigger? ==> forall id :: id in w.flying ==> w.flying[id].downpipeId != s.downpipeId
    ensures InvAlone(After(w, s))
  {
    hide LastRun;
  }

  lemma {:induction false} AloneInvariant(steps: seq<Step>, states: seq<Writer>, n: nat)
    requires IsRun(steps, states) && OneAtATime(steps, states) && n < |states|
    ensures InvAlone(states[n])
  {
    if n > 0 {
      AloneInvariant(steps, states, n - 1);
      RunKeepsInv(steps, states, n - 1);
      hide Enabled, After, InvIds, InvAlone, Distinct, ChainsToLast, Holds;
      AloneStep(states[n - 1], steps[n - 1]);
    }
  }

  /** A writer that runs one backup of a downpipe at a time leaves well-formed logs only, with
      whatever gaps, interleaving of downpipes, superseded entries and line order. */
  lemma OneAtATimeIsChained(steps: seq<Step>, states: seq<Writer>, n: nat)
    requires IsRun(steps, states) && OneAtATime(steps, states) && n < |states|
    ensures Chained(states[n].log)
  {
    hide IsRun, OneAtATime, Chained;
    AloneInvariant(steps, states, n);
    LogChainedExactly(steps, states, n);
  }

  /** Two runs of one downpipe that overlap and finish in the other order leave a log that the
      chain rules refuse. */
  lemma OverlapIsRefused() returns (steps: seq<Step>, states: seq<Writer>)
    ensures IsRun(steps, states) && !Chained(states[|steps|].log)
  {
    steps := [Trigger("d", "a"), Trigger("d", "b"), Finalise("b"), Finalise("a")];
    var w1 := After(Fresh(), steps[0]);
    var w2 := After(w1, steps[1]);
    var w3 := After(w2, steps[2]);
    var w4 := After(w3, steps[3]);
    states := [Fresh(), w1, w2, w3, w4];
    assert w2.flying["a"].index == 1 && w2.flying["b"].index == 2;
    assert w4.done[0].index == 2 && w4.done[1].index == 1;
    LogChainedExactly(steps, states, 4);
  }

  // ---- What can be removed ----

  lemma {:induction false} NextExists(log: seq<Entry>, e: Entry, g: Entry) returns (f: Entry)
    requires e in log && g in log && e.downpipeId == g.downpipeId && e.index < g.index
    ensures f in log && Next(log, e, f)
    decreases g.index - e.index
  {
    if h :| h in log && h.downpipeId == e.downpipeId && e.index < h.index < g.index {
      f := NextExists(log, e, h);
    } else {
      f := g;
    }
  }

  /** Of a well-formed log a writer has left, exactly the newest entry of each downpipe can be
      removed without breaking a chain rule. */
  lemma OnlyNewestGoesUnnoticed(steps: seq<Step>, states: seq<Writer>, n: nat, i: nat)
    requires IsRun(steps, states) && n < |states| && i < |states[n].log| && Chained(states[n].log)
    ensures var log := states[n].log;
            Chained(Without(log, i)) <==>
            forall f :: f in log && f.downpipeId == log[i].downpipeId ==> f.index <= log[i].index
  {
    var w := states[n];
    var log, gone := w.log, w.log[i];
    RunKeepsInv(steps, states, n);
    LogChainedExactly(steps, states, n);
    hide IsRun;
    RemovalDetected(log, i);
    hide Without, Resolved, Unforked;
    if g :| g in log && g.downpipeId == gone.downpipeId && g.index > gone.index {
      var f := NextExists(log, gone, g);
      assert f.prevRunId == Some(gone.runId) && f != gone;
    } else {
      NewestUnnamed(w, gone);
    }
  }

  lemma NewestUnnamed(w: Writer, t: Entry)
    requires Inv(w) && InOrder(w.done)
    requires t in w.log && forall f :: f in w.log && f.downpipeId == t.downpipeId ==> f.index <= t.index
    ensures forall e :: e in w.log ==> e.prevRunId != Some(t.runId)
  {
    hide InvIds, ChainsToLast, InOrder;
    SameElements(BareLog(w.log), w.done);
    var a := Position(w.log, t);
    assert BareLog(w.log)[a] in w.done;
    forall e | e in w.log
      ensures e.prevRunId != Some(t.runId)
    {
      var b := Position(w.log, e);
      assert BareLog(w.log)[b] in w.done;
      if e.prevRunId == Some(t.runId) {
        var q := Position(w.done, Bare(e));
        var p := Position(w.done, Bare(t));
        NamedIsOlder(w.done, q, p);
      }
    }
  }

  lemma NamedIsOlder(h: seq<Entry>, q: nat, p: nat)
    requires Distinct(h) && ChainsToLast(h) && InOrder(h)
    requires p < |h| && q < |h| && h[q].prevRunId == Some(h[p].runId)
    ensures h[p].downpipeId == h[q].downpipeId && h[p].index < h[q].index
  {
    hide ChainsToLast;
    var last := Predecessor(h, q);
    SameRunId(h, last, p);
  }
}
