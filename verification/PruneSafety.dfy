/** What holds over whole prunes. */
module PruneSafety {
  // One pass cut short anywhere, the pass computed afresh from what it left, and any number of
  // such passes in a row.
  import opened Common
  import opened PrunePlan
  import opened PruneApply
  import Sorting

  function RefsAll(open: Opener, objects: Objects, ids: seq<RunId>): (out: seq<RunRefs>)
    ensures |out| == |ids|
  {
    seq(|ids|, i requires 0 <= i < |ids| => Refs(open, objects, ids[i]))
  }

  /** The runs the policy keeps and drops: distinct, slash-free ids. */
  predicate WellNamed(keep: seq<RunId>, drop: seq<RunId>) {
    && (forall id :: id in keep + drop ==> SlashFree(id))
    && (forall id :: id in keep ==> id !in drop)
    && (forall i, j :: 0 <= i < j < |drop| ==> drop[i] != drop[j])
  }

  /** Whatever opens, the segments it names live outside the run trees. */
  ghost predicate SegmentsOutside(open: Opener) {
    forall id, tree, rec, k :: open(id, tree).OpenedRun? && rec in open(id, tree).records && k in rec ==> !("run/" <= k)
  }

  /** The plan one pass computes from what it finds in the store. */
  ghost predicate PlanFrom(open: Opener, objects: Objects, keep: seq<RunId>, drop: seq<RunId>, plan: Plan) {
    && AllComplete(RefsAll(open, objects, keep))
    && IsPlan(RefsAll(open, objects, keep), RefsAll(open, objects, drop), plan)
  }

  lemma RefsIn(open: Opener, objects: Objects, ids: seq<RunId>)
    ensures forall r :: r in RefsAll(open, objects, ids) <==> exists id :: id in ids && r == Refs(open, objects, id)
  {
    hide Refs;
    forall id | id in ids
      ensures Refs(open, objects, id) in RefsAll(open, objects, ids)
    {
      var i :| 0 <= i < |ids| && ids[i] == id;
      assert RefsAll(open, objects, ids)[i] == Refs(open, objects, id);
    }
  }

  lemma RefsOutside(open: Opener, objects: Objects, id: RunId, k: Key)
    requires SegmentsOutside(open) && k in Refs(open, objects, id).objects
    ensures !("run/" <= k)
  {
    hide Tree;
  }

  /** A computed plan meets the preconditions of applying it. */
  lemma PlanIsWellPlaced(open: Opener, objects: Objects, keep: seq<RunId>, drop: seq<RunId>, plan: Plan)
    requires WellNamed(keep, drop) && SegmentsOutside(open) && PlanFrom(open, objects, keep, drop, plan)
    ensures WellPlaced(plan)
    ensures forall id :: id in plan.supersededRuns ==> id in drop
  {
    hide SegmentsOutside, RefsAll, Refs, AllComplete;
    RefsIn(open, objects, drop);
    forall k | k in plan.orphanSegments
      ensures !("run/" <= k)
    {
      var r :| r in RefsAll(open, objects, drop) && r.complete && k in r.objects;
      var id :| id in drop && r == Refs(open, objects, id);
      RefsOutside(open, objects, id, k);
    }
    forall id | id in plan.supersededRuns
      ensures id in drop
    {
      var r :| r in RefsAll(open, objects, drop) && r.complete && r.runId == id;
      RunIdOf(open, objects);
    }
    AscendingDistinct(plan.supersededRuns);
  }

  lemma RunIdOf(open: Opener, objects: Objects)
    ensures forall id :: Refs(open, objects, id).runId == id
  {
  }

  lemma AscendingDistinct(s: seq<string>)
    requires Sorting.Ascending(s, Sorting.Codes)
    ensures forall i, j :: 0 <= i < j < |s| ==> s[i] != s[j]
  {
    hide Sorting.Less, Sorting.Codes;
    forall i, j | 0 <= i < j < |s|
      ensures s[i] != s[j]
    {
      Sorting.LessIsStrict(Sorting.Codes(s[i]), Sorting.Codes(s[j]));
    }
  }

  /** A run outside the plan keeps its whole tree. */
  lemma UnplannedTreeStays(plan: Plan, before: Objects, now: Objects, id: RunId)
    requires WellPlaced(plan) && Obeys(plan, before, now) && SlashFree(id) && id !in plan.supersededRuns
    ensures Tree(now, id) == Tree(before, id)
  {
    hide RunTreePrefix;
    forall k | k in Tree(before, id)
      ensures k in now
    {
      PrefixUnderRun(id, k);
      if other :| other in plan.supersededRuns && RunTreePrefix(other) <= k {
        TreesDisjoint(id, other, k);
      }
    }
  }

  /** The whole of a retained run survives every prefix of a pass: its tree, so that it opens to
      the same records, and every segment it names. */
  lemma RetainedSurvives(open: Opener, before: Objects, now: Objects, keep: seq<RunId>, drop: seq<RunId>, plan: Plan, id: RunId)
    requires WellNamed(keep, drop) && SegmentsOutside(open) && PlanFrom(open, before, keep, drop, plan)
    requires Obeys(plan, before, now) && id in keep
    ensures Tree(now, id) == Tree(before, id) && Refs(open, now, id) == Refs(open, before, id)
    ensures forall k :: k in Refs(open, before, id).objects && k in before ==> k in now && now[k] == before[k]
  {
    hide SegmentsOutside, RefsAll, Tree;
    PlanIsWellPlaced(open, before, keep, drop, plan);
    UnplannedTreeStays(plan, before, now, id);
    forall k | k in Refs(open, before, id).objects && k in before
      ensures k in now
    {
      RefsOutside(open, before, id, k);
      LiveIsNoOrphan(open, before, keep, drop, plan, id, k);
      if other :| other in plan.supersededRuns && RunTreePrefix(other) <= k {
        PrefixUnderRun(other, k);
      }
    }
  }

  lemma LiveIsNoOrphan(open: Opener, objects: Objects, keep: seq<RunId>, drop: seq<RunId>, plan: Plan, id: RunId, k: Key)
    requires PlanFrom(open, objects, keep, drop, plan) && id in keep && k in Refs(open, objects, id).objects
    ensures k !in plan.orphanSegments
  {
    hide RefsAll, Refs;
    RefsIn(open, objects, keep);
    assert Refs(open, objects, id) in RefsAll(open, objects, keep);
  }

  /** A segment the plan covers and that is still there is named only by superseded runs whose
      whole trees are still there. */
  lemma NamedRunsStay(open: Opener, before: Objects, now: Objects, keep: seq<RunId>, drop: seq<RunId>, plan: Plan, k: Key, id: RunId)
    requires PlanFrom(open, before, keep, drop, plan) && Obeys(plan, before, now)
    requires k in plan.orphanSegments && k in now
    requires id in drop && k in Refs(open, before, id).objects
    ensures Tree(now, id) == Tree(before, id) && Refs(open, now, id) == Refs(open, before, id)
  {
    hide RefsAll, Tree, RunTreePrefix;
    RefsIn(open, before, drop);
    var r := Refs(open, before, id);
    assert r in RefsAll(open, before, drop) && r.complete && r.runId == id;
    assert id in plan.supersededRuns && Lists(plan.orphansByRun[id], r.objects - Union(RefsAll(open, before, keep)));
    assert k in OrphansOf(plan, id);
  }

  lemma OrphanIsNamed(open: Opener, objects: Objects, keep: seq<RunId>, drop: seq<RunId>, plan: Plan, k: Key) returns (id: RunId)
    requires PlanFrom(open, objects, keep, drop, plan) && k in plan.orphanSegments
    ensures id in drop && k in Refs(open, objects, id).objects
  {
    hide RefsAll, Refs;
    RefsIn(open, objects, drop);
    var r :| r in RefsAll(open, objects, drop) && r.complete && k in r.objects;
    id :| id in drop && r == Refs(open, objects, id);
  }

  /** A segment that an enumerated superseded run names and no retained run does is an orphan. */
  lemma NamedIsOrphan(open: Opener, objects: Objects, keep: seq<RunId>, drop: seq<RunId>, plan: Plan, k: Key, id: RunId)
    requires PlanFrom(open, objects, keep, drop, plan) && id in drop && k in Refs(open, objects, id).objects
    requires forall other :: other in keep ==> k !in Refs(open, objects, other).objects
    ensures k in plan.orphanSegments
  {
    hide RefsAll;
    RefsIn(open, objects, drop);
    RefsIn(open, objects, keep);
    var r := Refs(open, objects, id);
    assert r in RefsAll(open, objects, drop) && r.complete;
  }

  /** After a pass cut short anywhere, computing again from what is left abstains no more than
      before and plans every orphan segment that is still in the store. */
  lemma ReplanCoversLeftovers(open: Opener, before: Objects, now: Objects, keep: seq<RunId>, drop: seq<RunId>, plan: Plan, again: Plan)
    requires WellNamed(keep, drop) && SegmentsOutside(open)
    requires PlanFrom(open, before, keep, drop, plan) && Obeys(plan, before, now)
    requires IsPlan(RefsAll(open, now, keep), RefsAll(open, now, drop), again)
    ensures AllComplete(RefsAll(open, now, keep)) && PlanFrom(open, now, keep, drop, again)
    ensures forall k :: k in plan.orphanSegments && k in now ==> k in again.orphanSegments
  {
    hide SegmentsOutside, IsPlan, Tree, Refs, RefsAll, Obeys, WellNamed;
    RefsIn(open, before, keep);
    RefsIn(open, now, keep);
    forall id | id in keep
      ensures Refs(open, now, id) == Refs(open, before, id)
    {
      RetainedSurvives(open, before, now, keep, drop, plan, id);
    }
    forall k | k in plan.orphanSegments && k in now
      ensures k in again.orphanSegments
    {
      var id := OrphanIsNamed(open, before, keep, drop, plan, k);
      NamedRunsStay(open, before, now, keep, drop, plan, k, id);
      forall other | other in keep
        ensures k !in Refs(open, now, other).objects
      {
        if k in Refs(open, before, other).objects {
          LiveIsNoOrphan(open, before, keep, drop, plan, other, k);
        }
      }
      NamedIsOrphan(open, now, keep, drop, again, k, id);
    }
  }

  // ---- Any number of passes ----

  /** Passes in a row, each computed from what the one before left and each possibly cut short. */
  ghost predicate Passes(open: Opener, keep: seq<RunId>, drop: seq<RunId>, states: seq<Objects>, plans: seq<Plan>) {
    && |states| == |plans| + 1
    && forall i :: 0 <= i < |plans| ==>
         PlanFrom(open, states[i], keep, drop, plans[i]) && Obeys(plans[i], states[i], states[i + 1])
  }

  /** A retained run has its tree and its segments. */
  ghost predicate Whole(open: Opener, first: Objects, now: Objects, id: RunId) {
    && Tree(now, id) == Tree(first, id) && Refs(open, now, id) == Refs(open, first, id)
    && forall k :: k in Refs(open, first, id).objects && k in first ==> k in now && now[k] == first[k]
  }

  /** No retained run names the segment. */
  ghost predicate Unretained(open: Opener, first: Objects, keep: seq<RunId>, k: Key) {
    forall id :: id in keep ==> k !in Refs(open, first, id).objects
  }

  /** Nothing live is lost, and no dead segment is stranded: as long as it is there, so are the
      whole trees of the superseded runs that name it. */
  ghost predicate Safe(open: Opener, keep: seq<RunId>, drop: seq<RunId>, first: Objects, now: Objects) {
    && Submap(now, first)
    && (forall id :: id in keep ==> Whole(open, first, now, id))
    && (forall id, k :: id in drop && k in Refs(open, first, id).objects && Unretained(open, first, keep, k) && k in now ==>
          Tree(now, id) == Tree(first, id) && Refs(open, now, id) == Refs(open, first, id))
  }

  lemma UntouchedIsSafe(open: Opener, keep: seq<RunId>, drop: seq<RunId>, first: Objects)
    ensures Safe(open, keep, drop, first, first)
  {
    hide Refs, Tree, Unretained;
  }

  /** A pass over a safe state leaves safe states only. */
  lemma PassKeepsSafe(open: Opener, keep: seq<RunId>, drop: seq<RunId>, first: Objects, before: Objects, now: Objects, plan: Plan)
    requires WellNamed(keep, drop) && SegmentsOutside(open)
    requires Safe(open, keep, drop, first, before)
    requires PlanFrom(open, before, keep, drop, plan) && Obeys(plan, before, now)
    ensures Safe(open, keep, drop, first, now)
  {
    hide SegmentsOutside, PlanFrom, Tree, Refs, WellNamed, Unretained;
    forall id | id in keep
      ensures Whole(open, first, now, id)
    {
      RetainedSurvives(open, before, now, keep, drop, plan, id);
    }
    forall id, k | id in drop && k in Refs(open, first, id).objects && Unretained(open, first, keep, k) && k in now
      ensures Tree(now, id) == Tree(first, id) && Refs(open, now, id) == Refs(open, first, id)
    {
      assert k in before && k in Refs(open, before, id).objects;
      StillUnretained(open, keep, drop, first, before, k);
      NamedIsOrphan(open, before, keep, drop, plan, k, id);
      NamedRunsStay(open, before, now, keep, drop, plan, k, id);
    }
  }

  lemma StillUnretained(open: Opener, keep: seq<RunId>, drop: seq<RunId>, first: Objects, before: Objects, k: Key)
    requires Safe(open, keep, drop, first, before) && Unretained(open, first, keep, k)
    ensures forall id :: id in keep ==> k !in Refs(open, before, id).objects
  {
    hide Tree, Refs;
    forall id | id in keep
      ensures k !in Refs(open, before, id).objects
    {
      assert Whole(open, first, before, id);
    }
  }

  /** However many passes are run and wherever each is cut short, nothing live is ever lost and
      no segment is ever stranded. */
  lemma {:induction false} NeverStranded(open: Opener, keep: seq<RunId>, drop: seq<RunId>, states: seq<Objects>, plans: seq<Plan>, n: nat)
    requires WellNamed(keep, drop) && SegmentsOutside(open)
    requires Passes(open, keep, drop, states, plans) && n < |states|
    ensures Safe(open, keep, drop, states[0], states[n])
  {
    hide SegmentsOutside, PlanFrom, WellNamed, Safe, Obeys;
    if n == 0 {
      UntouchedIsSafe(open, keep, drop, states[0]);
    } else {
      NeverStranded(open, keep, drop, states, plans, n - 1);
      PassKeepsSafe(open, keep, drop, states[0], states[n - 1], states[n], plans[n - 1]);
    }
  }

  /** One pass that leaves nothing it planned, after any number of interrupted ones, has removed
      every segment the first of them planned. */
  lemma FinishedPassRemovesAll(open: Opener, keep: seq<RunId>, drop: seq<RunId>, states: seq<Objects>, plans: seq<Plan>, k: Key)
    requires WellNamed(keep, drop) && SegmentsOutside(open)
    requires Passes(open, keep, drop, states, plans) && |plans| > 0
    requires NothingLeft(plans[|plans| - 1], states[|plans|])
    requires k in plans[0].orphanSegments
    ensures k !in states[|plans|]
  {
    hide SegmentsOutside, PlanFrom, WellNamed, Refs, Tree, Unretained;
    var n := |plans| - 1;
    NeverStranded(open, keep, drop, states, plans, n);
    assert PlanFrom(open, states[0], keep, drop, plans[0]) && PlanFrom(open, states[n], keep, drop, plans[n]);
    if k in states[n] {
      var id := OrphanIsNamed(open, states[0], keep, drop, plans[0], k);
      OrphanUnretained(open, states[0], keep, drop, plans[0], k);
      assert k in Refs(open, states[n], id).objects;
      StillUnretained(open, keep, drop, states[0], states[n], k);
      NamedIsOrphan(open, states[n], keep, drop, plans[n], k, id);
    } else {
      assert Obeys(plans[n], states[n], states[n + 1]);
    }
  }

  lemma OrphanUnretained(open: Opener, first: Objects, keep: seq<RunId>, drop: seq<RunId>, plan: Plan, k: Key)
    requires PlanFrom(open, first, keep, drop, plan) && k in plan.orphanSegments
    ensures Unretained(open, first, keep, k)
  {
    hide PlanFrom, Refs;
    forall id | id in keep
      ensures k !in Refs(open, first, id).objects
    {
      if k in Refs(open, first, id).objects {
        LiveIsNoOrphan(open, first, keep, drop, plan, id, k);
      }
    }
  }

  // ---- Run trees ----

  /** What is left of a run's tree when the run no longer opens. */
  predicate Remnant(open: Opener, objects: Objects, id: RunId) {
    !Refs(open, objects, id).complete && Tree(objects, id) != map[]
  }

  /** A pass plans the superseded runs that open, and leaves the tree of one that does not. */
  lemma SupersededIsPlanned(open: Opener, before: Objects, now: Objects, keep: seq<RunId>, drop: seq<RunId>, plan: Plan, id: RunId)
    requires WellNamed(keep, drop) && SegmentsOutside(open) && id in drop
    requires PlanFrom(open, before, keep, drop, plan) && Obeys(plan, before, now)
    ensures id in plan.supersededRuns <==> Refs(open, before, id).complete
    ensures !Refs(open, before, id).complete ==> Tree(now, id) == Tree(before, id) && Refs(open, now, id) == Refs(open, before, id)
  {
    hide SegmentsOutside, Tree, RefsAll;
    PlanIsWellPlaced(open, before, keep, drop, plan);
    RefsIn(open, before, drop);
    assert Refs(open, before, id) in RefsAll(open, before, drop);
    RunIdOf(open, before);
    if !Refs(open, before, id).complete {
      UniqueRefs(open, before, drop, id);
      UnplannedTreeStays(plan, before, now, id);
    }
  }

  /** Once a run tree is a remnant, no later pass deletes it. */
  lemma {:induction false} RemnantStays(open: Opener, keep: seq<RunId>, drop: seq<RunId>, states: seq<Objects>, plans: seq<Plan>, id: RunId, i: nat, j: nat)
    requires WellNamed(keep, drop) && SegmentsOutside(open) && id in drop
    requires Passes(open, keep, drop, states, plans) && i <= j < |states|
    requires Remnant(open, states[i], id)
    ensures Remnant(open, states[j], id) && Tree(states[j], id) == Tree(states[i], id)
    decreases j
  {
    hide SegmentsOutside, PlanFrom, WellNamed, Obeys, Tree, Refs;
    if i < j {
      RemnantStays(open, keep, drop, states, plans, id, i, j - 1);
      SupersededIsPlanned(open, states[j - 1], states[j], keep, drop, plans[j - 1], id);
    }
  }

  /** When the last of any number of passes leaves nothing it planned, a superseded run's tree is
      gone if and only if none of the passes found a remnant of it. */
  lemma FinishedPassRemovesTree(open: Opener, keep: seq<RunId>, drop: seq<RunId>, states: seq<Objects>, plans: seq<Plan>, id: RunId)
    requires WellNamed(keep, drop) && SegmentsOutside(open) && id in drop
    requires Passes(open, keep, drop, states, plans) && |plans| > 0
    requires NothingLeft(plans[|plans| - 1], states[|plans|])
    ensures Tree(states[|plans|], id) == map[] <==> forall i :: 0 <= i < |plans| ==> !Remnant(open, states[i], id)
  {
    var n := |plans| - 1;
    if i :| 0 <= i < |plans| && Remnant(open, states[i], id) {
      RemnantStays(open, keep, drop, states, plans, id, i, n + 1);
    } else {
      hide SegmentsOutside, PlanFrom, WellNamed, Tree, Refs;
      assert !Remnant(open, states[n], id);
      SupersededIsPlanned(open, states[n], states[n + 1], keep, drop, plans[n], id);
    }
  }

  // ---- A remnant that running prune again does not remove ----

  const HALF_A: Key := "run/x/a"
  const HALF_B: Key := "run/x/b"

  function TwoObjects(): Objects { map[HALF_A := [], HALF_B := []] }

  function OneObject(): Objects { map[HALF_B := []] }

  /** Run x opens only with both objects of its tree, and names no segment; others always open. */
  function NeedsBoth(): Opener {
    (id: RunId, tree: Objects) =>
      if id != "x" || (HALF_A in tree && HALF_B in tree) then OpenedRun([]) else OpenRefused("unreadable")
  }

  lemma WitnessTrees()
    ensures Tree(TwoObjects(), "x") == TwoObjects() && Tree(OneObject(), "x") == OneObject()
  {
    assert RunTreePrefix("x") == "run/x/";
    assert HALF_A[..6] == "run/x/" && HALF_B[..6] == "run/x/";
  }

  lemma WitnessRefs()
    ensures RefsAll(NeedsBoth(), TwoObjects(), ["x"]) == [RunRefs("x", {}, true, "")]
    ensures RefsAll(NeedsBoth(), OneObject(), ["x"]) == [RunRefs("x", {}, false, "unreadable")]
    ensures RefsAll(NeedsBoth(), TwoObjects(), ["y"]) == RefsAll(NeedsBoth(), OneObject(), ["y"]) == [RunRefs("y", {}, true, "")]
  {
    hide Tree;
    WitnessTrees();
  }

  const FIRST := Plan([], ["x"], [], map["x" := []])
  const SECOND := Plan([], [], ["x"], map[])

  lemma FirstPlan()
    ensures PlanFrom(NeedsBoth(), TwoObjects(), ["y"], ["x"], FIRST)
  {
    WitnessRefs();
    hide RefsAll, NeedsBoth, TwoObjects;
    assert RunRefs("x", {}, true, "") in [RunRefs("x", {}, true, "")];
  }

  lemma FirstDelete()
    ensures Obeys(FIRST, TwoObjects(), OneObject())
  {
    assert RunTreePrefix("x") == "run/x/" && HALF_A[..6] == "run/x/";
    assert InPlannedTree(FIRST, HALF_A) by { assert "x" in FIRST.supersededRuns; }
  }

  lemma SecondPlan()
    ensures PlanFrom(NeedsBoth(), OneObject(), ["y"], ["x"], SECOND) && Obeys(SECOND, OneObject(), OneObject())
    ensures NothingLeft(SECOND, OneObject())
  {
    WitnessRefs();
    hide RefsAll;
    assert RunRefs("x", {}, false, "unreadable") in [RunRefs("x", {}, false, "unreadable")];
    NothingDone(SECOND, OneObject());
  }

  /** A first pass deletes one object of a planned tree and fails on the other; the second pass,
      which deletes all it plans, leaves that one where it is. */
  lemma FailedDeleteIsNotRetried() returns (states: seq<Objects>, plans: seq<Plan>)
    ensures |plans| == 2 && Passes(NeedsBoth(), ["y"], ["x"], states, plans)
    ensures plans[0].supersededRuns == ["x"] && states[1] == states[0] - {HALF_A}
    ensures NothingLeft(plans[1], states[2]) && HALF_B in states[2]
    ensures Tree(states[2], "x") != map[]
  {
    FirstPlan();
    FirstDelete();
    SecondPlan();
    WitnessTrees();
    hide PlanFrom, Obeys, NothingLeft, NeedsBoth;
    states, plans := [TwoObjects(), OneObject(), OneObject()], [FIRST, SECOND];
  }

  lemma UniqueRefs(open: Opener, objects: Objects, ids: seq<RunId>, id: RunId)
    requires !Refs(open, objects, id).complete
    ensures id !in Ids(RefsAll(open, objects, ids), true)
  {
    hide RefsAll, Tree;
    RefsIn(open, objects, ids);
  }

  /** One prune: enumerate both partitions, compute, and apply only a computed plan. */
  method Prune(store: Destination, open: Opener, keep: seq<RunId>, drop: seq<RunId>, dryRun: bool)
    returns (computed: Computed, applied: Option<Applied>)
    requires store.Valid() && WellNamed(keep, drop) && SegmentsOutside(open)
    modifies store`objects, store`deletes, store`past, store`asked, store`lists
    ensures store.Valid() && old(store.past) <= store.past
    ensures computed.Abstained? <==> exists id :: id in keep && !Refs(open, old(store.objects), id).complete
    ensures computed.Abstained? || dryRun ==> store.objects == old(store.objects) && store.past == old(store.past)
    ensures computed.Planned? ==> PlanFrom(open, old(store.objects), keep, drop, computed.plan) && applied.Some?
    ensures forall i :: |old(store.past)| <= i < |store.past| ==> Safe(open, keep, drop, old(store.objects), store.past[i])
    ensures computed.Planned? && applied.value.Done? && !dryRun && !applied.value.result.Incomplete() ==>
              NothingLeft(computed.plan, store.objects)
  {
    hide SegmentsOutside, WellNamed, Safe, Obeys, Refs, RefsAll, NothingLeft, IsPlan, AllComplete;
    ghost var first := store.objects;
    var retained := Enumerate(open, store.objects, keep);
    var superseded := Enumerate(open, store.objects, drop);
    EnumeratedAll(open, first, keep, retained);
    EnumeratedAll(open, first, drop, superseded);
    DistinctRefs(open, first, keep, drop);
    CompleteIff(open, first, keep);
    computed := Compute(retained, superseded);
    applied := None;
    if computed.Abstained? {
      return;
    }
    PlanIsWellPlaced(open, first, keep, drop, computed.plan);
    UntouchedIsSafe(open, keep, drop, first);
    var a := Apply(store, computed.plan, dryRun);
    applied := Some(a);
    forall i | |old(store.past)| <= i < |store.past|
      ensures Safe(open, keep, drop, first, store.past[i])
    {
      PassKeepsSafe(open, keep, drop, first, first, store.past[i], computed.plan);
    }
  }

  lemma EnumeratedAll(open: Opener, objects: Objects, ids: seq<RunId>, out: seq<RunRefs>)
    requires |out| == |ids| && forall i :: 0 <= i < |ids| ==> out[i] == Refs(open, objects, ids[i])
    ensures out == RefsAll(open, objects, ids)
  {
    hide Refs;
  }

  lemma DistinctRefs(open: Opener, objects: Objects, keep: seq<RunId>, drop: seq<RunId>)
    requires WellNamed(keep, drop)
    ensures DistinctRuns(RefsAll(open, objects, drop))
  {
    hide Refs;
    RunIdOf(open, objects);
  }

  lemma CompleteIff(open: Opener, objects: Objects, ids: seq<RunId>)
    ensures AllComplete(RefsAll(open, objects, ids)) <==> forall id :: id in ids ==> Refs(open, objects, id).complete
  {
    hide Refs, RefsAll;
    RefsIn(open, objects, ids);
    forall id | id in ids && !Refs(open, objects, id).complete
      ensures !AllComplete(RefsAll(open, objects, ids))
    {
      assert Refs(open, objects, id) in RefsAll(open, objects, ids);
    }
  }
}
