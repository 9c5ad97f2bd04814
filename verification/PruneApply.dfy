/** Carrying a prune plan out. */
module PruneApply {
  // The destination may accept, refuse or fail each delete. What every interrupted, refused or
  // complete pass leaves behind.
  import opened Common
  import opened PrunePlan

  /** Why a delete did not succeed. `removed` is whether the object went all the same, which the
      caller cannot see. */
  datatype DeleteError = DeleteError(status: Option<int>, permissionDenied: bool, namesLock: bool, removed: bool)

  datatype Class = Class(refused: bool, lockNamed: bool)

  /** The destination answered, and said no. */
  predicate IsRefusal(err: DeleteError) {
    || (err.status.Some? && 400 <= err.status.value < 500 && err.status.value !in {408, 429})
    || (err.status.None? && err.permissionDenied)
  }

  function ClassifyDelete(err: DeleteError): (c: Class)
    ensures c.refused <==> IsRefusal(err)
    ensures c.lockNamed <==> IsRefusal(err) && err.namesLock
  {
    var refused :=
      if err.status.Some? then 400 <= err.status.value < 500 && err.status.value != 408 && err.status.value != 429
      else err.permissionDenied;
    Class(refused, refused && err.namesLock)
  }

  /** One delete, and what the destination answered: None when it accepted. */
  datatype Asked = Asked(key: Key, err: Option<DeleteError>)

  /** The destination. `asked` holds every delete put to it with its answer, and `past` every state it has been
      in since it was opened, the current one last. Answers and listings are arbitrary but fixed from the start. */
  class Destination {
    var objects: Objects
    var deletes: nat
    var lists: nat
    ghost var past: seq<Objects>
    ghost var asked: seq<Asked>
    const canDelete: bool
    const canList: bool
    const answer: (nat, Key) -> Option<DeleteError>
    const listing: (Key, set<Key>) -> seq<Key>
    const listFails: nat -> bool

    /** A refusal leaves the object alone; a listing shows everything under its prefix, and may
        show more. */
    ghost predicate Valid()
      reads this
    {
      && past != [] && past[|past| - 1] == objects
      && (forall i, k :: answer(i, k).Some? && IsRefusal(answer(i, k).value) ==> !answer(i, k).value.removed)
      && (forall p, ks, k :: k in ks ==> k in listing(p, ks))
    }

    constructor (objects: Objects, canDelete: bool, canList: bool, answer: (nat, Key) -> Option<DeleteError>,
                 listing: (Key, set<Key>) -> seq<Key>, listFails: nat -> bool)
      requires forall i, k :: answer(i, k).Some? && IsRefusal(answer(i, k).value) ==> !answer(i, k).value.removed
      requires forall p, ks, k :: k in ks ==> k in listing(p, ks)
      ensures Valid() && this.objects == objects && past == [objects] && asked == []
      ensures this.canDelete == canDelete && this.canList == canList && this.answer == answer
      ensures this.listing == listing && this.listFails == listFails && deletes == 0 && lists == 0
    {
      this.objects, this.canDelete, this.canList := objects, canDelete, canList;
      this.answer, this.listing, this.listFails := answer, listing, listFails;
      deletes, lists, past, asked := 0, 0, [objects], [];
    }

    method Delete(key: Key) returns (err: Option<DeleteError>)
      requires Valid()
      modifies this`objects, this`deletes, this`past, this`asked
      ensures Valid() && past == old(past) + [objects] && deletes == old(deletes) + 1
      ensures asked == old(asked) + [Asked(key, err)]
      ensures err == answer(old(deletes), key)
      ensures objects == if err.None? || err.value.removed then old(objects) - {key} else old(objects)
    {
      err := answer(deletes, key);
      deletes := deletes + 1;
      if err.None? || err.value.removed {
        objects := objects - {key};
      }
      past := past + [objects];
      asked := asked + [Asked(key, err)];
    }

    method List(prefix: Key) returns (keys: Option<seq<Key>>)
      requires Valid()
      modifies this`lists
      ensures Valid() && lists == old(lists) + 1
      ensures keys == if listFails(old(lists)) then None else Some(listing(prefix, Under(objects, prefix).Keys))
    {
      var failed := listFails(lists);
      lists := lists + 1;
      keys := if failed then None else Some(listing(prefix, Under(objects, prefix).Keys));
    }
  }

  datatype PruneResult = PruneResult(
    segmentsDeleted: nat,
    runObjectsDeleted: nat,
    plannedSegments: nat,
    plannedRunObjects: nat,
    runObjectsUnknown: bool,
    refused: seq<Key>,
    refusedLockNamed: nat,
    failed: seq<Key>,
    heldRunObjects: nat)
  {
    predicate Incomplete() { |refused| > 0 || |failed| > 0 || heldRunObjects > 0 }

    function Attempted(): nat { segmentsDeleted + runObjectsDeleted + |refused| + |failed| }
  }

  datatype Applied = Done(result: PruneResult) | CannotDelete | CannotList | ListFailed(runId: RunId)

  // ---- What any pass may do to the destination ----

  function OrphansOf(plan: Plan, id: RunId): seq<Key> {
    if id in plan.orphansByRun then plan.orphansByRun[id] else []
  }

  predicate Submap(now: Objects, before: Objects) {
    forall k :: k in now ==> k in before && now[k] == before[k]
  }

  ghost predicate InPlannedTree(plan: Plan, k: Key) {
    exists id :: id in plan.supersededRuns && RunTreePrefix(id) <= k
  }

  /** Only planned objects have gone, and a run's tree has been touched only once every orphan
      segment of that run is gone. */
  ghost predicate Obeys(plan: Plan, before: Objects, now: Objects) {
    && Submap(now, before)
    && (forall k :: k in before && k !in now ==> k in plan.orphanSegments || InPlannedTree(plan, k))
    && (forall id :: id in plan.supersededRuns && Tree(now, id) != Tree(before, id) ==>
          forall k :: k in OrphansOf(plan, id) ==> k !in now)
  }

  /** Run ids are distinct and slash-free, and segments live outside the run trees. */
  predicate WellPlaced(plan: Plan) {
    && (forall i, j :: 0 <= i < j < |plan.supersededRuns| ==> plan.supersededRuns[i] != plan.supersededRuns[j])
    && (forall id :: id in plan.supersededRuns ==> SlashFree(id))
    && (forall k :: k in plan.orphanSegments ==> !("run/" <= k))
  }

  lemma PrefixUnderRun(id: RunId, k: Key)
    requires RunTreePrefix(id) <= k
    ensures "run/" <= k
  {
    assert RunTreePrefix(id)[..4] == "run/";
    assert k[..4] == RunTreePrefix(id)[..4];
  }

  lemma TreeWithout(objects: Objects, id: RunId, k: Key)
    requires !(RunTreePrefix(id) <= k)
    ensures Tree(objects - {k}, id) == Tree(objects, id)
  {
    hide RunTreePrefix;
  }

  lemma OrphanDeleteObeys(plan: Plan, before: Objects, now: Objects, k: Key)
    requires WellPlaced(plan) && Obeys(plan, before, now) && k in plan.orphanSegments
    ensures Obeys(plan, before, now - {k})
    ensures forall id :: id in plan.supersededRuns ==> Tree(now - {k}, id) == Tree(now, id)
  {
    hide Tree, RunTreePrefix;
    forall id | id in plan.supersededRuns
      ensures Tree(now - {k}, id) == Tree(now, id)
    {
      if RunTreePrefix(id) <= k {
        PrefixUnderRun(id, k);
      }
      TreeWithout(now, id, k);
    }
  }

  lemma TreeDeleteObeys(plan: Plan, before: Objects, now: Objects, id: RunId, k: Key)
    requires WellPlaced(plan) && Obeys(plan, before, now) && id in plan.supersededRuns && RunTreePrefix(id) <= k
    requires forall s :: s in OrphansOf(plan, id) ==> s !in now
    ensures Obeys(plan, before, now - {k})
    ensures forall other :: other in plan.supersededRuns && other != id ==> Tree(now - {k}, other) == Tree(now, other)
  {
    hide Tree, RunTreePrefix, OrphansOf;
    assert InPlannedTree(plan, k);
    forall other | other in plan.supersededRuns && other != id
      ensures Tree(now - {k}, other) == Tree(now, other)
    {
      if RunTreePrefix(other) <= k {
        TreesDisjoint(id, other, k);
      }
      TreeWithout(now, other, k);
    }
  }

  // ---- What the answers come to ----

  function RefusedKeys(asked: seq<Asked>): seq<Key> {
    if asked == [] then []
    else
      var a := asked[|asked| - 1];
      RefusedKeys(asked[..|asked| - 1]) + if a.err.Some? && IsRefusal(a.err.value) then [a.key] else []
  }

  function FailedKeys(asked: seq<Asked>): seq<Key> {
    if asked == [] then []
    else
      var a := asked[|asked| - 1];
      FailedKeys(asked[..|asked| - 1]) + if a.err.Some? && !IsRefusal(a.err.value) then [a.key] else []
  }

  function LocksNamed(asked: seq<Asked>): nat {
    if asked == [] then 0
    else
      var a := asked[|asked| - 1];
      LocksNamed(asked[..|asked| - 1]) + if a.err.Some? && IsRefusal(a.err.value) && a.err.value.namesLock then 1 else 0
  }

  function Accepted(asked: seq<Asked>): nat {
    if asked == [] then 0
    else Accepted(asked[..|asked| - 1]) + if asked[|asked| - 1].err.None? then 1 else 0
  }

  /** The result has counted exactly these answers. */
  predicate Tallied(start: PruneResult, asked: seq<Asked>, res: PruneResult) {
    && res.refused == start.refused + RefusedKeys(asked)
    && res.failed == start.failed + FailedKeys(asked)
    && res.refusedLockNamed == start.refusedLockNamed + LocksNamed(asked)
    && res.segmentsDeleted + res.runObjectsDeleted == start.segmentsDeleted + start.runObjectsDeleted + Accepted(asked)
  }

  lemma NothingTallied(start: PruneResult)
    ensures Tallied(start, [], start)
  {
  }

  lemma AskedSnoc(asked: seq<Asked>, a: Asked)
    ensures RefusedKeys(asked + [a]) == RefusedKeys(asked) + if a.err.Some? && IsRefusal(a.err.value) then [a.key] else []
    ensures FailedKeys(asked + [a]) == FailedKeys(asked) + if a.err.Some? && !IsRefusal(a.err.value) then [a.key] else []
    ensures LocksNamed(asked + [a]) == LocksNamed(asked) + if a.err.Some? && IsRefusal(a.err.value) && a.err.value.namesLock then 1 else 0
    ensures Accepted(asked + [a]) == Accepted(asked) + if a.err.None? then 1 else 0
  {
    assert (asked + [a])[..|asked|] == asked;
  }

  lemma {:induction false} AskedAppend(a: seq<Asked>, b: seq<Asked>)
    ensures RefusedKeys(a + b) == RefusedKeys(a) + RefusedKeys(b) && FailedKeys(a + b) == FailedKeys(a) + FailedKeys(b)
    ensures LocksNamed(a + b) == LocksNamed(a) + LocksNamed(b) && Accepted(a + b) == Accepted(a) + Accepted(b)
  {
    hide IsRefusal, RefusedKeys, FailedKeys, LocksNamed, Accepted;
    if b == [] {
      assert a + b == a;
      NothingAsked();
    } else {
      var n := |b| - 1;
      AskedAppend(a, b[..n]);
      assert a + b == (a + b[..n]) + [b[n]] && b == b[..n] + [b[n]];
      AskedSnoc(a + b[..n], b[n]);
      AskedSnoc(b[..n], b[n]);
    }
  }

  lemma NothingAsked()
    ensures RefusedKeys([]) == [] && FailedKeys([]) == [] && LocksNamed([]) == 0 && Accepted([]) == 0
  {
  }

  lemma TallyStep(start: PruneResult, asked: seq<Asked>, res: PruneResult, a: Asked, out: PruneResult)
    requires Tallied(start, asked, res)
    requires out.refused == res.refused + if a.err.Some? && IsRefusal(a.err.value) then [a.key] else []
    requires out.failed == res.failed + if a.err.Some? && !IsRefusal(a.err.value) then [a.key] else []
    requires out.refusedLockNamed == res.refusedLockNamed + if a.err.Some? && IsRefusal(a.err.value) && a.err.value.namesLock then 1 else 0
    requires out.segmentsDeleted + out.runObjectsDeleted == res.segmentsDeleted + res.runObjectsDeleted + if a.err.None? then 1 else 0
    ensures Tallied(start, asked + [a], out)
  {
    hide IsRefusal, RefusedKeys, FailedKeys, LocksNamed, Accepted;
    AskedSnoc(asked, a);
  }

  lemma TallyJoin(start: PruneResult, a: seq<Asked>, mid: PruneResult, b: seq<Asked>, res: PruneResult)
    requires Tallied(start, a, mid) && Tallied(mid, b, res)
    ensures Tallied(start, a + b, res)
  {
    hide RefusedKeys, FailedKeys, LocksNamed, Accepted;
    AskedAppend(a, b);
  }

  /** A key is reported as refused exactly when some delete of it was answered with a 4xx status
      other than 408 and 429, or with no status and a permission denial; and as failed exactly
      when one was answered with any other error. */
  lemma {:induction false} ReportedAsAnswered(asked: seq<Asked>)
    ensures forall k :: k in RefusedKeys(asked) <==>
              exists a :: a in asked && a.key == k && a.err.Some? && var e := a.err.value;
                          if e.status.Some? then 400 <= e.status.value < 500 && e.status.value != 408 && e.status.value != 429
                          else e.permissionDenied
    ensures forall k :: k in FailedKeys(asked) <==>
              exists a :: a in asked && a.key == k && a.err.Some? && var e := a.err.value;
                          if e.status.Some? then !(400 <= e.status.value < 500) || e.status.value == 408 || e.status.value == 429
                          else !e.permissionDenied
  {
    if asked != [] {
      var n := |asked| - 1;
      assert asked == asked[..n] + [asked[n]];
      ReportedAsAnswered(asked[..n]);
    }
  }

  /** The locks counted are the refused deletes that name one. */
  lemma {:induction false} LocksAsAnswered(asked: seq<Asked>)
    ensures LocksNamed(asked) == |set i | 0 <= i < |asked| && asked[i].err.Some? && IsRefusal(asked[i].err.value) && asked[i].err.value.namesLock|
    ensures LocksNamed(asked) <= |RefusedKeys(asked)|
  {
    hide IsRefusal;
    if asked != [] {
      var n := |asked| - 1;
      LocksAsAnswered(asked[..n]);
      var all := set i | 0 <= i < |asked| && asked[i].err.Some? && IsRefusal(asked[i].err.value) && asked[i].err.value.namesLock;
      var before := set i | 0 <= i < n && asked[..n][i].err.Some? && IsRefusal(asked[..n][i].err.value) && asked[..n][i].err.value.namesLock;
      assert before == all - {n};
    }
  }

  // ---- The pass ----

  /** One delete, counted: gone only when the destination accepted it. */
  method Del(store: Destination, key: Key, dryRun: bool, res: PruneResult) returns (gone: bool, out: PruneResult)
    requires store.Valid()
    modifies store`objects, store`deletes, store`past, store`asked
    ensures store.Valid()
    ensures dryRun ==> !gone && out == res && store.objects == old(store.objects) && store.past == old(store.past)
                       && store.asked == old(store.asked)
    ensures !dryRun ==> store.past == old(store.past) + [store.objects]
    ensures !dryRun ==> store.asked == old(store.asked) + [Asked(key, store.answer(old(store.deletes), key))]
    ensures gone ==> out == res && store.objects == old(store.objects) - {key}
    ensures !dryRun && !gone ==> store.objects == old(store.objects) || store.objects == old(store.objects) - {key}
    ensures !dryRun ==>
              var a := store.answer(old(store.deletes), key);
              && (gone <==> a.None?)
              && (a.Some? && IsRefusal(a.value) ==> store.objects == old(store.objects))
              && out.refused == res.refused + (if a.Some? && IsRefusal(a.value) then [key] else [])
              && out.failed == res.failed + (if a.Some? && !IsRefusal(a.value) then [key] else [])
              && out.refusedLockNamed == res.refusedLockNamed + (if a.Some? && IsRefusal(a.value) && a.value.namesLock then 1 else 0)
    ensures out == res.(refused := out.refused, failed := out.failed, refusedLockNamed := out.refusedLockNamed)
  {
    out := res;
    if dryRun {
      return false, out;
    }
    var err := store.Delete(key);
    if err.Some? {
      var c := ClassifyDelete(err.value);
      if c.refused {
        out := out.(refused := out.refused + [key]);
        if c.lockNamed {
          out := out.(refusedLockNamed := out.refusedLockNamed + 1);
        }
      } else {
        out := out.(failed := out.failed + [key]);
      }
      return false, out;
    }
    gone := true;
  }

  /** Every state the store has been in since `from` obeys the plan. */
  ghost predicate Obedient(plan: Plan, before: Objects, past: seq<Objects>, from: nat) {
    forall i :: from <= i < |past| ==> Obeys(plan, before, past[i])
  }

  ghost predicate TreesUntouched(plan: Plan, before: Objects, now: Objects, from: nat) {
    forall j :: from <= j < |plan.supersededRuns| ==> Tree(now, plan.supersededRuns[j]) == Tree(before, plan.supersededRuns[j])
  }

  method DeleteSegments(store: Destination, plan: Plan, dryRun: bool, start: PruneResult)
    returns (gone: set<Key>, res: PruneResult)
    requires store.Valid() && WellPlaced(plan)
    requires start.refused == [] && start.failed == [] && start.segmentsDeleted == 0 && start.refusedLockNamed == 0
    modifies store`objects, store`deletes, store`past, store`asked
    ensures store.Valid() && old(store.past) <= store.past
    ensures Obedient(plan, old(store.objects), store.past, |old(store.past)|) && Obeys(plan, old(store.objects), store.objects)
    ensures TreesUntouched(plan, old(store.objects), store.objects, 0)
    ensures dryRun ==> store.past == old(store.past) && store.objects == old(store.objects) && gone == {}
    ensures forall k :: k in gone ==> k !in store.objects
    ensures res == start.(segmentsDeleted := res.segmentsDeleted, refused := res.refused, failed := res.failed,
                          refusedLockNamed := res.refusedLockNamed)
    ensures dryRun ==> res == start
    ensures !dryRun ==> res.segmentsDeleted + |res.refused| + |res.failed| == |plan.orphanSegments|
    ensures res.refusedLockNamed <= |res.refused|
    ensures !dryRun && res.refused == [] && res.failed == [] ==> forall k :: k in plan.orphanSegments ==> k in gone
    ensures old(store.asked) <= store.asked && Tallied(start, store.asked[|old(store.asked)|..], res)
    ensures |store.asked| == |old(store.asked)| + if dryRun then 0 else |plan.orphanSegments|
    ensures !dryRun ==> forall j :: 0 <= j < |plan.orphanSegments| ==> store.asked[|old(store.asked)| + j].key == plan.orphanSegments[j]
  {
    hide Obeys, WellPlaced, Tree, IsRefusal, Tallied;
    gone, res := {}, start;
    ghost var before := store.objects;
    ghost var from, first := |store.past|, |store.asked|;
    NothingDone(plan, before);
    NothingTallied(start);
    assert store.asked[first..] == [];
    for i := 0 to |plan.orphanSegments|
      invariant store.Valid() && old(store.past) <= store.past
      invariant Obedient(plan, before, store.past, from) && Obeys(plan, before, store.objects)
      invariant TreesUntouched(plan, before, store.objects, 0)
      invariant dryRun ==> store.past == old(store.past) && store.objects == before && gone == {} && res == start
      invariant forall k :: k in gone ==> k !in store.objects
      invariant res == start.(segmentsDeleted := res.segmentsDeleted, refused := res.refused, failed := res.failed,
                              refusedLockNamed := res.refusedLockNamed)
      invariant !dryRun ==> res.segmentsDeleted + |res.refused| + |res.failed| == i
      invariant res.refusedLockNamed <= |res.refused|
      invariant !dryRun && res.refused == [] && res.failed == [] ==> forall j :: 0 <= j < i ==> plan.orphanSegments[j] in gone
      invariant old(store.asked) <= store.asked && Tallied(start, store.asked[first..], res)
      invariant |store.asked| == first + if dryRun then 0 else i
      invariant !dryRun ==> forall j :: 0 <= j < i ==> store.asked[first + j].key == plan.orphanSegments[j]
    {
      var seg := plan.orphanSegments[i];
      OrphanDeleteObeys(plan, before, store.objects, seg);
      ghost var sofar, soasked := res, store.asked;
      var ok: bool;
      ok, res := Del(store, seg, dryRun, res);
      if ok {
        res := res.(segmentsDeleted := res.segmentsDeleted + 1);
        gone := gone + {seg};
      }
      if !dryRun {
        assert store.asked[first..] == soasked[first..] + [store.asked[|soasked|]];
        TallyStep(start, soasked[first..], sofar, store.asked[|soasked|], res);
      }
    }
  }

  lemma NothingDone(plan: Plan, before: Objects)
    ensures Obeys(plan, before, before)
  {
  }

  /** Listed keys that really lie under the prefix. */
  function CountUnder(keys: seq<Key>, prefix: Key): nat {
    if keys == [] then 0
    else CountUnder(keys[..|keys| - 1], prefix) + if prefix <= keys[|keys| - 1] then 1 else 0
  }

  /** Run-tree objects a pass over these runs covers. */
  function TreeTotal(listing: (Key, set<Key>) -> seq<Key>, objects: Objects, ids: seq<RunId>): nat {
    if ids == [] then 0
    else
      var id := ids[|ids| - 1];
      TreeTotal(listing, objects, ids[..|ids| - 1])
      + CountUnder(listing(RunTreePrefix(id), Tree(objects, id).Keys), RunTreePrefix(id))
  }

  /** n more run-tree objects are planned; each is held, or attempted and counted once. */
  predicate TreeCounted(start: PruneResult, res: PruneResult, n: nat, held: bool, dryRun: bool) {
    && res == start.(plannedRunObjects := start.plannedRunObjects + n,
                     heldRunObjects := start.heldRunObjects + (if held then n else 0),
                     runObjectsDeleted := res.runObjectsDeleted, refused := res.refused, failed := res.failed,
                     refusedLockNamed := res.refusedLockNamed)
    && res.Attempted() == start.Attempted() + (if held || dryRun then 0 else n)
    && start.refused <= res.refused && start.failed <= res.failed
    && res.refusedLockNamed - start.refusedLockNamed <= |res.refused| - |start.refused|
  }

  /** One run's tree: every listed object under its prefix is planned, and deleted unless the
      tree is held. */
  method DeleteTree(store: Destination, plan: Plan, ghost before: Objects, i: nat, keys: seq<Key>,
                    held: bool, dryRun: bool, start: PruneResult)
    returns (res: PruneResult)
    requires store.Valid() && WellPlaced(plan) && i < |plan.supersededRuns|
    requires Obeys(plan, before, store.objects) && TreesUntouched(plan, before, store.objects, i)
    requires !held && !dryRun ==> forall k :: k in OrphansOf(plan, plan.supersededRuns[i]) ==> k !in store.objects
    modifies store`objects, store`deletes, store`past, store`asked
    ensures store.Valid() && old(store.past) <= store.past && Submap(store.objects, old(store.objects))
    ensures Obedient(plan, before, store.past, |old(store.past)|) && Obeys(plan, before, store.objects)
    ensures TreesUntouched(plan, before, store.objects, i + 1)
    ensures dryRun ==> store.past == old(store.past) && store.objects == old(store.objects)
    ensures TreeCounted(start, res, CountUnder(keys, RunTreePrefix(plan.supersededRuns[i])), held, dryRun)
    ensures !held && !dryRun && res.refused == [] && res.failed == [] ==>
              forall k :: k in keys && RunTreePrefix(plan.supersededRuns[i]) <= k ==> k !in store.objects
    ensures old(store.asked) <= store.asked && Tallied(start, store.asked[|old(store.asked)|..], res)
  {
    hide Obeys, WellPlaced, Tree, RunTreePrefix, CountUnder, TreesUntouched, Tallied, IsRefusal;
    FewerTrees(plan, before, store.objects, i);
    res := start;
    var id := plan.supersededRuns[i];
    var prefix := RunTreePrefix(id);
    ghost var from, first := |store.past|, |store.asked|;
    assert CountUnder(keys[..0], prefix) == 0 by { NoneUnder(prefix); }
    NothingTallied(start);
    assert store.asked[first..] == [];
    for m := 0 to |keys|
      invariant store.Valid() && old(store.past) <= store.past && Submap(store.objects, old(store.objects))
      invariant Obedient(plan, before, store.past, from) && Obeys(plan, before, store.objects)
      invariant TreesUntouched(plan, before, store.objects, i + 1)
      invariant dryRun ==> store.past == old(store.past) && store.objects == old(store.objects)
      invariant TreeCounted(start, res, CountUnder(keys[..m], prefix), held, dryRun)
      invariant !held && !dryRun && res.refused == [] && res.failed == [] ==>
                  forall j :: 0 <= j < m && prefix <= keys[j] ==> keys[j] !in store.objects
      invariant old(store.asked) <= store.asked && Tallied(start, store.asked[first..], res)
    {
      var k := keys[m];
      CountUnderNext(keys, m, prefix);
      if prefix <= k {
        if held {
          ghost var sofar := res;
          res := res.(plannedRunObjects := res.plannedRunObjects + 1, heldRunObjects := res.heldRunObjects + 1);
          SameTally(start, store.asked[first..], sofar, res);
        } else {
          ghost var sofar, soasked := res, store.asked;
          res := DeleteTreeKey(store, plan, before, i, k, dryRun, res);
          assert store.asked[first..] == soasked[first..] + store.asked[|soasked|..];
          TallyJoin(start, soasked[first..], sofar, store.asked[|soasked|..], res);
        }
      }
    }
    assert keys[..|keys|] == keys;
  }

  /** One object of a tree that is not held. */
  method DeleteTreeKey(store: Destination, plan: Plan, ghost before: Objects, i: nat, k: Key, dryRun: bool, start: PruneResult)
    returns (res: PruneResult)
    requires store.Valid() && WellPlaced(plan) && i < |plan.supersededRuns| && RunTreePrefix(plan.supersededRuns[i]) <= k
    requires Obeys(plan, before, store.objects) && TreesUntouched(plan, before, store.objects, i + 1)
    requires !dryRun ==> forall s :: s in OrphansOf(plan, plan.supersededRuns[i]) ==> s !in store.objects
    modifies store`objects, store`deletes, store`past, store`asked
    ensures store.Valid() && Submap(store.objects, old(store.objects))
    ensures store.past == old(store.past) + if dryRun then [] else [store.objects]
    ensures Obeys(plan, before, store.objects) && TreesUntouched(plan, before, store.objects, i + 1)
    ensures dryRun ==> store.objects == old(store.objects)
    ensures TreeCounted(start, res, 1, false, dryRun)
    ensures !dryRun && res.refused == start.refused && res.failed == start.failed ==> k !in store.objects
    ensures old(store.asked) <= store.asked && Tallied(start, store.asked[|old(store.asked)|..], res)
  {
    hide Obeys, WellPlaced, Tree, RunTreePrefix, TreesUntouched, IsRefusal, Tallied;
    res := start.(plannedRunObjects := start.plannedRunObjects + 1);
    NothingTallied(start);
    if !dryRun {
      TreeDeleteObeys(plan, before, store.objects, plan.supersededRuns[i], k);
      OtherTrees(plan, before, store.objects, i, k);
    }
    var ok: bool;
    ok, res := Del(store, k, dryRun, res);
    if ok {
      res := res.(runObjectsDeleted := res.runObjectsDeleted + 1);
    }
    ghost var news := store.asked[|old(store.asked)|..];
    if dryRun {
      assert news == [];
      assert Tallied(start, [], res) by { SameTally(start, [], start, res); }
    } else {
      assert news == [] + [news[0]];
      TallyStep(start, [], start, news[0], res);
    }
  }

  /** What was planned and held does not enter the tally. */
  lemma SameTally(start: PruneResult, asked: seq<Asked>, res: PruneResult, out: PruneResult)
    requires Tallied(start, asked, res)
    requires out.refused == res.refused && out.failed == res.failed && out.refusedLockNamed == res.refusedLockNamed
    requires out.segmentsDeleted == res.segmentsDeleted && out.runObjectsDeleted == res.runObjectsDeleted
    ensures Tallied(start, asked, out)
  {
  }

  lemma NoneUnder(prefix: Key)
    ensures CountUnder([], prefix) == 0
  {
  }

  lemma CountUnderNext(keys: seq<Key>, m: nat, prefix: Key)
    requires m < |keys|
    ensures CountUnder(keys[..m + 1], prefix) == CountUnder(keys[..m], prefix) + if prefix <= keys[m] then 1 else 0
  {
    assert keys[..m + 1][..m] == keys[..m];
  }

  lemma FewerTrees(plan: Plan, before: Objects, now: Objects, i: nat)
    requires TreesUntouched(plan, before, now, i)
    ensures TreesUntouched(plan, before, now, i + 1)
  {
  }

  lemma OtherTrees(plan: Plan, before: Objects, now: Objects, i: nat, k: Key)
    requires WellPlaced(plan) && i < |plan.supersededRuns| && RunTreePrefix(plan.supersededRuns[i]) <= k
    requires TreesUntouched(plan, before, now, i + 1)
    requires forall other :: other in plan.supersededRuns && other != plan.supersededRuns[i] ==> Tree(now - {k}, other) == Tree(now, other)
    ensures TreesUntouched(plan, before, now - {k}, i + 1)
  {
    hide Tree, RunTreePrefix;
  }

  ghost predicate TreesEmpty(plan: Plan, now: Objects, n: nat) {
    n <= |plan.supersededRuns| && forall j :: 0 <= j < n ==> Tree(now, plan.supersededRuns[j]) == map[]
  }

  /** The totals while run trees are being worked through: everything planned so far is deleted,
      refused, failed or held, and a dry run has done nothing. */
  predicate Balanced(res: PruneResult, plan: Plan, dryRun: bool) {
    && res.plannedSegments == |plan.orphanSegments|
    && res.refusedLockNamed <= |res.refused|
    && if dryRun then res.Attempted() == 0 && res.heldRunObjects == 0
       else res.plannedSegments + res.plannedRunObjects == res.Attempted() + res.heldRunObjects
  }

  /** A run is held when one of its orphan segments has not gone. */
  method IsHeld(plan: Plan, id: RunId, gone: set<Key>, dryRun: bool) returns (held: bool)
    ensures held <==> !dryRun && exists k :: k in OrphansOf(plan, id) && k !in gone
  {
    held := false;
    if !dryRun {
      var segs := OrphansOf(plan, id);
      for i := 0 to |segs|
        invariant !held && forall j :: 0 <= j < i ==> segs[j] in gone
      {
        if segs[i] !in gone {
          return true;
        }
      }
    }
  }

  method DeleteTrees(store: Destination, plan: Plan, ghost before: Objects, gone: set<Key>, dryRun: bool, start: PruneResult)
    returns (r: Applied)
    requires store.Valid() && WellPlaced(plan) && (dryRun || store.canList)
    requires Obeys(plan, before, store.objects) && TreesUntouched(plan, before, store.objects, 0)
    requires forall k :: k in gone ==> k !in store.objects
    requires Balanced(start, plan, dryRun) && start.plannedRunObjects == 0
    requires !dryRun && start.refused == [] && start.failed == [] ==> forall k :: k in plan.orphanSegments ==> k in gone
    modifies store`objects, store`deletes, store`past, store`asked, store`lists
    ensures store.Valid() && old(store.past) <= store.past
    ensures Obedient(plan, before, store.past, |old(store.past)|)
    ensures dryRun ==> store.past == old(store.past) && store.objects == old(store.objects)
    ensures r.Done? || r.ListFailed?
    ensures r.Done? ==> Balanced(r.result, plan, dryRun) && r.result.runObjectsUnknown == start.runObjectsUnknown
    ensures r.Done? ==> r.result.plannedRunObjects == if store.canList then TreeTotal(store.listing, before, plan.supersededRuns) else 0
    ensures r.Done? && !dryRun && !r.result.Incomplete() ==>
              TreesEmpty(plan, store.objects, |plan.supersededRuns|) && forall k :: k in plan.orphanSegments ==> k !in store.objects
    ensures old(store.asked) <= store.asked && (r.Done? ==> Tallied(start, store.asked[|old(store.asked)|..], r.result))
  {
    hide Obeys, WellPlaced, Tree, RunTreePrefix, Under, TreeTotal, TreesUntouched, TreesEmpty, CountUnder, OrphansOf, Tallied, IsRefusal;
    var res := start;
    ghost var from, first := |store.past|, |store.asked|;
    NothingTallied(start);
    assert store.asked[first..] == [];
    var runs := plan.supersededRuns;
    NoTrees(store.listing, plan, before, store.objects);
    for i := 0 to |runs|
      invariant store.Valid() && old(store.past) <= store.past
      invariant Obedient(plan, before, store.past, from) && Obeys(plan, before, store.objects)
      invariant TreesUntouched(plan, before, store.objects, i)
      invariant forall k :: k in gone ==> k !in store.objects
      invariant dryRun ==> store.past == old(store.past) && store.objects == old(store.objects)
      invariant Balanced(res, plan, dryRun) && res.runObjectsUnknown == start.runObjectsUnknown
      invariant res.plannedRunObjects == if store.canList then TreeTotal(store.listing, before, runs[..i]) else 0
      invariant start.refused <= res.refused && start.failed <= res.failed
      invariant !dryRun && !res.Incomplete() ==> TreesEmpty(plan, store.objects, i)
      invariant old(store.asked) <= store.asked && Tallied(start, store.asked[first..], res)
    {
      var held := IsHeld(plan, runs[i], gone, dryRun);
      var keys: seq<Key> := [];
      if store.canList {
        var listed := store.List(RunTreePrefix(runs[i]));
        if listed.None? {
          return ListFailed(runs[i]);
        }
        keys := listed.value;
        TreeListed(store.listing, plan, before, store.objects, i);
      }
      ghost var prior := store.objects;
      NoneUnder(RunTreePrefix(runs[i]));
      ghost var sofar, soasked := res, store.asked;
      res := DeleteTree(store, plan, before, i, keys, held, dryRun, res);
      assert store.asked[first..] == soasked[first..] + store.asked[|soasked|..];
      TallyJoin(start, soasked[first..], sofar, store.asked[|soasked|..], res);
      if !dryRun && !res.Incomplete() {
        OneMoreEmpty(plan, prior, store.objects, i, keys, held);
      }
    }
    assert runs[..|runs|] == runs;
    r := Done(res);
  }

  lemma NoTrees(listing: (Key, set<Key>) -> seq<Key>, plan: Plan, before: Objects, now: Objects)
    ensures TreeTotal(listing, before, plan.supersededRuns[..0]) == 0 && TreesEmpty(plan, now, 0)
  {
  }

  /** What is listed for run i is what a dry run over the same store would have listed. */
  lemma TreeListed(listing: (Key, set<Key>) -> seq<Key>, plan: Plan, before: Objects, now: Objects, i: nat)
    requires i < |plan.supersededRuns| && TreesUntouched(plan, before, now, i)
    requires forall p, ks, k :: k in ks ==> k in listing(p, ks)
    ensures var id := plan.supersededRuns[i];
            forall k :: k in Tree(now, id) ==> k in listing(RunTreePrefix(id), Under(now, RunTreePrefix(id)).Keys)
    ensures var id := plan.supersededRuns[i];
            TreeTotal(listing, before, plan.supersededRuns[..i + 1]) ==
            TreeTotal(listing, before, plan.supersededRuns[..i]) +
            CountUnder(listing(RunTreePrefix(id), Under(now, RunTreePrefix(id)).Keys), RunTreePrefix(id))
  {
    hide Under, CountUnder;
    var id := plan.supersededRuns[i];
    assert plan.supersededRuns[..i + 1][..i] == plan.supersededRuns[..i];
    assert Tree(now, id) == Tree(before, id);
  }

  lemma {:induction false} CountZero(keys: seq<Key>, prefix: Key, k: Key)
    requires CountUnder(keys, prefix) == 0 && k in keys
    ensures !(prefix <= k)
  {
    if k != keys[|keys| - 1] {
      assert k in keys[..|keys| - 1];
      CountZero(keys[..|keys| - 1], prefix, k);
    }
  }

  lemma OneMoreEmpty(plan: Plan, prior: Objects, now: Objects, i: nat, keys: seq<Key>, held: bool)
    requires i < |plan.supersededRuns| && TreesEmpty(plan, prior, i) && Submap(now, prior)
    requires forall k :: k in Tree(prior, plan.supersededRuns[i]) ==> k in keys
    requires held ==> CountUnder(keys, RunTreePrefix(plan.supersededRuns[i])) == 0
    requires !held ==> forall k :: k in keys && RunTreePrefix(plan.supersededRuns[i]) <= k ==> k !in now
    ensures TreesEmpty(plan, now, i + 1)
  {
    hide RunTreePrefix, CountUnder;
    forall j | 0 <= j < i + 1
      ensures Tree(now, plan.supersededRuns[j]) == map[]
    {
      if j < i {
        assert Tree(prior, plan.supersededRuns[j]) == map[];
        StillEmpty(prior, now, plan.supersededRuns[j]);
      } else {
        var id := plan.supersededRuns[i];
        if held {
          forall k | k in Tree(prior, id)
            ensures false
          {
            CountZero(keys, RunTreePrefix(id), k);
          }
          StillEmpty(prior, now, id);
        }
      }
    }
  }

  lemma StillEmpty(prior: Objects, now: Objects, id: RunId)
    requires Submap(now, prior) && Tree(prior, id) == map[]
    ensures Tree(now, id) == map[]
  {
    TreeShrinks(prior, now, id);
  }

  lemma TreeShrinks(prior: Objects, now: Objects, id: RunId)
    requires Submap(now, prior)
    ensures forall k :: k in Tree(now, id) ==> k in Tree(prior, id)
  {
    hide RunTreePrefix;
  }

  /** Everything the plan covers is gone. */
  ghost predicate NothingLeft(plan: Plan, now: Objects) {
    && (forall k :: k in plan.orphanSegments ==> k !in now)
    && (forall id :: id in plan.supersededRuns ==> Tree(now, id) == map[])
  }

  /** The pass. Whatever the destination answers and wherever the pass is cut short, every state
      it goes through obeys the plan. What it planned is what it deleted, was refused, failed or
      held; a dry run plans the same totals; and a pass that is not incomplete has left nothing. */
  method Apply(store: Destination, plan: Plan, dryRun: bool) returns (r: Applied)
    requires store.Valid() && WellPlaced(plan)
    modifies store`objects, store`deletes, store`past, store`asked, store`lists
    ensures store.Valid() && old(store.past) <= store.past
    ensures Obedient(plan, old(store.objects), store.past, |old(store.past)|)
    ensures dryRun ==> store.past == old(store.past) && store.objects == old(store.objects)
    ensures r.CannotDelete? <==> !store.canDelete && !dryRun
    ensures r.CannotList? <==> store.canDelete && !store.canList && !dryRun
    ensures r.CannotDelete? || r.CannotList? ==> store.past == old(store.past)
    ensures r.Done? ==> Balanced(r.result, plan, dryRun) && (r.result.runObjectsUnknown <==> dryRun && !store.canList)
    ensures r.Done? && store.canList ==>
              r.result.plannedRunObjects == TreeTotal(store.listing, old(store.objects), plan.supersededRuns)
    ensures r.Done? && !dryRun ==>
              (r.result.Incomplete() <==> r.result.segmentsDeleted + r.result.runObjectsDeleted
                                          < r.result.plannedSegments + r.result.plannedRunObjects)
    ensures r.Done? && !dryRun && !r.result.Incomplete() ==> NothingLeft(plan, store.objects)
    ensures old(store.asked) <= store.asked
    ensures r.Done? ==>
              var asked := store.asked[|old(store.asked)|..];
              && r.result.refused == RefusedKeys(asked) && r.result.failed == FailedKeys(asked)
              && r.result.refusedLockNamed == LocksNamed(asked)
              && r.result.segmentsDeleted + r.result.runObjectsDeleted == Accepted(asked)
    ensures r.Done? && !dryRun ==>
              && |store.asked| >= |old(store.asked)| + |plan.orphanSegments|
              && forall j :: 0 <= j < |plan.orphanSegments| ==> store.asked[|old(store.asked)| + j].key == plan.orphanSegments[j]
  {
    hide Obeys, WellPlaced, Tree, TreeTotal, TreesUntouched, TreesEmpty, RefusedKeys, FailedKeys, LocksNamed, Accepted, IsRefusal;
    if !store.canDelete && !dryRun {
      return CannotDelete;
    }
    if !store.canList && !dryRun {
      return CannotList;
    }
    ghost var before := store.objects;
    var res := PruneResult(0, 0, |plan.orphanSegments|, 0, dryRun && !store.canList, [], 0, [], 0);
    var gone: set<Key>;
    gone, res := DeleteSegments(store, plan, dryRun, res);
    ghost var middle, soasked := store.past, store.asked;
    r := DeleteTrees(store, plan, before, gone, dryRun, res);
    if r.Done? {
      assert store.asked[|old(store.asked)|..] == soasked[|old(store.asked)|..] + store.asked[|soasked|..];
      TallyJoin(PruneResult(0, 0, |plan.orphanSegments|, 0, dryRun && !store.canList, [], 0, [], 0),
                soasked[|old(store.asked)|..], res, store.asked[|soasked|..], r.result);
    }
    ObedientOverall(plan, before, old(store.past), middle, store.past);
    if r.Done? && !dryRun && !r.result.Incomplete() {
      AllEmpty(plan, store.objects);
    }
  }

  lemma ObedientOverall(plan: Plan, before: Objects, a: seq<Objects>, b: seq<Objects>, c: seq<Objects>)
    requires a <= b <= c && Obedient(plan, before, b, |a|) && Obedient(plan, before, c, |b|)
    ensures a <= c && Obedient(plan, before, c, |a|)
  {
    hide Obeys;
    forall i | |a| <= i < |c|
      ensures Obeys(plan, before, c[i])
    {
      assert i < |b| ==> c[i] == b[i];
    }
  }

  lemma AllEmpty(plan: Plan, now: Objects)
    requires TreesEmpty(plan, now, |plan.supersededRuns|)
    ensures forall id :: id in plan.supersededRuns ==> Tree(now, id) == map[]
  {
    hide Tree;
  }
}
