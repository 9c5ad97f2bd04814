/** What the walk's byte budget does. */
module ByteBudget {
  // The budget is soft: a shard's size is known once it has been fetched. The bytes buffered stay
  // under the budget plus what was under way, and the one shard started, at the last test that
  // let the launcher on.
  import opened Common
  import opened ShardWalk

  function SizeOf<R, E>(cfg: Config<R, E>, i: nat): nat {
    if i < |cfg.shards| && cfg.shards[i].Opened? then cfg.shards[i].size else 0
  }

  /** Started, with its bytes not counted yet. */
  predicate UnderWay<R, E>(f: Future<R, E>) { f.pc.Unspawned? || f.pc.Fetching? || f.pc.Adding? }

  /** The sizes of the shards under way. */
  function Pending<R, E>(cfg: Config<R, E>, fs: seq<Future<R, E>>): nat {
    if fs == [] then 0
    else
      var n := |fs| - 1;
      Pending(cfg, fs[..n]) + if UnderWay(fs[n]) then SizeOf(cfg, n) else 0
  }

  lemma {:induction false} PendingUpdate<R, E>(cfg: Config<R, E>, fs: seq<Future<R, E>>, i: nat, f: Future<R, E>)
    requires i < |fs|
    ensures Pending(cfg, fs[i := f]) ==
            Pending(cfg, fs) - (if UnderWay(fs[i]) then SizeOf(cfg, i) else 0) + if UnderWay(f) then SizeOf(cfg, i) else 0
    decreases |fs|
  {
    var n := |fs| - 1;
    if i < n {
      PendingUpdate(cfg, fs[..n], i, f);
      assert fs[i := f][..n] == fs[..n][i := f];
    } else {
      assert fs[i := f][..n] == fs[..n];
    }
  }

  lemma PendingSnoc<R, E>(cfg: Config<R, E>, fs: seq<Future<R, E>>, f: Future<R, E>)
    ensures Pending(cfg, fs + [f]) == Pending(cfg, fs) + if UnderWay(f) then SizeOf(cfg, |fs|) else 0
  {
    assert (fs + [f])[..|fs|] == fs;
  }

  /** Buffered, or to be buffered without another shard being started. */
  function Committed<R, E>(cfg: Config<R, E>, s: State<R, E>): int { s.bufferedBytes + Pending(cfg, s.futures) }

  /** Only starting a shard commits more bytes. */
  lemma CommittedStep<R, E>(cfg: Config<R, E>, s: State<R, E>, a: Action<R, E>)
    requires Inv(cfg, s) && Enabled(cfg, s, a) && !s.cancelled
    ensures Committed(cfg, Apply(cfg, s, a)) <= Committed(cfg, s) + if a.SendFuture? then SizeOf(cfg, |s.futures|) else 0
  {
    hide InvBytes, InvWalk;
    match a
    case SendFuture => PendingSnoc(cfg, s.futures, Future(Unspawned, None, 0));
    case StartFetch =>
      assert InvFuture(cfg, s, s.next);
      PendingUpdate(cfg, s.futures, s.next, s.futures[s.next].(pc := Fetching));
    case OpenShard(i, res) =>
      PendingUpdate(cfg, s.futures, i, s.futures[i].(pc := if res.Opened? then Adding(res.size, res.recs) else Sending(res)));
    case AddBytes(i) =>
      assert InvFuture(cfg, s, i);
      var f := s.futures[i];
      PendingUpdate(cfg, s.futures, i, f.(pc := Sending(Opened(f.pc.recs, f.pc.size)), charged := f.pc.size));
    case SendResult(i) => PendingUpdate(cfg, s.futures, i, s.futures[i].(pc := Finished, slot := Some(s.futures[i].pc.res)));
    case ReceiveResult => PendingUpdate(cfg, s.futures, s.consume.id, s.futures[s.consume.id].(slot := None));
    case ReleaseBytes => PendingUpdate(cfg, s.futures, s.released, s.futures[s.released].(charged := 0));
    case _ =>
  }

  /** The launcher has passed the test for the next shard and not started it yet. */
  predicate LetOn(pc: LaunchPc) { pc == CheckCtx || pc == TakeToken || pc == Enqueue }

  /** Step j is a test of the budget that let the launcher on, and nothing later has: what has been
      committed since is at most the one shard it was let on for. */
  ghost predicate LastLetOn<R, E>(cfg: Config<R, E>, actions: seq<Action<R, E>>, states: seq<State<R, E>>, j: nat, n: nat)
    requires j < n < |states| && |states| == |actions| + 1
  {
    && actions[j] == TestBudget && states[j].bufferedBytes < cfg.maxMem
    && Committed(cfg, states[n]) <= Committed(cfg, states[j]) + (if LetOn(states[n].launch) then 0 else SizeOf(cfg, |states[j].futures|))
    && (LetOn(states[n].launch) ==> |states[n].futures| == |states[j].futures|)
    && (!LetOn(states[n].launch) ==> |states[n].futures| == |states[j].futures| + 1)
  }

  ghost predicate Within<R, E>(cfg: Config<R, E>, actions: seq<Action<R, E>>, states: seq<State<R, E>>, n: nat)
    requires n < |states| && |states| == |actions| + 1
  {
    || (states[n].futures == [] && states[n].bufferedBytes == 0 && !LetOn(states[n].launch))
    || exists j :: 0 <= j < n && LastLetOn(cfg, actions, states, j, n)
  }

  lemma StartsWithin<R, E>(cfg: Config<R, E>, s: State<R, E>, a: Action<R, E>)
    requires cfg.Valid() && cfg.maxMem > 0 && Inv(cfg, s) && Enabled(cfg, s, a) && !s.cancelled && !Apply(cfg, s, a).cancelled
    ensures var t := Apply(cfg, s, a);
            && (a.SendFuture? <==> |t.futures| != |s.futures|) && (a.SendFuture? ==> |t.futures| == |s.futures| + 1)
            && (LetOn(t.launch) && !LetOn(s.launch) ==> a == TestBudget && s.bufferedBytes < cfg.maxMem && t == s.(launch := CheckCtx))
            && (LetOn(s.launch) && !LetOn(t.launch) ==> a.SendFuture?)
            && (a.SendFuture? ==> LetOn(s.launch) && !LetOn(t.launch))
            && (s.futures == [] ==> t.bufferedBytes == s.bufferedBytes)
  {
    hide InvFutures, InvBytes, InvWalk, InvCounts;
  }

  lemma StaysWithin<R, E>(cfg: Config<R, E>, actions: seq<Action<R, E>>, states: seq<State<R, E>>, n: nat)
    requires cfg.Valid() && cfg.maxMem > 0 && n < |actions| && |states| == |actions| + 1
    requires var s := states[n]; Inv(cfg, s) && Enabled(cfg, s, actions[n]) && states[n + 1] == Apply(cfg, s, actions[n])
    requires !states[n].cancelled && !states[n + 1].cancelled && Within(cfg, actions, states, n)
    ensures Within(cfg, actions, states, n + 1)
  {
    hide Inv, Enabled, Apply, Pending;
    var s, t, a := states[n], states[n + 1], actions[n];
    StartsWithin(cfg, s, a);
    CommittedStep(cfg, s, a);
    if LetOn(t.launch) && !LetOn(s.launch) {
      assert LastLetOn(cfg, actions, states, n, n + 1);
    } else if j :| 0 <= j < n && LastLetOn(cfg, actions, states, j, n) {
      assert LastLetOn(cfg, actions, states, j, n + 1);
    }
  }

  lemma {:induction false} RunWithin<R, E>(cfg: Config<R, E>, actions: seq<Action<R, E>>, states: seq<State<R, E>>, n: nat)
    requires cfg.Valid() && cfg.maxMem > 0 && IsRun(cfg, actions, states) && n <= |actions| && !states[n].cancelled
    ensures Within(cfg, actions, states, n)
  {
    hide Inv, Within, Enabled, Apply;
    if n == 0 {
      InitWithin(cfg, actions, states);
    } else {
      RunState(cfg, actions, states, n - 1);
      Uncancelled(cfg, states[n - 1], actions[n - 1]);
      RunWithin(cfg, actions, states, n - 1);
      StaysWithin(cfg, actions, states, n - 1);
    }
  }

  lemma InitWithin<R, E>(cfg: Config<R, E>, actions: seq<Action<R, E>>, states: seq<State<R, E>>)
    requires |states| == |actions| + 1 && states[0] == Init()
    ensures Within(cfg, actions, states, 0)
  {
  }

  lemma Uncancelled<R, E>(cfg: Config<R, E>, s: State<R, E>, a: Action<R, E>)
    requires Enabled(cfg, s, a) && !Apply(cfg, s, a).cancelled
    ensures !s.cancelled
  {
  }

  /** With a budget set and the walk not torn down, the launcher starts a shard only after a test
      that found fewer bytes buffered than the budget; and what is buffered then or later, until
      the next such test, goes over the budget by no more than the shards that were under way at
      the test, no more than the window allows, and the one shard started since. */
  lemma BudgetHolds<R(!new), E(!new)>(cfg: Config<R, E>, actions: seq<Action<R, E>>, states: seq<State<R, E>>, n: nat)
    requires cfg.Valid() && cfg.maxMem > 0 && IsRun(cfg, actions, states) && n <= |actions|
    requires !states[n].cancelled && states[n].futures != []
    ensures exists j :: 0 <= j < n
                        && actions[j] == TestBudget && states[j].bufferedBytes < cfg.maxMem
                        && states[n].bufferedBytes < cfg.maxMem + Pending(cfg, states[j].futures) + SizeOf(cfg, |states[j].futures|)
                        && |states[j].futures| - states[j].released <= cfg.fetchConcurrency
                        && |states[j].futures| <= |states[n].futures| <= |states[j].futures| + 1
  {
    assert |states| == |actions| + 1;
    hide IsRun;
    RunWithin(cfg, actions, states, n);
    var j :| 0 <= j < n && LastLetOn(cfg, actions, states, j, n);
    EveryMoment(cfg, actions, states, j);
  }
}
