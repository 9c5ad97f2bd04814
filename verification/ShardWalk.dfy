/** The walk over a run's signed shards. */
module ShardWalk {
  // The sequential loop, and the concurrent prefetcher as a machine of interleaved steps taken
  // by a launcher, one fetcher per shard and a consumer. The store is fixed: opening shard i has
  // one outcome for the whole walk, unless the walk's own context has been cancelled, when an
  // open may return anything.
  import opened Common

  /** What opening one shard yields. The size is the fetched byte length. */
  datatype Opening<+R, +E> = Opened(recs: seq<R>, size: nat) | Failed(error: E)

  /** The records handed to the callback, in order, and the error the walk ends with. */
  datatype Outcome<+R, +E> = Outcome(handed: seq<R>, err: Option<E>)

  /** The per-record callback: its answer may depend on every record it was handed before. */
  type Callback<!R, !E> = (seq<R>, R) -> Option<E>

  // ---- The sequential walk ----

  /** Hands recs[j..] to the callback, stopping at its first error. */
  function Deliver<R, E>(cb: Callback<R, E>, recs: seq<R>, j: nat, handed: seq<R>): Outcome<R, E>
    requires j <= |recs|
    decreases |recs| - j
  {
    if j == |recs| then Outcome(handed, None)
    else
      var answer := cb(handed, recs[j]);
      if answer.Some? then Outcome(handed + [recs[j]], answer)
      else Deliver(cb, recs, j + 1, handed + [recs[j]])
  }

  function WalkFrom<R, E>(shards: seq<Opening<R, E>>, cb: Callback<R, E>, k: nat, handed: seq<R>): Outcome<R, E>
    requires k <= |shards|
    decreases |shards| - k
  {
    if k == |shards| then Outcome(handed, None)
    else match shards[k]
      case Failed(e) => Outcome(handed, Some(e))
      case Opened(recs, _) => ResumeAt(shards, cb, k, recs, 0, handed)
  }

  /** The rest of the walk from record j of shard k. */
  function ResumeAt<R, E>(shards: seq<Opening<R, E>>, cb: Callback<R, E>, k: nat, recs: seq<R>, j: nat, handed: seq<R>): Outcome<R, E>
    requires k < |shards| && j <= |recs|
    decreases |shards| - k, 0
  {
    var o := Deliver(cb, recs, j, handed);
    if o.err.Some? then o else WalkFrom(shards, cb, k + 1, o.handed)
  }

  function Walk<R, E>(shards: seq<Opening<R, E>>, cb: Callback<R, E>): Outcome<R, E> {
    WalkFrom(shards, cb, 0, [])
  }

  method WalkSequential<R, E>(shards: seq<Opening<R, E>>, cb: Callback<R, E>) returns (o: Outcome<R, E>)
    ensures o == Walk(shards, cb)
  {
    var handed: seq<R> := [];
    for k := 0 to |shards|
      invariant WalkFrom(shards, cb, k, handed) == Walk(shards, cb)
    {
      if shards[k].Failed? {
        return Outcome(handed, Some(shards[k].error));
      }
      var recs := shards[k].recs;
      for j := 0 to |recs|
        invariant ResumeAt(shards, cb, k, recs, j, handed) == Walk(shards, cb)
      {
        var answer := cb(handed, recs[j]);
        handed := handed + [recs[j]];
        if answer.Some? {
          return Outcome(handed, answer);
        }
      }
    }
    o := Outcome(handed, None);
  }

  lemma {:induction false} DeliverExtends<R, E>(cb: Callback<R, E>, recs: seq<R>, j: nat, handed: seq<R>)
    requires j <= |recs|
    ensures handed <= Deliver(cb, recs, j, handed).handed
    decreases |recs| - j
  {
    if j < |recs| && cb(handed, recs[j]).None? {
      DeliverExtends(cb, recs, j + 1, handed + [recs[j]]);
    }
  }

  lemma {:induction false} ResumeExtends<R, E>(shards: seq<Opening<R, E>>, cb: Callback<R, E>, k: nat, recs: seq<R>, j: nat, handed: seq<R>)
    requires k < |shards| && j <= |recs|
    ensures handed <= ResumeAt(shards, cb, k, recs, j, handed).handed
    decreases |shards| - k, 0
  {
    DeliverExtends(cb, recs, j, handed);
    var o := Deliver(cb, recs, j, handed);
    if o.err.None? {
      WalkExtends(shards, cb, k + 1, o.handed);
    }
  }

  lemma {:induction false} WalkExtends<R, E>(shards: seq<Opening<R, E>>, cb: Callback<R, E>, k: nat, handed: seq<R>)
    requires k <= |shards|
    ensures handed <= WalkFrom(shards, cb, k, handed).handed
    decreases |shards| - k, 1
  {
    if k < |shards| && shards[k].Opened? {
      ResumeExtends(shards, cb, k, shards[k].recs, 0, handed);
    }
  }

  // ---- The concurrent walk: states ----

  datatype Config<!R, !E> = Config(shards: seq<Opening<R, E>>, cb: Callback<R, E>, fetchConcurrency: nat, maxMem: nat)
  {
    /** Never more slots than there are shards. */
    function Window(): nat {
      if fetchConcurrency > |shards| then |shards| else fetchConcurrency
    }

    ghost predicate Valid() {
      fetchConcurrency > 1 && |shards| > 0
    }
  }

  /** Where the launcher stands for shard `next`. Waiting is the point between testing the byte
      budget and parking on the condition variable: the mutex is held across it, and the only
      steps it shuts out are the other critical sections. Parked has released the mutex and
      needs a broadcast. */
  datatype LaunchPc = Budget | Waiting | Parked | CheckCtx | TakeToken | Enqueue | Spawn | Exited

  datatype FetchPc<+R, +E> = Unspawned | Fetching | Adding(size: nat, recs: seq<R>) | Sending(res: Opening<R, E>) | Finished

  /** One shard's result channel with its fetcher. `charged` is what the fetcher has added to
      bufferedBytes and nobody has subtracted. */
  datatype Future<+R, +E> = Future(pc: FetchPc<R, E>, slot: Option<Opening<R, E>>, charged: nat)

  datatype ConsumePc<+R> =
    | RecvFuture
    | RecvResult(id: nat)
    | Delivering(recs: seq<R>, size: nat, j: nat)
    | FreeSlot
    | Cancel
    | Broadcast
    | Join
    | Returned

  datatype State<+R, +E> = State(
    launch: LaunchPc,
    next: nat,
    tokens: nat,
    order: seq<nat>,
    futures: seq<Future<R, E>>,
    bufferedBytes: int,
    consume: ConsumePc<R>,
    received: nat,
    released: nat,
    handed: seq<R>,
    err: Option<E>,
    cancelled: bool)

  function Init<R, E>(): State<R, E> {
    State(Budget, 0, 0, [], [], 0, RecvFuture, 0, 0, [], None, false)
  }

  // ---- The concurrent walk: steps ----

  datatype Action<+R, +E> =
    | TestBudget
    | Park
    | TestCtx
    | AcquireToken
    | AbandonToken
    | SendFuture
    | AbandonOrder
    | StartFetch
    | OpenShard(i: nat, res: Opening<R, E>)
    | AddBytes(i: nat)
    | SendResult(i: nat)
    | ReceiveFuture
    | ReceiveResult
    | HandRecord
    | ReleaseBytes
    | ReleaseToken
    | DoCancel
    | DoBroadcast
    | DoJoin

  /** The mutex is free for another critical section. */
  predicate MutexFree<R, E>(s: State<R, E>) { s.launch != Waiting }

  predicate Enabled<R(==), E(==)>(cfg: Config<R, E>, s: State<R, E>, a: Action<R, E>) {
    match a
    case TestBudget => s.launch == Budget
    case Park => s.launch == Waiting
    case TestCtx => s.launch == CheckCtx
    case AcquireToken => s.launch == TakeToken && s.tokens < cfg.Window()
    case AbandonToken => s.launch == TakeToken && s.cancelled
    case SendFuture => s.launch == Enqueue && |s.order| < cfg.Window()
    case AbandonOrder => s.launch == Enqueue && s.cancelled
    case StartFetch => s.launch == Spawn && s.next < |s.futures|
    case OpenShard(i, res) =>
      && i < |s.futures| && i < |cfg.shards| && s.futures[i].pc.Fetching?
      && (s.cancelled || res == cfg.shards[i])
    case AddBytes(i) => i < |s.futures| && s.futures[i].pc.Adding? && MutexFree(s)
    case SendResult(i) => i < |s.futures| && s.futures[i].pc.Sending? && s.futures[i].slot.None?
    case ReceiveFuture => s.consume.RecvFuture? && s.order != []
    case ReceiveResult => s.consume.RecvResult? && s.consume.id < |s.futures| && s.futures[s.consume.id].slot.Some?
    case HandRecord => s.consume.Delivering? && s.consume.j < |s.consume.recs|
    case ReleaseBytes =>
      && s.consume.Delivering? && s.consume.j == |s.consume.recs| && s.released < |s.futures|
      && MutexFree(s)
    case ReleaseToken => s.consume.FreeSlot? && s.tokens > 0
    case DoCancel => s.consume.Cancel?
    case DoBroadcast => s.consume.Broadcast? && MutexFree(s)
    case DoJoin => s.consume.Join? && s.launch == Exited && forall i :: 0 <= i < |s.futures| ==> s.futures[i].pc.Finished?
  }

  /** A broadcast sends a parked launcher back to test the budget again. */
  function Woken(pc: LaunchPc): LaunchPc { if pc == Parked then Budget else pc }

  function SetFuture<R, E>(s: State<R, E>, i: nat, f: Future<R, E>): State<R, E>
    requires i < |s.futures|
  {
    s.(futures := s.futures[i := f])
  }

  function Apply<R(==), E(==)>(cfg: Config<R, E>, s: State<R, E>, a: Action<R, E>): State<R, E>
    requires Enabled(cfg, s, a)
  {
    match a
    case TestBudget =>
      if cfg.maxMem > 0 && s.bufferedBytes >= cfg.maxMem && !s.cancelled
      then s.(launch := Waiting) else s.(launch := CheckCtx)
    case Park => s.(launch := Parked)
    case TestCtx => s.(launch := if s.cancelled then Exited else TakeToken)
    case AcquireToken => s.(launch := Enqueue, tokens := s.tokens + 1)
    case AbandonToken => s.(launch := Exited)
    case SendFuture =>
      s.(launch := Spawn, order := s.order + [s.next], futures := s.futures + [Future(Unspawned, None, 0)])
    case AbandonOrder => s.(launch := Exited)
    case StartFetch =>
      SetFuture(s, s.next, s.futures[s.next].(pc := Fetching))
      .(next := s.next + 1, launch := if s.next + 1 == |cfg.shards| then Exited else Budget)
    case OpenShard(i, res) =>
      SetFuture(s, i, s.futures[i].(pc := if res.Opened? then Adding(res.size, res.recs) else Sending(res)))
    case AddBytes(i) =>
      var f := s.futures[i];
      SetFuture(s, i, f.(pc := Sending(Opened(f.pc.recs, f.pc.size)), charged := f.pc.size))
      .(bufferedBytes := s.bufferedBytes + f.pc.size)
    case SendResult(i) =>
      SetFuture(s, i, s.futures[i].(pc := Finished, slot := Some(s.futures[i].pc.res)))
    case ReceiveFuture =>
      s.(order := s.order[1..], received := s.received + 1, consume := RecvResult(s.order[0]))
    case ReceiveResult =>
      var id := s.consume.id;
      var s1 := SetFuture(s, id, s.futures[id].(slot := None));
      (match s.futures[id].slot.value
       case Failed(e) => s1.(err := Some(e), consume := Cancel)
       case Opened(recs, size) => s1.(consume := Delivering(recs, size, 0)))
    case HandRecord =>
      var rec := s.consume.recs[s.consume.j];
      var answer := cfg.cb(s.handed, rec);
      var s1 := s.(handed := s.handed + [rec]);
      if answer.Some? then s1.(err := answer, consume := Cancel)
      else s1.(consume := s.consume.(j := s.consume.j + 1))
    case ReleaseBytes =>
      SetFuture(s, s.released, s.futures[s.released].(charged := 0))
      .(bufferedBytes := s.bufferedBytes - s.consume.size, launch := Woken(s.launch), consume := FreeSlot)
    case ReleaseToken =>
      s.(tokens := s.tokens - 1, released := s.released + 1,
         consume := if s.released + 1 == |cfg.shards| then Cancel else RecvFuture)
    case DoCancel => s.(cancelled := true, consume := Broadcast)
    case DoBroadcast => s.(launch := Woken(s.launch), consume := Join)
    case DoJoin => s.(consume := Returned)
  }

  // ---- Runs ----

  /** A run: from the initial state, every step enabled where it is taken. */
  ghost predicate IsRun<R, E>(cfg: Config<R, E>, actions: seq<Action<R, E>>, states: seq<State<R, E>>) {
    && |states| == |actions| + 1
    && states[0] == Init()
    && forall i :: 0 <= i < |actions| ==> Enabled(cfg, states[i], actions[i]) && states[i + 1] == Apply(cfg, states[i], actions[i])
  }

  // ---- Invariants ----

  /** Positions, the order queue and the token count. */
  ghost predicate InvCounts<R, E>(cfg: Config<R, E>, s: State<R, E>) {
    && s.released <= s.received <= |s.futures| <= |cfg.shards|
    && |s.futures| == s.next + (if s.launch == Spawn then 1 else 0)
    && (s.launch != Exited ==> s.next < |cfg.shards|)
    && (s.launch == Exited && !s.cancelled ==> s.next == |cfg.shards|)
    && |s.order| == |s.futures| - s.received
    && (forall k :: 0 <= k < |s.order| ==> s.order[k] == s.received + k)
    && |s.futures| - s.released <= s.tokens <= cfg.Window()
    && (s.launch == Enqueue ==> s.tokens == |s.futures| - s.released + 1)
    && (s.launch != Enqueue && (s.launch != Exited || !s.cancelled) ==> s.tokens == |s.futures| - s.released)
    && (s.consume.RecvFuture? ==> s.received == s.released && s.released < |cfg.shards|)
    && (s.consume.RecvResult? || s.consume.Delivering? || s.consume.FreeSlot? ==> s.received == s.released + 1)
    && (s.consume.RecvResult? ==> s.consume.id == s.released)
    && (s.cancelled <==> s.consume.Broadcast? || s.consume.Join? || s.consume.Returned?)
  }

  /** The consumer has not taken this shard's result. */
  predicate Untaken<R, E>(s: State<R, E>, i: nat) {
    i >= s.received || s.consume == RecvResult(i)
  }

  ghost predicate InvFuture<R, E>(cfg: Config<R, E>, s: State<R, E>, i: nat)
    requires i < |s.futures| <= |cfg.shards|
  {
    var f := s.futures[i];
    && (f.pc.Unspawned? <==> s.launch == Spawn && i == s.next)
    && (f.slot.Some? ==> f.pc.Finished?)
    && (Untaken(s, i) && f.pc.Finished? ==> f.slot.Some?)
    && (!Untaken(s, i) ==> f.pc.Finished?)
    && (f.pc.Adding? && !s.cancelled ==> Opened(f.pc.recs, f.pc.size) == cfg.shards[i])
    && (f.pc.Sending? && !s.cancelled ==> f.pc.res == cfg.shards[i])
    && (f.slot.Some? && !s.cancelled ==> f.slot.value == cfg.shards[i])
  }

  ghost predicate InvFutures<R, E>(cfg: Config<R, E>, s: State<R, E>)
    requires |s.futures| <= |cfg.shards|
  {
    forall i :: 0 <= i < |s.futures| ==> InvFuture(cfg, s, i)
  }

  function Charges<R, E>(fs: seq<Future<R, E>>): nat {
    if fs == [] then 0 else Charges(fs[..|fs| - 1]) + fs[|fs| - 1].charged
  }

  lemma {:induction false} ChargesUpdate<R, E>(fs: seq<Future<R, E>>, i: nat, f: Future<R, E>)
    requires i < |fs|
    ensures Charges(fs[i := f]) == Charges(fs) - fs[i].charged + f.charged
    decreases |fs|
  {
    var n := |fs| - 1;
    if i < n {
      ChargesUpdate(fs[..n], i, f);
      assert fs[i := f][..n] == fs[..n][i := f];
    } else {
      assert fs[i := f][..n] == fs[..n];
    }
  }

  lemma ChargesSnoc<R, E>(fs: seq<Future<R, E>>, f: Future<R, E>)
    ensures Charges(fs + [f]) == Charges(fs) + f.charged
  {
    assert (fs + [f])[..|fs|] == fs;
  }

  lemma {:induction false} ChargesZero<R, E>(fs: seq<Future<R, E>>)
    requires forall i :: 0 <= i < |fs| ==> fs[i].charged == 0
    ensures Charges(fs) == 0
  {
    if fs != [] {
      ChargesZero(fs[..|fs| - 1]);
    }
  }

  /** What shard i has charged: its size from the moment its bytes are added until the
      consumer releases it. */
  ghost predicate InvCharge<R, E>(cfg: Config<R, E>, s: State<R, E>, i: nat)
    requires i < |s.futures| <= |cfg.shards|
  {
    var f := s.futures[i];
    && (i < s.released || (i == s.released && s.consume.FreeSlot?) ==> f.charged == 0)
    && (f.pc.Unspawned? || f.pc.Fetching? || f.pc.Adding? ==> f.charged == 0)
    && ((f.pc.Sending? || f.pc.Finished?) && !s.cancelled && Untaken(s, i) ==>
          f.charged == if cfg.shards[i].Opened? then cfg.shards[i].size else 0)
    && (i == s.released && s.consume.Delivering? ==> f.charged == s.consume.size)
  }

  ghost predicate InvBytes<R, E>(cfg: Config<R, E>, s: State<R, E>)
    requires |s.futures| <= |cfg.shards|
  {
    && s.bufferedBytes == Charges(s.futures)
    && (forall i :: 0 <= i < |s.futures| ==> InvCharge(cfg, s, i))
    && (s.launch == Waiting || s.launch == Parked ==>
          s.bufferedBytes >= cfg.maxMem > 0 && !s.consume.Join? && !s.consume.Returned?)
  }

  /** Where the consumer stands in the sequential walk. */
  ghost predicate InvWalk<R, E>(cfg: Config<R, E>, s: State<R, E>)
  {
    var whole := Walk(cfg.shards, cfg.cb);
    match s.consume
    case RecvFuture => s.err.None? && s.released < |cfg.shards| && WalkFrom(cfg.shards, cfg.cb, s.released, s.handed) == whole
    case RecvResult(_) => s.err.None? && s.released < |cfg.shards| && WalkFrom(cfg.shards, cfg.cb, s.released, s.handed) == whole
    case Delivering(recs, size, j) =>
      && s.err.None? && s.released < |cfg.shards| && j <= |recs|
      && cfg.shards[s.released] == Opened(recs, size)
      && ResumeAt(cfg.shards, cfg.cb, s.released, recs, j, s.handed) == whole
    case FreeSlot => s.err.None? && s.released < |cfg.shards| && WalkFrom(cfg.shards, cfg.cb, s.released + 1, s.handed) == whole
    case _ => Outcome(s.handed, s.err) == whole
  }

  ghost predicate Inv<R, E>(cfg: Config<R, E>, s: State<R, E>) {
    && InvCounts(cfg, s)
    && InvFutures(cfg, s)
    && InvBytes(cfg, s)
    && InvWalk(cfg, s)
  }

  lemma InitInv<R, E>(cfg: Config<R, E>)
    requires cfg.Valid()
    ensures Inv(cfg, Init())
  {
  }

  lemma StepKeepsCounts<R, E>(cfg: Config<R, E>, s: State<R, E>, a: Action<R, E>)
    requires Inv(cfg, s) && Enabled(cfg, s, a)
    ensures InvCounts(cfg, Apply(cfg, s, a))
  {
    hide InvBytes, InvWalk, InvFutures;
    if OfConsumer(a) {
      ConsumeStepKeepsCounts(cfg, s, a);
    }
  }

  lemma ConsumeStepKeepsCounts<R, E>(cfg: Config<R, E>, s: State<R, E>, a: Action<R, E>)
    requires InvCounts(cfg, s) && Enabled(cfg, s, a) && OfConsumer(a)
    ensures InvCounts(cfg, Apply(cfg, s, a))
  {
    if a.ReceiveFuture? {
      var v := Apply(cfg, s, a);
      forall k | 0 <= k < |v.order|
        ensures v.order[k] == v.received + k
      {
        assert v.order[k] == s.order[k + 1];
      }
    }
  }

  predicate OfConsumer<R, E>(a: Action<R, E>) {
    a.ReceiveFuture? || a.ReceiveResult? || a.HandRecord? || a.ReleaseBytes? || a.ReleaseToken?
    || a.DoCancel? || a.DoBroadcast? || a.DoJoin?
  }

  lemma FetchStepKeepsFuture<R, E>(cfg: Config<R, E>, s: State<R, E>, a: Action<R, E>, i: nat)
    requires Inv(cfg, s) && Enabled(cfg, s, a) && !OfConsumer(a)
    requires InvCounts(cfg, Apply(cfg, s, a)) && i < |Apply(cfg, s, a).futures|
    ensures InvFuture(cfg, Apply(cfg, s, a), i)
  {
    hide InvBytes, InvWalk;
    assert i < |s.futures| ==> InvFuture(cfg, s, i);
  }

  lemma ConsumeStepKeepsFuture<R, E>(cfg: Config<R, E>, s: State<R, E>, a: Action<R, E>, i: nat)
    requires Inv(cfg, s) && Enabled(cfg, s, a) && OfConsumer(a)
    requires InvCounts(cfg, Apply(cfg, s, a)) && i < |Apply(cfg, s, a).futures|
    ensures InvFuture(cfg, Apply(cfg, s, a), i)
  {
    hide InvBytes, InvWalk, InvFutures, InvFuture;
    FutureAt(cfg, s, i);
    if a.ReceiveResult? {
      ReceiveKeepsFuture(cfg, s, i);
    } else if a.ReleaseBytes? {
      ReleaseKeepsFuture(cfg, s, i);
    } else {
      QuietKeepsFuture(cfg, s, a, i);
    }
  }

  lemma QuietKeepsFuture<R, E>(cfg: Config<R, E>, s: State<R, E>, a: Action<R, E>, i: nat)
    requires InvCounts(cfg, s) && Enabled(cfg, s, a) && OfConsumer(a) && !a.ReceiveResult? && !a.ReleaseBytes?
    requires InvCounts(cfg, Apply(cfg, s, a)) && i < |s.futures| && InvFuture(cfg, s, i)
    ensures i < |Apply(cfg, s, a).futures| && InvFuture(cfg, Apply(cfg, s, a), i)
  {
  }

  lemma FutureAt<R, E>(cfg: Config<R, E>, s: State<R, E>, i: nat)
    requires |s.futures| <= |cfg.shards| && InvFutures(cfg, s) && i < |s.futures|
    ensures InvFuture(cfg, s, i)
  {
    hide InvFuture;
  }

  lemma ReceiveKeepsFuture<R, E>(cfg: Config<R, E>, s: State<R, E>, i: nat)
    requires InvCounts(cfg, s) && Enabled(cfg, s, ReceiveResult) && i < |s.futures| && InvFuture(cfg, s, i)
    requires InvCounts(cfg, Apply(cfg, s, ReceiveResult))
    ensures InvFuture(cfg, Apply(cfg, s, ReceiveResult), i)
  {
  }

  lemma ReleaseKeepsFuture<R, E>(cfg: Config<R, E>, s: State<R, E>, i: nat)
    requires InvCounts(cfg, s) && Enabled(cfg, s, ReleaseBytes) && i < |s.futures| && InvFuture(cfg, s, i)
    requires InvCounts(cfg, Apply(cfg, s, ReleaseBytes))
    ensures InvFuture(cfg, Apply(cfg, s, ReleaseBytes), i)
  {
  }

  lemma FetchStepKeepsCharge<R, E>(cfg: Config<R, E>, s: State<R, E>, a: Action<R, E>, i: nat)
    requires Inv(cfg, s) && Enabled(cfg, s, a) && !OfConsumer(a)
    requires InvCounts(cfg, Apply(cfg, s, a)) && i < |Apply(cfg, s, a).futures|
    ensures InvCharge(cfg, Apply(cfg, s, a), i)
  {
    hide Charges, InvWalk;
    assert i < |s.futures| ==> InvFuture(cfg, s, i) && InvCharge(cfg, s, i);
  }

  lemma ConsumeStepKeepsCharge<R, E>(cfg: Config<R, E>, s: State<R, E>, a: Action<R, E>, i: nat)
    requires Inv(cfg, s) && Enabled(cfg, s, a) && OfConsumer(a)
    requires InvCounts(cfg, Apply(cfg, s, a)) && i < |Apply(cfg, s, a).futures|
    ensures InvCharge(cfg, Apply(cfg, s, a), i)
  {
    hide Charges, InvWalk, InvFutures, InvFuture, InvCharge;
    FutureAt(cfg, s, i);
    if a.ReceiveResult? {
      ReceiveKeepsCharge(cfg, s, i);
    } else if a.ReleaseBytes? {
      ReleaseKeepsCharge(cfg, s, i);
    } else {
      QuietKeepsCharge(cfg, s, a, i);
    }
  }

  lemma ReceiveKeepsCharge<R, E>(cfg: Config<R, E>, s: State<R, E>, i: nat)
    requires InvCounts(cfg, s) && Enabled(cfg, s, ReceiveResult) && i < |s.futures| && InvFuture(cfg, s, i) && InvCharge(cfg, s, i)
    requires InvCounts(cfg, Apply(cfg, s, ReceiveResult))
    ensures InvCharge(cfg, Apply(cfg, s, ReceiveResult), i)
  {
  }

  lemma ReleaseKeepsCharge<R, E>(cfg: Config<R, E>, s: State<R, E>, i: nat)
    requires InvCounts(cfg, s) && Enabled(cfg, s, ReleaseBytes) && i < |s.futures| && InvFuture(cfg, s, i) && InvCharge(cfg, s, i)
    requires InvCounts(cfg, Apply(cfg, s, ReleaseBytes))
    ensures InvCharge(cfg, Apply(cfg, s, ReleaseBytes), i)
  {
  }

  lemma QuietKeepsCharge<R, E>(cfg: Config<R, E>, s: State<R, E>, a: Action<R, E>, i: nat)
    requires InvCounts(cfg, s) && Enabled(cfg, s, a) && OfConsumer(a) && !a.ReceiveResult? && !a.ReleaseBytes?
    requires InvCounts(cfg, Apply(cfg, s, a)) && i < |s.futures| && InvFuture(cfg, s, i) && InvCharge(cfg, s, i)
    ensures i < |Apply(cfg, s, a).futures| && InvCharge(cfg, Apply(cfg, s, a), i)
  {
  }

  lemma StepKeepsTotal<R, E>(cfg: Config<R, E>, s: State<R, E>, a: Action<R, E>)
    requires Inv(cfg, s) && Enabled(cfg, s, a)
    ensures Apply(cfg, s, a).bufferedBytes == Charges(Apply(cfg, s, a).futures)
  {
    hide InvWalk, Charges;
    var fs := s.futures;
    match a
    case SendFuture => ChargesSnoc(fs, Future(Unspawned, None, 0));
    case StartFetch => ChargesUpdate(fs, s.next, fs[s.next].(pc := Fetching));
    case OpenShard(i, res) => ChargesUpdate(fs, i, Apply(cfg, s, a).futures[i]);
    case AddBytes(i) =>
      assert InvCharge(cfg, s, i);
      ChargesUpdate(fs, i, Apply(cfg, s, a).futures[i]);
    case SendResult(i) => ChargesUpdate(fs, i, Apply(cfg, s, a).futures[i]);
    case ReceiveResult => ChargesUpdate(fs, s.consume.id, fs[s.consume.id].(slot := None));
    case ReleaseBytes =>
      assert InvCharge(cfg, s, s.released);
      ChargesUpdate(fs, s.released, fs[s.released].(charged := 0));
    case _ =>
  }

  lemma StepKeepsWait<R, E>(cfg: Config<R, E>, s: State<R, E>, a: Action<R, E>)
    requires Inv(cfg, s) && Enabled(cfg, s, a)
    ensures var t := Apply(cfg, s, a);
            t.launch == Waiting || t.launch == Parked ==>
              t.bufferedBytes >= cfg.maxMem > 0 && !t.consume.Join? && !t.consume.Returned?
  {
    hide InvWalk, Charges;
  }

  lemma StepKeepsWalk<R, E>(cfg: Config<R, E>, s: State<R, E>, a: Action<R, E>)
    requires Inv(cfg, s) && Enabled(cfg, s, a)
    ensures InvWalk(cfg, Apply(cfg, s, a))
  {
    hide InvBytes;
    assert s.released < |s.futures| ==> InvFuture(cfg, s, s.released);
  }

  lemma StepKeepsInv<R, E>(cfg: Config<R, E>, s: State<R, E>, a: Action<R, E>)
    requires Inv(cfg, s) && Enabled(cfg, s, a)
    ensures Inv(cfg, Apply(cfg, s, a))
  {
    hide InvCharge, InvFuture, InvWalk, Apply, Enabled, Charges;
    StepKeepsCounts(cfg, s, a);
    StepKeepsTotal(cfg, s, a);
    StepKeepsWait(cfg, s, a);
    StepKeepsWalk(cfg, s, a);
    forall i | 0 <= i < |Apply(cfg, s, a).futures|
      ensures InvFuture(cfg, Apply(cfg, s, a), i) && InvCharge(cfg, Apply(cfg, s, a), i)
    {
      if OfConsumer(a) {
        ConsumeStepKeepsFuture(cfg, s, a, i);
        ConsumeStepKeepsCharge(cfg, s, a, i);
      } else {
        FetchStepKeepsFuture(cfg, s, a, i);
        FetchStepKeepsCharge(cfg, s, a, i);
      }
    }
  }

  // ---- Bounds ----

  /** At most a window of shards is launched and not yet consumed, the order channel always has
      room when the launcher sends, and bufferedBytes is what is charged. */
  lemma WindowHolds<R, E>(cfg: Config<R, E>, s: State<R, E>)
    requires Inv(cfg, s)
    ensures |s.futures| - s.released <= cfg.Window()
    ensures s.launch == Enqueue ==> Enabled(cfg, s, SendFuture)
    ensures s.bufferedBytes == Charges(s.futures)
  {
  }

  // ---- Progress ----

  /** While the consumer waits for a future or a result, some step other than the consumer's
      can be taken, or its own can. */
  lemma LauncherCanMove<R, E>(cfg: Config<R, E>, s: State<R, E>) returns (a: Action<R, E>)
    requires Inv(cfg, s) && s.launch != Exited && s.launch != Parked
    requires s.launch == TakeToken ==> s.cancelled || s.tokens < cfg.Window()
    ensures Enabled(cfg, s, a)
  {
    hide InvWalk, InvBytes;
    match s.launch
    case Budget => a := TestBudget;
    case Waiting => a := Park;
    case CheckCtx => a := TestCtx;
    case TakeToken => a := if s.cancelled then AbandonToken else AcquireToken;
    case Enqueue => a := SendFuture;
    case Spawn => a := StartFetch;
  }

  lemma FetcherCanMove<R, E>(cfg: Config<R, E>, s: State<R, E>, i: nat) returns (a: Action<R, E>)
    requires Inv(cfg, s) && i < |s.futures| && !s.futures[i].pc.Finished?
    ensures Enabled(cfg, s, a)
  {
    hide InvWalk, InvBytes;
    assert InvFuture(cfg, s, i);
    if s.launch == Waiting {
      a := Park;
    } else {
      match s.futures[i].pc
      case Unspawned => a := StartFetch;
      case Fetching => a := OpenShard(i, cfg.shards[i]);
      case Adding(_, _) => a := AddBytes(i);
      case Sending(_) => a := SendResult(i);
    }
  }

  /** With every launched shard released nothing is charged, so nobody is parked and there is a
      free token. */
  lemma IdleIsOpen<R, E>(cfg: Config<R, E>, s: State<R, E>)
    requires cfg.Valid() && Inv(cfg, s) && s.consume.RecvFuture? && s.order == []
    ensures s.launch != Parked && s.launch != Exited
    ensures s.launch == TakeToken ==> s.tokens < cfg.Window()
  {
    hide InvWalk, InvFutures;
    forall i | 0 <= i < |s.futures|
      ensures s.futures[i].charged == 0
    {
      assert InvCharge(cfg, s, i);
    }
    ChargesZero(s.futures);
  }

  /** No reachable state before the return is stuck. */
  lemma NotStuck<R, E>(cfg: Config<R, E>, s: State<R, E>) returns (a: Action<R, E>)
    requires cfg.Valid() && Inv(cfg, s) && !s.consume.Returned?
    ensures Enabled(cfg, s, a)
  {
    hide InvWalk, InvBytes, InvFutures, Charges;
    if s.launch == Waiting {
      a := Park;
    } else {
      match s.consume
      case RecvFuture =>
        if s.order != [] {
          a := ReceiveFuture;
        } else {
          IdleIsOpen(cfg, s);
          a := LauncherCanMove(cfg, s);
        }
      case RecvResult(id) =>
        ResultPending(cfg, s);
        if s.futures[id].slot.Some? {
          a := ReceiveResult;
        } else {
          a := FetcherCanMove(cfg, s, id);
        }
      case Delivering(recs, size, j) =>
        DeliveringBounds(cfg, s);
        a := if j < |recs| then HandRecord else ReleaseBytes;
      case FreeSlot => a := ReleaseToken;
      case Cancel => a := DoCancel;
      case Broadcast => a := DoBroadcast;
      case Join =>
        NobodyParkedAtJoin(cfg, s);
        if s.launch != Exited {
          a := LauncherCanMove(cfg, s);
        } else if i :| 0 <= i < |s.futures| && !s.futures[i].pc.Finished? {
          a := FetcherCanMove(cfg, s, i);
        } else {
          a := DoJoin;
        }
    }
  }

  lemma ResultPending<R, E>(cfg: Config<R, E>, s: State<R, E>)
    requires Inv(cfg, s) && s.consume.RecvResult?
    ensures s.consume.id < |s.futures|
    ensures s.futures[s.consume.id].slot.None? ==> !s.futures[s.consume.id].pc.Finished?
  {
    assert InvFuture(cfg, s, s.consume.id);
  }

  lemma DeliveringBounds<R, E>(cfg: Config<R, E>, s: State<R, E>)
    requires Inv(cfg, s) && s.consume.Delivering?
    ensures s.consume.j <= |s.consume.recs|
  {
  }

  lemma NobodyParkedAtJoin<R, E>(cfg: Config<R, E>, s: State<R, E>)
    requires Inv(cfg, s) && s.consume.Join?
    ensures s.launch != Parked && s.cancelled
  {
  }

  // ---- Termination ----

  function RecordsIn<R, E>(o: Opening<R, E>): nat { if o.Opened? then |o.recs| else 0 }

  /** Consumer steps that shards k and later can still take. */
  function ShardSteps<R, E>(shards: seq<Opening<R, E>>, k: nat): nat
    decreases |shards| - k
  {
    if k >= |shards| then 0 else RecordsIn(shards[k]) + 6 + ShardSteps(shards, k + 1)
  }

  function ConsumerSteps<R, E>(cfg: Config<R, E>, s: State<R, E>): int {
    match s.consume
    case RecvFuture => ShardSteps(cfg.shards, s.released) + 4
    case RecvResult(_) => ShardSteps(cfg.shards, s.released) + 3
    case Delivering(recs, _, j) => ShardSteps(cfg.shards, s.released + 1) + (|recs| - j) + 7
    case FreeSlot => ShardSteps(cfg.shards, s.released + 1) + 5
    case Cancel => 3
    case Broadcast => 2
    case Join => 1
    case Returned => 0
  }

  function LauncherSteps<R, E>(cfg: Config<R, E>, s: State<R, E>): int {
    16 * (|cfg.shards| - s.next) +
    match s.launch
    case Budget => 15
    case Waiting => 14
    case Parked => 13
    case CheckCtx => 12
    case TakeToken => 11
    case Enqueue => 10
    case Spawn => 1
    case Exited => 0
  }

  function FetchSteps<R, E>(f: Future<R, E>): nat {
    match f.pc
    case Unspawned => 4
    case Fetching => 3
    case Adding(_, _) => 2
    case Sending(_) => 1
    case Finished => 0
  }

  function FetcherSteps<R, E>(fs: seq<Future<R, E>>): nat {
    if fs == [] then 0 else FetcherSteps(fs[..|fs| - 1]) + FetchSteps(fs[|fs| - 1])
  }

  /** A bound on the steps left. A broadcast can cost the launcher two more steps, so each
      consumer step is counted four times. */
  function Measure<R, E>(cfg: Config<R, E>, s: State<R, E>): int {
    4 * ConsumerSteps(cfg, s) + LauncherSteps(cfg, s) + FetcherSteps(s.futures)
  }

  lemma {:induction false} FetcherStepsUpdate<R, E>(fs: seq<Future<R, E>>, i: nat, f: Future<R, E>)
    requires i < |fs|
    ensures FetcherSteps(fs[i := f]) == FetcherSteps(fs) - FetchSteps(fs[i]) + FetchSteps(f)
    decreases |fs|
  {
    var n := |fs| - 1;
    if i < n {
      FetcherStepsUpdate(fs[..n], i, f);
      assert fs[i := f][..n] == fs[..n][i := f];
    } else {
      assert fs[i := f][..n] == fs[..n];
    }
  }

  lemma FetcherStepsSnoc<R, E>(fs: seq<Future<R, E>>, f: Future<R, E>)
    ensures FetcherSteps(fs + [f]) == FetcherSteps(fs) + FetchSteps(f)
  {
    assert (fs + [f])[..|fs|] == fs;
  }

  lemma MeasureNatural<R, E>(cfg: Config<R, E>, s: State<R, E>)
    requires Inv(cfg, s)
    ensures Measure(cfg, s) >= 0
  {
  }

  predicate OfFetcher<R, E>(a: Action<R, E>) {
    a.OpenShard? || a.AddBytes? || a.SendResult?
  }

  lemma LaunchStepDecreases<R, E>(cfg: Config<R, E>, s: State<R, E>, a: Action<R, E>)
    requires Inv(cfg, s) && Enabled(cfg, s, a) && !OfConsumer(a) && !OfFetcher(a)
    ensures Measure(cfg, Apply(cfg, s, a)) < Measure(cfg, s)
  {
    hide InvWalk, InvBytes, FetcherSteps, ShardSteps, ConsumerSteps;
    assert ConsumerSteps(cfg, Apply(cfg, s, a)) == ConsumerSteps(cfg, s) by { ConsumerStepsFrame(cfg, s, a); }
    var fs := s.futures;
    match a
    case SendFuture => FetcherStepsSnoc(fs, Future(Unspawned, None, 0));
    case StartFetch =>
      assert InvFuture(cfg, s, s.next);
      FetcherStepsUpdate(fs, s.next, fs[s.next].(pc := Fetching));
    case _ =>
  }

  lemma ConsumerStepsFrame<R, E>(cfg: Config<R, E>, s: State<R, E>, a: Action<R, E>)
    requires Enabled(cfg, s, a) && !OfConsumer(a)
    ensures ConsumerSteps(cfg, Apply(cfg, s, a)) == ConsumerSteps(cfg, s)
  {
    hide ShardSteps;
  }

  lemma FetchStepDecreases<R, E>(cfg: Config<R, E>, s: State<R, E>, a: Action<R, E>)
    requires Inv(cfg, s) && Enabled(cfg, s, a) && OfFetcher(a)
    ensures Measure(cfg, Apply(cfg, s, a)) < Measure(cfg, s)
  {
    hide Inv, FetcherSteps, ShardSteps, ConsumerSteps;
    ConsumerStepsFrame(cfg, s, a);
    match a
    case OpenShard(i, res) => FetcherStepsUpdate(s.futures, i, Apply(cfg, s, a).futures[i]);
    case AddBytes(i) => FetcherStepsUpdate(s.futures, i, Apply(cfg, s, a).futures[i]);
    case SendResult(i) => FetcherStepsUpdate(s.futures, i, Apply(cfg, s, a).futures[i]);
  }

  lemma ReceiveDecreases<R, E>(cfg: Config<R, E>, s: State<R, E>)
    requires Inv(cfg, s) && Enabled(cfg, s, ReceiveResult)
    ensures Measure(cfg, Apply(cfg, s, ReceiveResult)) < Measure(cfg, s)
  {
    hide Inv, FetcherSteps;
    var id := s.consume.id;
    ResultIsShard(cfg, s);
    FetcherStepsUpdate(s.futures, id, s.futures[id].(slot := None));
  }

  lemma ReleaseDecreases<R, E>(cfg: Config<R, E>, s: State<R, E>)
    requires Inv(cfg, s) && Enabled(cfg, s, ReleaseBytes)
    ensures Measure(cfg, Apply(cfg, s, ReleaseBytes)) < Measure(cfg, s)
  {
    hide Inv, FetcherSteps, ShardSteps;
    FetcherStepsUpdate(s.futures, s.released, s.futures[s.released].(charged := 0));
  }

  lemma ConsumeStepDecreases<R, E>(cfg: Config<R, E>, s: State<R, E>, a: Action<R, E>)
    requires Inv(cfg, s) && Enabled(cfg, s, a) && OfConsumer(a)
    ensures Measure(cfg, Apply(cfg, s, a)) < Measure(cfg, s)
  {
    hide InvBytes, FetcherSteps, InvFutures, Walk, WalkFrom, ResumeAt, Charges, RecordsIn, FetchSteps;
    if a.ReceiveResult? {
      ReceiveDecreases(cfg, s);
    } else if a.ReleaseBytes? {
      ReleaseDecreases(cfg, s);
    } else {
      QuietStepDecreases(cfg, s, a);
    }
  }

  /** Consumer steps that leave the futures alone. */
  lemma QuietStepDecreases<R, E>(cfg: Config<R, E>, s: State<R, E>, a: Action<R, E>)
    requires InvCounts(cfg, s) && InvWalk(cfg, s) && Enabled(cfg, s, a) && OfConsumer(a) && !a.ReceiveResult? && !a.ReleaseBytes?
    ensures Measure(cfg, Apply(cfg, s, a)) < Measure(cfg, s)
  {
    hide FetcherSteps, Walk, WalkFrom, ResumeAt, RecordsIn, FetchSteps;
  }

  lemma ResultIsShard<R, E>(cfg: Config<R, E>, s: State<R, E>)
    requires Inv(cfg, s) && Enabled(cfg, s, ReceiveResult)
    ensures s.consume.id == s.released < |cfg.shards| && s.futures[s.consume.id].slot.value == cfg.shards[s.released]
  {
    assert InvFuture(cfg, s, s.consume.id);
  }

  lemma {:induction false} RunState<R, E>(cfg: Config<R, E>, actions: seq<Action<R, E>>, states: seq<State<R, E>>, k: nat)
    requires cfg.Valid() && IsRun(cfg, actions, states) && k <= |actions|
    ensures Inv(cfg, states[k])
    ensures Measure(cfg, states[k]) <= Measure(cfg, Init()) - k
  {
    hide Inv, Measure, Enabled, Apply;
    if k == 0 {
      InitInv(cfg);
    } else {
      RunState(cfg, actions, states, k - 1);
      var s, a := states[k - 1], actions[k - 1];
      assert Enabled(cfg, s, a) && states[k] == Apply(cfg, s, a);
      StepKeepsInv(cfg, s, a);
      if OfConsumer(a) {
        ConsumeStepDecreases(cfg, s, a);
      } else if OfFetcher(a) {
        FetchStepDecreases(cfg, s, a);
      } else {
        LaunchStepDecreases(cfg, s, a);
      }
    }
  }

  // ---- Main results ----

  /** Every run is finite, with a bound known from the start, and can be extended until the
      walk has returned: no interleaving deadlocks and none goes on for ever. */
  lemma RunsEndInReturn<R(!new), E(!new)>(cfg: Config<R, E>, actions: seq<Action<R, E>>, states: seq<State<R, E>>)
    requires cfg.Valid() && IsRun(cfg, actions, states)
    ensures |actions| <= Measure(cfg, Init())
    ensures states[|actions|].consume.Returned? || exists a :: Enabled(cfg, states[|actions|], a)
  {
    hide Inv, Measure, Enabled;
    RunState(cfg, actions, states, |actions|);
    MeasureNatural(cfg, states[|actions|]);
    if !states[|actions|].consume.Returned? {
      var a := NotStuck(cfg, states[|actions|]);
    }
  }

  /** At the return every goroutine has ended and the outcome is the sequential walk's: the
      same records handed over in the same order, and the same error or none. */
  lemma ConcurrentWalkRefinesSequential<R, E>(cfg: Config<R, E>, actions: seq<Action<R, E>>, states: seq<State<R, E>>)
    requires cfg.Valid() && IsRun(cfg, actions, states)
    requires states[|actions|].consume.Returned?
    ensures var s := states[|actions|];
            Outcome(s.handed, s.err) == Walk(cfg.shards, cfg.cb)
  {
    RunState(cfg, actions, states, |actions|);
  }

  /** At every moment of every run the records handed over so far are the first ones the
      sequential walk hands over. */
  lemma HandedIsPrefix<R, E>(cfg: Config<R, E>, actions: seq<Action<R, E>>, states: seq<State<R, E>>, k: nat)
    requires cfg.Valid() && IsRun(cfg, actions, states) && k <= |actions|
    ensures states[k].handed <= Walk(cfg.shards, cfg.cb).handed
  {
    hide InvCounts, InvFutures, InvBytes;
    RunState(cfg, actions, states, k);
    PositionIsPrefix(cfg, states[k]);
  }

  lemma PositionIsPrefix<R, E>(cfg: Config<R, E>, s: State<R, E>)
    requires InvWalk(cfg, s)
    ensures s.handed <= Walk(cfg.shards, cfg.cb).handed
  {
    match s.consume
    case RecvFuture => WalkExtends(cfg.shards, cfg.cb, s.released, s.handed);
    case RecvResult(_) => WalkExtends(cfg.shards, cfg.cb, s.released, s.handed);
    case Delivering(recs, _, j) => ResumeExtends(cfg.shards, cfg.cb, s.released, recs, j, s.handed);
    case FreeSlot => WalkExtends(cfg.shards, cfg.cb, s.released + 1, s.handed);
    case _ =>
  }

  /** Byte accounting while nothing has gone wrong: bufferedBytes is the total size of the
      shards whose bytes were added and not yet released. */
  function Outstanding<R, E>(cfg: Config<R, E>, s: State<R, E>, n: nat): nat
    requires n <= |s.futures| <= |cfg.shards|
  {
    if n == 0 then 0
    else
      var i := n - 1;
      var added := (s.futures[i].pc.Sending? || s.futures[i].pc.Finished?) && cfg.shards[i].Opened?;
      var held := i >= s.released && !(i == s.released && s.consume.FreeSlot?);
      Outstanding(cfg, s, i) + if added && held then cfg.shards[i].size else 0
  }

  lemma {:induction false} OutstandingIsCharged<R, E>(cfg: Config<R, E>, s: State<R, E>, n: nat)
    requires Inv(cfg, s) && !s.cancelled && !s.consume.Cancel? && n <= |s.futures|
    ensures Outstanding(cfg, s, n) == Charges(s.futures[..n])
  {
    if n > 0 {
      hide InvWalk;
      OutstandingIsCharged(cfg, s, n - 1);
      assert InvCharge(cfg, s, n - 1) && InvFuture(cfg, s, n - 1);
      assert s.futures[..n][..n - 1] == s.futures[..n - 1];
      if s.consume.Delivering? {
        DeliveringSize(cfg, s);
      }
    }
  }

  lemma DeliveringSize<R, E>(cfg: Config<R, E>, s: State<R, E>)
    requires Inv(cfg, s) && s.consume.Delivering?
    ensures s.released < |cfg.shards| && cfg.shards[s.released] == Opened(s.consume.recs, s.consume.size)
  {
  }

  lemma BufferedBytesExact<R, E>(cfg: Config<R, E>, s: State<R, E>)
    requires Inv(cfg, s) && !s.cancelled && !s.consume.Cancel?
    ensures s.bufferedBytes == Outstanding(cfg, s, |s.futures|)
  {
    hide InvFutures, InvWalk;
    OutstandingIsCharged(cfg, s, |s.futures|);
    assert s.futures[..|s.futures|] == s.futures;
  }

  /** At every moment of every run: no more shards are launched and unconsumed than the window
      allows, sending a future never finds its channel full, the byte count is exactly what is
      outstanding until the walk is torn down, and until it has returned some step can be taken. */
  lemma EveryMoment<R(!new), E(!new)>(cfg: Config<R, E>, actions: seq<Action<R, E>>, states: seq<State<R, E>>, k: nat)
    requires cfg.Valid() && IsRun(cfg, actions, states) && k <= |actions|
    ensures var s := states[k];
            && s.released <= |s.futures| <= |cfg.shards|
            && |s.futures| - s.released <= cfg.Window() && |s.futures| - s.released <= cfg.fetchConcurrency
            && (s.launch == Enqueue ==> |s.order| < cfg.Window())
            && (!s.cancelled && !s.consume.Cancel? ==> s.bufferedBytes == Outstanding(cfg, s, |s.futures|))
            && (!s.consume.Returned? ==> exists a :: Enabled(cfg, s, a))
  {
    hide InvFutures, InvBytes, InvWalk, Measure, Outstanding;
    var s := states[k];
    RunState(cfg, actions, states, k);
    WindowHolds(cfg, s);
    if !s.cancelled && !s.consume.Cancel? {
      BufferedBytesExact(cfg, s);
    }
    if !s.consume.Returned? {
      var a := NotStuck(cfg, s);
    }
  }

  // ---- The walk, whichever way it is run ----

  ghost predicate CompleteRun<R, E>(cfg: Config<R, E>, actions: seq<Action<R, E>>, states: seq<State<R, E>>, o: Outcome<R, E>) {
    && IsRun(cfg, actions, states)
    && states[|actions|].consume.Returned?
    && o == Outcome(states[|actions|].handed, states[|actions|].err)
  }

  /** What walkShards may return: the loop's result, or the result of some complete run of the
      machine when the options ask for concurrency. */
  ghost predicate WalkMayReturn<R(!new), E(!new)>(cfg: Config<R, E>, o: Outcome<R, E>) {
    if cfg.fetchConcurrency <= 1 || |cfg.shards| == 0 then o == Walk(cfg.shards, cfg.cb)
    else exists actions, states :: CompleteRun(cfg, actions, states, o)
  }

  lemma {:induction false} ExtendToReturn<R(!new), E(!new)>(cfg: Config<R, E>, actions: seq<Action<R, E>>, states: seq<State<R, E>>)
    requires cfg.Valid() && IsRun(cfg, actions, states)
    ensures exists o, more, all :: CompleteRun(cfg, more, all, o)
    decreases Measure(cfg, Init()) - |actions|
  {
    hide Inv, Measure, Enabled, Apply;
    var last := states[|actions|];
    if last.consume.Returned? {
      assert CompleteRun(cfg, actions, states, Outcome(last.handed, last.err));
    } else {
      RunState(cfg, actions, states, |actions|);
      var a := NotStuck(cfg, last);
      OneMore(cfg, actions, states, a);
      RunsEndInReturn(cfg, actions + [a], states + [Apply(cfg, last, a)]);
      ExtendToReturn(cfg, actions + [a], states + [Apply(cfg, last, a)]);
    }
  }

  lemma OneMore<R, E>(cfg: Config<R, E>, actions: seq<Action<R, E>>, states: seq<State<R, E>>, a: Action<R, E>)
    requires IsRun(cfg, actions, states) && Enabled(cfg, states[|actions|], a)
    ensures IsRun(cfg, actions + [a], states + [Apply(cfg, states[|actions|], a)])
  {
    hide Enabled, Apply;
  }

  /** The concurrency option changes nothing: the walk returns the sequential outcome and
      nothing else, and it does return. */
  lemma WalkReturnsExactly<R(!new), E(!new)>(cfg: Config<R, E>, o: Outcome<R, E>)
    ensures WalkMayReturn(cfg, o) <==> o == Walk(cfg.shards, cfg.cb)
  {
    if cfg.fetchConcurrency > 1 && |cfg.shards| > 0 {
      assert IsRun(cfg, [], [Init()]);
      ExtendToReturn(cfg, [], [Init()]);
      var p, actions, states :| CompleteRun(cfg, actions, states, p);
      ConcurrentWalkRefinesSequential(cfg, actions, states);
      forall q, more, all | CompleteRun(cfg, more, all, q)
        ensures q == Walk(cfg.shards, cfg.cb)
      {
        ConcurrentWalkRefinesSequential(cfg, more, all);
      }
    }
  }
}
