/** Opening a run in verified mode, twice. */
module OpenRun {
  // Loading every record, and streaming the shards past a Merkle frontier. An archive is taken
  // as what each gate finds in it.
  import opened Common
  import opened ShardWalk
  import opened Merkle
  import Freshness
  import Runlog

  const EXIT_UNVERIFIED := 2
  const EXIT_INCOMPLETE := 3
  const EXIT_STALE := 5
  const EXIT_USAGE := 6
  const EXIT_UNREACHABLE := 11
  /** The record counts are 64-bit signed fields. */
  const INT64_MAX := 0x7FFF_FFFF_FFFF_FFFF

  /** An error that already carries its exit code, or one its caller is to code. */
  datatype ShardError = Coded(code: int) | Uncoded

  function CodedIfNot(code: int, e: ShardError): int { if e.Coded? then e.code else code }

  /** One record line: what its canonical hash comes to and what its recordHash field decodes to. */
  datatype Record = Record(sourceType: string, codec: string, hash: Option<Bytes>, stated: Option<Bytes>)

  datatype SignatureFile = Unreadable(unreachable: bool) | Undecodable | TooShort | WellFormed(verifies: bool)

  datatype Archive = Archive(
    runIdDecodes: bool,
    rootRefusal: Option<int>,
    signature: SignatureFile,
    parseRefusal: Option<int>,
    versionRefusal: Option<int>,
    envelopeRefusal: Option<int>,
    runIdMatches: bool,
    unwraps: bool,
    commitmentHolds: bool,
    recipientsHold: bool,
    openedByBreakGlass: bool,
    envelopeCodec: string,
    shards: seq<Opening<Record, ShardError>>,
    shardCount: int,
    declaredRecordCount: int,
    merkleRoot: Option<Bytes>,
    freshness: int -> (Freshness.FreshnessResult, Option<int>),
    bundleRefusal: Option<int>)

  datatype Options = Options(
    minRunlogIndex: int,
    allowStale: bool,
    allowUnverifiedRunlog: bool,
    allowUnverified: bool,
    checkRecoveryBundle: bool,
    fetchConcurrency: nat,
    maxMemoryBytes: nat)
  {
    predicate Acknowledges(checked: Freshness.FreshnessResult) {
      if allowUnverified || allowUnverifiedRunlog then true
      else if checked.runlogUntrusted then false
      else allowStale
    }
  }

  datatype SignatureResult = Valid | Invalid | Absent | WrongSigner

  datatype Verified = Verified(
    signatureResult: SignatureResult,
    complete: bool,
    breakGlassVerified: bool,
    recoveryBundleVerified: bool,
    allowUnverifiedMode: bool,
    code: int)

  datatype Opened = OpenedRun(outcome: Verified, freshness: Freshness.FreshnessResult, recordCount: int) | Refused(code: int)

  // ---- Per-record gates ----

  predicate IsKnownSourceType(t: string) {
    t in {"kv", "r2", "secrets", "d1", "workers", "cf-config", "stream", "images", "artifacts"}
  }

  predicate KnownCodec(c: string) { c == "none" || c == "gzip" }

  /** What the run-wide rules allow of a record. */
  predicate WellFormedRecord(envelopeCodec: string, rec: Record) {
    && IsKnownSourceType(rec.sourceType) && rec.codec == envelopeCodec && KnownCodec(rec.codec)
    && (rec.sourceType == "secrets" ==> rec.codec == "none")
  }

  predicate HashHolds(rec: Record) { rec.hash.Some? && rec.stated == rec.hash }

  function CheckRecordStructural(envelopeCodec: string, rec: Record): (e: Option<ShardError>)
    ensures e.None? <==> WellFormedRecord(envelopeCodec, rec)
    ensures e.Some? ==> e == Some(Coded(EXIT_USAGE))
  {
    if !IsKnownSourceType(rec.sourceType) then Some(Coded(EXIT_USAGE))
    else if rec.codec != envelopeCodec then Some(Coded(EXIT_USAGE))
    else if !KnownCodec(rec.codec) then Some(Coded(EXIT_USAGE))
    else if rec.sourceType == "secrets" && rec.codec != "none" then Some(Coded(EXIT_USAGE))
    else None
  }

  function CheckRecordHash(rec: Record): (e: Option<ShardError>)
    ensures e.None? <==> HashHolds(rec)
    ensures e.Some? ==> e == Some(Coded(EXIT_UNVERIFIED))
  {
    if rec.hash.None? then Some(Coded(EXIT_UNVERIFIED))
    else if rec.stated.None? then Some(Coded(EXIT_UNVERIFIED))
    else if rec.hash != rec.stated then Some(Coded(EXIT_UNVERIFIED))
    else None
  }

  // ---- What an acceptable archive is ----

  /** Every record of every shard, in shard-list order. */
  function Records(shards: seq<Opening<Record, ShardError>>): seq<Record> {
    if shards == [] then []
    else (if shards[0].Opened? then shards[0].recs else []) + Records(shards[1..])
  }

  predicate AllOpen(shards: seq<Opening<Record, ShardError>>) {
    forall i :: 0 <= i < |shards| ==> shards[i].Opened?
  }

  predicate AllGood(envelopeCodec: string, recs: seq<Record>) {
    forall i :: 0 <= i < |recs| ==> WellFormedRecord(envelopeCodec, recs[i]) && HashHolds(recs[i])
  }

  predicate AllHashed(recs: seq<Record>) { forall i :: 0 <= i < |recs| ==> recs[i].hash.Some? }

  function Hashes(recs: seq<Record>): (hs: seq<Bytes>)
    requires AllHashed(recs)
    ensures |hs| == |recs|
  {
    seq(|recs|, i requires 0 <= i < |recs| => recs[i].hash.value)
  }

  /** Every shard opens, every record is well formed and hashes to what it states, the counts are
      the declared ones, and the signed root is the tree hash of the record hashes. */
  predicate Complete(h: Hash, a: Archive) {
    var recs := Records(a.shards);
    && AllOpen(a.shards) && AllGood(a.envelopeCodec, recs)
    && a.shardCount == |a.shards| && |recs| == a.declaredRecordCount
    && a.merkleRoot == Some(TreeHash(h, Hashes(recs)))
  }

  /** What is recorded of a signature file. */
  predicate Labelled(s: SignatureFile, r: SignatureResult) {
    && (r == Valid <==> s == WellFormed(true)) && (r == WrongSigner <==> s == WellFormed(false))
    && (r == Absent <==> s.Unreadable?) && (r == Invalid <==> s.Undecodable? || s.TooShort?)
  }

  predicate SignatureGood(a: Archive) { a.signature == WellFormed(true) }

  function FreshnessOf(a: Archive, opts: Options): (Freshness.FreshnessResult, Option<int>) { a.freshness(opts.minRunlogIndex) }

  predicate BundleGood(a: Archive, opts: Options) { !opts.checkRecoveryBundle || a.bundleRefusal.None? }

  /** The gates in front of the records, apart from the signature. */
  predicate Readable(a: Archive) {
    && a.runIdDecodes && a.rootRefusal.None? && a.parseRefusal.None? && a.versionRefusal.None? && a.envelopeRefusal.None?
    && a.runIdMatches && a.unwraps && a.commitmentHolds && a.recipientsHold
  }

  /** What verified mode accepts: integrity always, and the signature, the freshness and the
      bundle unless the operator has acknowledged their failure. */
  predicate Accepts(h: Hash, a: Archive, opts: Options) {
    && Readable(a) && Complete(h, a)
    && (SignatureGood(a) || opts.allowUnverified)
    && (FreshnessOf(a, opts).1.None? || opts.Acknowledges(FreshnessOf(a, opts).0))
    && (BundleGood(a, opts) || opts.allowUnverified)
  }

  /** What the receipt will say of an accepted run: a waived failure is always on record. */
  predicate Honest(a: Archive, opts: Options, o: Verified) {
    && Labelled(a.signature, o.signatureResult)
    && (o.complete <==> SignatureGood(a) && FreshnessOf(a, opts).1.None? && BundleGood(a, opts))
    && o.breakGlassVerified == a.openedByBreakGlass
    && (o.recoveryBundleVerified <==> opts.checkRecoveryBundle && a.bundleRefusal.None?)
    && o.allowUnverifiedMode == opts.allowUnverified
    && o.code == if SignatureGood(a) && BundleGood(a, opts) then 0 else EXIT_UNVERIFIED
  }

  // ---- Which code a refusal carries ----

  function SignatureRefusal(a: Archive, opts: Options): (c: Option<int>)
    ensures c.None? <==> SignatureGood(a) || opts.allowUnverified
  {
    if SignatureGood(a) || opts.allowUnverified then None
    else Some(if a.signature == Unreadable(true) then EXIT_UNREACHABLE else EXIT_UNVERIFIED)
  }

  function FrontRefusal(a: Archive, opts: Options): (c: Option<int>)
    ensures c.None? <==> Readable(a) && (SignatureGood(a) || opts.allowUnverified)
  {
    if !a.runIdDecodes then Some(EXIT_USAGE)
    else if a.rootRefusal.Some? then a.rootRefusal
    else if SignatureRefusal(a, opts).Some? then SignatureRefusal(a, opts)
    else if a.parseRefusal.Some? then a.parseRefusal
    else if a.versionRefusal.Some? then a.versionRefusal
    else if a.envelopeRefusal.Some? then a.envelopeRefusal
    else if Readable(a) then None else Some(EXIT_UNVERIFIED)
  }

  function ClosingRefusal(a: Archive, opts: Options): Option<int> {
    var (result, refusal) := FreshnessOf(a, opts);
    if refusal.Some? && !opts.Acknowledges(result) then refusal
    else if !BundleGood(a, opts) && !opts.allowUnverified then a.bundleRefusal
    else None
  }

  function FirstFailed(shards: seq<Opening<Record, ShardError>>): Option<ShardError> {
    if shards == [] then None
    else if shards[0].Failed? then Some(shards[0].error) else FirstFailed(shards[1..])
  }

  predicate AllWellFormed(envelopeCodec: string, recs: seq<Record>) {
    forall i :: 0 <= i < |recs| ==> WellFormedRecord(envelopeCodec, recs[i])
  }

  predicate AllHashesHold(recs: seq<Record>) { forall i :: 0 <= i < |recs| ==> HashHolds(recs[i]) }

  /** The count and the root, once every record has passed. */
  function TotalsRefusal(h: Hash, a: Archive, recs: seq<Record>): Option<int>
    requires AllHashesHold(recs)
  {
    if |recs| != a.declaredRecordCount then Some(EXIT_INCOMPLETE)
    else if a.merkleRoot != Some(TreeHash(h, Hashes(recs))) then Some(EXIT_UNVERIFIED)
    else None
  }

  /** Loading everything finds shard faults first, then malformed records, then the counts, then
      the hashes. */
  function LoadRefusal(h: Hash, a: Archive): Option<int> {
    var recs := Records(a.shards);
    if FirstFailed(a.shards).Some? then Some(CodedIfNot(EXIT_UNVERIFIED, FirstFailed(a.shards).value))
    else if !AllWellFormed(a.envelopeCodec, recs) then Some(EXIT_USAGE)
    else if a.shardCount != |a.shards| then Some(EXIT_UNVERIFIED)
    else if |recs| != a.declaredRecordCount then Some(EXIT_INCOMPLETE)
    else if !AllHashesHold(recs) then Some(EXIT_UNVERIFIED)
    else TotalsRefusal(h, a, recs)
  }

  function CheckRecord(envelopeCodec: string, rec: Record): (e: Option<ShardError>)
    ensures e.None? <==> WellFormedRecord(envelopeCodec, rec) && HashHolds(rec)
    ensures e.Some? ==> e.value.Coded?
  {
    var structural := CheckRecordStructural(envelopeCodec, rec);
    if structural.Some? then structural else CheckRecordHash(rec)
  }

  function PerRecord(envelopeCodec: string): Callback<Record, ShardError> {
    (handed: seq<Record>, rec: Record) => CheckRecord(envelopeCodec, rec)
  }

  /** Streaming finds the shard count first, then whatever the walk meets first. */
  function StreamRefusal(h: Hash, a: Archive): Option<int> {
    if a.shardCount != |a.shards| then Some(EXIT_UNVERIFIED)
    else
      var walked := Walk(a.shards, PerRecord(a.envelopeCodec));
      if walked.err.Some? then Some(CodedIfNot(EXIT_UNVERIFIED, walked.err.value))
      else if !AllHashesHold(walked.handed) then None
      else TotalsRefusal(h, a, walked.handed)
  }

  /** The first of the three stages that refuses. */
  function FirstRefusal(front: Option<int>, records: Option<int>, closing: Option<int>): Option<int> {
    if front.Some? then front else if records.Some? then records else closing
  }

  // ---- The gates both readers call ----

  method VerifyRootSignatureGate(a: Archive, opts: Options, outcome: Verified) returns (refusal: Option<int>, out: Verified)
    requires outcome.signatureResult == Valid
    ensures refusal == SignatureRefusal(a, opts)
    ensures SignatureGood(a) ==> out == outcome
    ensures !SignatureGood(a) ==> out == outcome.(signatureResult := out.signatureResult, complete := false, code := EXIT_UNVERIFIED)
    ensures out.signatureResult == Valid <==> a.signature == WellFormed(true)
    ensures out.signatureResult == WrongSigner <==> a.signature == WellFormed(false)
    ensures out.signatureResult == Absent <==> a.signature.Unreadable?
    ensures out.signatureResult == Invalid <==> a.signature.Undecodable? || a.signature.TooShort?
    ensures refusal.None? <==> a.signature == WellFormed(true) || opts.allowUnverified
  {
    out := outcome;
    match a.signature {
      case Unreadable(unreachable) =>
        out := out.(signatureResult := Absent, complete := false, code := EXIT_UNVERIFIED);
        if !opts.allowUnverified {
          return Some(if unreachable then EXIT_UNREACHABLE else EXIT_UNVERIFIED), out;
        }
        return None, out;
      case Undecodable => out := out.(signatureResult := Invalid);
      case TooShort => out := out.(signatureResult := Invalid);
      case WellFormed(verifies) =>
        if !verifies {
          out := out.(signatureResult := WrongSigner);
        }
    }
    if out.signatureResult != Valid {
      out := out.(complete := false, code := EXIT_UNVERIFIED);
      if !opts.allowUnverified {
        return Some(EXIT_UNVERIFIED), out;
      }
    }
    refusal := None;
  }

  method VerifyRecoveryBundleGate(a: Archive, opts: Options, outcome: Verified) returns (refusal: Option<int>, out: Verified)
    ensures refusal.None? <==> BundleGood(a, opts) || opts.allowUnverified
    ensures refusal.Some? ==> refusal == a.bundleRefusal
    ensures !opts.checkRecoveryBundle ==> out == outcome
    ensures opts.checkRecoveryBundle && a.bundleRefusal.None? ==> out == outcome.(recoveryBundleVerified := true)
    ensures opts.checkRecoveryBundle && a.bundleRefusal.Some? ==>
              out == outcome.(recoveryBundleVerified := false, complete := false,
                              code := if outcome.code == 0 then EXIT_UNVERIFIED else outcome.code)
  {
    out := outcome;
    if !opts.checkRecoveryBundle {
      return None, out;
    }
    if a.bundleRefusal.Some? {
      out := out.(recoveryBundleVerified := false, complete := false);
      if out.code == 0 {
        out := out.(code := EXIT_UNVERIFIED);
      }
      return if opts.allowUnverified then None else a.bundleRefusal, out;
    }
    out := out.(recoveryBundleVerified := true);
    refusal := None;
  }

  /** The gates in front of the records, in the order both readers take them. */
  method UpFrontGates(a: Archive, opts: Options) returns (refusal: Option<int>, outcome: Verified)
    ensures refusal == FrontRefusal(a, opts)
    ensures refusal.None? ==>
              && Labelled(a.signature, outcome.signatureResult)
              && (outcome.complete <==> SignatureGood(a)) && outcome.breakGlassVerified == a.openedByBreakGlass
              && !outcome.recoveryBundleVerified && outcome.allowUnverifiedMode == opts.allowUnverified
              && outcome.code == if SignatureGood(a) then 0 else EXIT_UNVERIFIED
  {
    outcome := Verified(Valid, true, false, false, opts.allowUnverified, 0);
    if !a.runIdDecodes {
      return Some(EXIT_USAGE), outcome;
    }
    if a.rootRefusal.Some? {
      return a.rootRefusal, outcome;
    }
    refusal, outcome := VerifyRootSignatureGate(a, opts, outcome);
    if refusal.Some? {
      return;
    }
    if a.parseRefusal.Some? {
      return a.parseRefusal, outcome;
    }
    if a.versionRefusal.Some? {
      return a.versionRefusal, outcome;
    }
    if a.envelopeRefusal.Some? {
      return a.envelopeRefusal, outcome;
    }
    if !a.runIdMatches || !a.unwraps || !a.commitmentHolds || !a.recipientsHold {
      return Some(EXIT_UNVERIFIED), outcome;
    }
    outcome := outcome.(breakGlassVerified := a.openedByBreakGlass);
  }

  /** Freshness and the recovery bundle, behind the records. */
  method ClosingGates(a: Archive, opts: Options, before: Verified) returns (refusal: Option<int>, checked: Freshness.FreshnessResult, outcome: Verified)
    requires before.code == 0 || before.code == EXIT_UNVERIFIED
    requires !before.recoveryBundleVerified
    ensures checked == FreshnessOf(a, opts).0
    ensures refusal == ClosingRefusal(a, opts)
    ensures refusal.None? <==> (FreshnessOf(a, opts).1.None? || opts.Acknowledges(checked)) && (BundleGood(a, opts) || opts.allowUnverified)
    ensures refusal.None? ==>
              outcome == before.(complete := before.complete && FreshnessOf(a, opts).1.None? && BundleGood(a, opts),
                                 recoveryBundleVerified := opts.checkRecoveryBundle && a.bundleRefusal.None?,
                                 code := if BundleGood(a, opts) then before.code else EXIT_UNVERIFIED)
  {
    outcome := before;
    var check := a.freshness(opts.minRunlogIndex);
    checked := check.0;
    if check.1.Some? {
      outcome := outcome.(complete := false);
      if !opts.Acknowledges(checked) {
        return check.1, checked, outcome;
      }
    }
    refusal, outcome := VerifyRecoveryBundleGate(a, opts, outcome);
  }

  // ---- Loading everything ----

  lemma {:induction false} RecordsSnoc(shards: seq<Opening<Record, ShardError>>, i: nat)
    requires i < |shards| && shards[i].Opened?
    ensures Records(shards[..i + 1]) == Records(shards[..i]) + shards[i].recs
  {
    if i == 0 {
      assert shards[..1] == [shards[0]] && shards[..0] == [];
      assert Records([shards[0]]) == shards[0].recs + Records([]);
    } else {
      RecordsSnoc(shards[1..], i - 1);
      assert shards[..i + 1][1..] == shards[1..][..i] && shards[..i][1..] == shards[1..][..i - 1];
    }
  }

  datatype Loaded = Loaded(records: seq<Record>) | LoadFailed(error: ShardError)

  lemma {:induction false} FirstFailure(shards: seq<Opening<Record, ShardError>>, i: nat)
    requires i < |shards| && shards[i].Failed? && forall j :: 0 <= j < i ==> shards[j].Opened?
    ensures FirstFailed(shards) == Some(shards[i].error) && !AllOpen(shards)
  {
    if i > 0 {
      FirstFailure(shards[1..], i - 1);
    }
  }

  lemma {:induction false} NoFailure(shards: seq<Opening<Record, ShardError>>)
    ensures FirstFailed(shards).None? <==> AllOpen(shards)
  {
    if shards != [] {
      NoFailure(shards[1..]);
      assert AllOpen(shards) <==> shards[0].Opened? && AllOpen(shards[1..]);
    }
  }

  method OpenShards(a: Archive) returns (r: Loaded)
    ensures r.Loaded? ==> AllOpen(a.shards) && r.records == Records(a.shards) && AllWellFormed(a.envelopeCodec, r.records)
    ensures r.LoadFailed? ==> ShardsRefusal(a) == Some(CodedIfNot(EXIT_UNVERIFIED, r.error))
  {
    hide WellFormedRecord;
    var records: seq<Record> := [];
    for i := 0 to |a.shards|
      invariant forall j :: 0 <= j < i ==> a.shards[j].Opened?
      invariant records == Records(a.shards[..i])
    {
      if a.shards[i].Failed? {
        FirstFailure(a.shards, i);
        return LoadFailed(a.shards[i].error);
      }
      RecordsSnoc(a.shards, i);
      records := records + a.shards[i].recs;
    }
    assert a.shards[..|a.shards|] == a.shards;
    NoFailure(a.shards);
    for i := 0 to |records|
      invariant forall j :: 0 <= j < i ==> WellFormedRecord(a.envelopeCodec, records[j])
    {
      var e := CheckRecordStructural(a.envelopeCodec, records[i]);
      if e.Some? {
        return LoadFailed(e.value);
      }
    }
    r := Loaded(records);
  }

  /** The part of LoadRefusal that opening the shards decides. */
  function ShardsRefusal(a: Archive): Option<int> {
    if FirstFailed(a.shards).Some? then Some(CodedIfNot(EXIT_UNVERIFIED, FirstFailed(a.shards).value))
    else if !AllWellFormed(a.envelopeCodec, Records(a.shards)) then Some(EXIT_USAGE)
    else None
  }

  method CheckCompleteness(h: Hash, a: Archive, records: seq<Record>) returns (refusal: Option<int>)
    ensures refusal == if a.shardCount != |a.shards| then Some(EXIT_UNVERIFIED)
                       else if |records| != a.declaredRecordCount then Some(EXIT_INCOMPLETE)
                       else if !AllHashesHold(records) then Some(EXIT_UNVERIFIED)
                       else TotalsRefusal(h, a, records)
  {
    hide TreeHash, HashHolds;
    if a.shardCount != |a.shards| {
      return Some(EXIT_UNVERIFIED);
    }
    if |records| != a.declaredRecordCount {
      return Some(EXIT_INCOMPLETE);
    }
    var leaves: seq<Bytes> := [];
    for i := 0 to |records|
      invariant forall j :: 0 <= j < i ==> HashHolds(records[j])
      invariant AllHashed(records[..i]) && leaves == Hashes(records[..i])
    {
      var e := CheckRecordHash(records[i]);
      if e.Some? {
        return Some(EXIT_UNVERIFIED);
      }
      HashPresent(records[i]);
      leaves := leaves + [records[i].hash.value];
    }
    assert records[..|records|] == records;
    if a.merkleRoot.None? {
      return Some(EXIT_UNVERIFIED);
    }
    var root := MerkleRoot(h, leaves);
    if root != a.merkleRoot.value {
      return Some(EXIT_UNVERIFIED);
    }
    refusal := None;
  }

  lemma HashPresent(rec: Record)
    requires HashHolds(rec)
    ensures rec.hash.Some?
  {
  }

  lemma LoadRefusesIncomplete(h: Hash, a: Archive)
    ensures LoadRefusal(h, a).None? <==> Complete(h, a)
  {
    hide TreeHash, WellFormedRecord, HashHolds, Records;
    NoFailure(a.shards);
  }

  /** Accepts exactly the archives that verified mode accepts, with an honest outcome. */
  method Open(h: Hash, a: Archive, opts: Options) returns (r: Opened)
    ensures r.OpenedRun? <==> Accepts(h, a, opts)
    ensures r.OpenedRun? ==> Honest(a, opts, r.outcome) && r.freshness == FreshnessOf(a, opts).0 && r.recordCount == |Records(a.shards)|
    ensures r.OpenedRun? ==>
              && (r.outcome.signatureResult == Valid <==> a.signature == WellFormed(true))
              && (r.outcome.signatureResult == WrongSigner <==> a.signature == WellFormed(false))
              && (r.outcome.signatureResult == Absent <==> a.signature.Unreadable?)
              && (r.outcome.signatureResult == Invalid <==> a.signature.Undecodable? || a.signature.TooShort?)
    ensures r.Refused? ==> Some(r.code) == FirstRefusal(FrontRefusal(a, opts), LoadRefusal(h, a), ClosingRefusal(a, opts))
  {
    hide TreeHash, Records, WellFormedRecord, HashHolds, Readable, FirstFailed, Complete;
    var refusal, outcome := UpFrontGates(a, opts);
    if refusal.Some? {
      return Refused(refusal.value);
    }
    LoadRefusesIncomplete(h, a);
    NoFailure(a.shards);
    var loaded := OpenShards(a);
    if loaded.LoadFailed? {
      return Refused(CodedIfNot(EXIT_UNVERIFIED, loaded.error));
    }
    refusal := CheckCompleteness(h, a, loaded.records);
    if refusal.Some? {
      return Refused(refusal.value);
    }
    var checked;
    refusal, checked, outcome := ClosingGates(a, opts, outcome);
    if refusal.Some? {
      return Refused(refusal.value);
    }
    r := OpenedRun(outcome, checked, |loaded.records|);
  }

  // ---- Streaming ----

  lemma {:induction false} DeliverGood(codec: string, recs: seq<Record>, j: nat, handed: seq<Record>)
    requires j <= |recs|
    ensures var o := Deliver(PerRecord(codec), recs, j, handed);
            && (o.err.None? <==> AllGood(codec, recs[j..]))
            && (o.err.None? ==> o.handed == handed + recs[j..])
    decreases |recs| - j
  {
    hide WellFormedRecord, HashHolds;
    if j < |recs| {
      DeliverGood(codec, recs, j + 1, handed + [recs[j]]);
      assert recs[j..] == [recs[j]] + recs[j + 1..];
      GoodCons(codec, recs[j], recs[j + 1..]);
    }
  }

  lemma GoodCons(codec: string, rec: Record, rest: seq<Record>)
    ensures AllGood(codec, [rec] + rest) <==> CheckRecord(codec, rec).None? && AllGood(codec, rest)
  {
    hide WellFormedRecord, HashHolds;
    if AllGood(codec, [rec] + rest) {
      assert ([rec] + rest)[0] == rec;
      forall i | 0 <= i < |rest|
        ensures WellFormedRecord(codec, rest[i]) && HashHolds(rest[i])
      {
        assert ([rec] + rest)[i + 1] == rest[i];
      }
    }
  }

  lemma GoodAppend(codec: string, a: seq<Record>, b: seq<Record>)
    ensures AllGood(codec, a + b) <==> AllGood(codec, a) && AllGood(codec, b)
  {
    hide WellFormedRecord, HashHolds;
    if AllGood(codec, a + b) {
      forall i | 0 <= i < |a|
        ensures WellFormedRecord(codec, a[i]) && HashHolds(a[i])
      {
        assert (a + b)[i] == a[i];
      }
      forall i | 0 <= i < |b|
        ensures WellFormedRecord(codec, b[i]) && HashHolds(b[i])
      {
        assert (a + b)[|a| + i] == b[i];
      }
    }
  }

  /** The walk ends without an error exactly when every shard opens and every record passes, and
      then it has handed over all of them. */
  lemma {:induction false} WalkGood(codec: string, shards: seq<Opening<Record, ShardError>>, k: nat, handed: seq<Record>)
    requires k <= |shards|
    ensures var o, recs := WalkFrom(shards, PerRecord(codec), k, handed), Records(shards[k..]);
            && (o.err.None? <==> AllOpen(shards[k..]) && AllGood(codec, recs))
            && (o.err.None? ==> o.handed == handed + recs)
    decreases |shards| - k
  {
    hide WellFormedRecord, HashHolds, Deliver, AllGood;
    if k == |shards| {
      NoRecords(codec, shards);
      assert handed + [] == handed;
    } else {
      assert shards[k..][0] == shards[k] && shards[k..][1..] == shards[k + 1..];
      OpenCons(shards, k);
      if shards[k].Opened? {
        var recs := shards[k].recs;
        DeliverGood(codec, recs, 0, handed);
        assert recs[0..] == recs;
        var o := Deliver(PerRecord(codec), recs, 0, handed);
        WalkGood(codec, shards, k + 1, o.handed);
        GoodAppend(codec, recs, Records(shards[k + 1..]));
        assert handed + recs + Records(shards[k + 1..]) == handed + (recs + Records(shards[k + 1..]));
      }
    }
  }

  lemma NoRecords(codec: string, shards: seq<Opening<Record, ShardError>>)
    ensures Records(shards[|shards|..]) == [] && AllOpen(shards[|shards|..]) && AllGood(codec, [])
  {
  }

  lemma OpenCons(shards: seq<Opening<Record, ShardError>>, k: nat)
    requires k < |shards|
    ensures AllOpen(shards[k..]) <==> shards[k].Opened? && AllOpen(shards[k + 1..])
  {
    var s := shards[k..];
    assert s[0] == shards[k] && s[1..] == shards[k + 1..];
    if shards[k].Opened? && AllOpen(shards[k + 1..]) {
      forall i | 0 <= i < |s|
        ensures s[i].Opened?
      {
        assert i > 0 ==> s[i] == shards[k + 1..][i - 1];
      }
    }
  }

  function WalkConfig(a: Archive, opts: Options): Config<Record, ShardError> {
    Config(a.shards, PerRecord(a.envelopeCodec), opts.fetchConcurrency, opts.maxMemoryBytes)
  }

  /** What the callback does with the records it is handed, one at a time and in order: each one
      that passes is folded into the accumulator and counted. */
  method FoldRecords(h: Hash, codec: string, handed: seq<Record>) returns (acc: MerkleAccumulator, count: nat)
    ensures fresh(acc) && acc.Valid() && acc.h == h
    ensures AllGood(codec, handed) ==> count == |handed| && AllHashed(handed) && acc.leaves == Hashes(handed)
  {
    hide HashHolds, WellFormedRecord, AllGood, AllHashed, Hashes, Covers, StrictlyDecreasing, LeafHashes, CheckRecord;
    acc := new MerkleAccumulator(h);
    count := 0;
    if AllGood(codec, handed) {
      GoodIsHashed(codec, handed);
      NoHashes(handed);
    }
    for i := 0 to |handed|
      invariant acc.Valid() && acc.h == h && fresh(acc)
      invariant AllGood(codec, handed) ==> count == i && AllHashed(handed[..i]) && acc.leaves == Hashes(handed[..i])
    {
      var rec := handed[i];
      if AllGood(codec, handed) {
        GoodAt(codec, handed, i);
        HashesSnoc(handed, i);
      }
      if CheckRecord(codec, rec).None? {
        HashPresent(rec);
        acc.Push(rec.hash.value);
        count := count + 1;
      }
    }
    assert handed[..|handed|] == handed;
  }

  lemma NoHashes(recs: seq<Record>)
    ensures AllHashed(recs[..0]) && Hashes(recs[..0]) == []
  {
  }

  lemma HashesSnoc(recs: seq<Record>, i: nat)
    requires AllHashed(recs) && i < |recs|
    ensures recs[i].hash.Some? && AllHashed(recs[..i]) && AllHashed(recs[..i + 1])
    ensures Hashes(recs[..i + 1]) == Hashes(recs[..i]) + [recs[i].hash.value]
  {
  }

  lemma GoodIsHashed(codec: string, recs: seq<Record>)
    requires AllGood(codec, recs)
    ensures AllHashed(recs) && AllHashesHold(recs)
  {
    hide WellFormedRecord;
  }

  /** The streaming verify pass over whatever the walk returned. */
  method VerifyRecordsAndRoot(h: Hash, a: Archive, ghost opts: Options, walked: Outcome<Record, ShardError>)
    returns (refusal: Option<int>, count: nat)
    requires WalkMayReturn(WalkConfig(a, opts), walked) && a.declaredRecordCount <= INT64_MAX
    ensures refusal == StreamRefusal(h, a)
    ensures refusal.None? ==> count == |Records(a.shards)|
  {
    hide TreeHash, HashHolds, WellFormedRecord, AllGood, Walk, Records, WalkMayReturn, AllHashed, AllHashesHold, AllOpen;
    count := 0;
    if a.shardCount != |a.shards| {
      return Some(EXIT_UNVERIFIED), 0;
    }
    WalkReturnsExactly(WalkConfig(a, opts), walked);
    WalkedAll(a);
    var acc;
    acc, count := FoldRecords(h, a.envelopeCodec, walked.handed);
    if walked.err.Some? {
      return Some(CodedIfNot(EXIT_UNVERIFIED, walked.err.value)), count;
    }
    GoodIsHashed(a.envelopeCodec, walked.handed);
    if count != a.declaredRecordCount {
      return Some(EXIT_INCOMPLETE), count;
    }
    if a.merkleRoot.None? {
      return Some(EXIT_UNVERIFIED), count;
    }
    var root := acc.Root();
    RootOfFew(h, acc.leaves);
    if root != a.merkleRoot.value {
      return Some(EXIT_UNVERIFIED), count;
    }
    refusal := None;
  }

  /** A declared count fits the counter, so the accumulator's root is the tree hash. */
  lemma RootOfFew(h: Hash, leaves: seq<Bytes>)
    requires |leaves| <= INT64_MAX
    ensures TreeHash(h, leaves) == if |leaves| % COUNTER_RANGE == 0 then EmptyRoot(h) else TreeHash(h, leaves)
  {
    if |leaves| % COUNTER_RANGE == 0 {
      assert leaves == [];
      EmptyTree(h);
    }
  }

  lemma EmptyTree(h: Hash)
    ensures TreeHash(h, []) == EmptyRoot(h)
  {
  }

  lemma GoodAt(codec: string, recs: seq<Record>, i: nat)
    requires AllGood(codec, recs) && i < |recs|
    ensures CheckRecord(codec, recs[i]).None?
  {
  }

  lemma WalkedAll(a: Archive)
    ensures var o, recs := Walk(a.shards, PerRecord(a.envelopeCodec)), Records(a.shards);
            && (o.err.None? <==> AllOpen(a.shards) && AllGood(a.envelopeCodec, recs))
            && (o.err.None? ==> o.handed == recs && AllHashesHold(recs))
  {
    hide WellFormedRecord, WalkFrom;
    WalkGood(a.envelopeCodec, a.shards, 0, []);
    assert a.shards[0..] == a.shards;
    assert [] + Records(a.shards) == Records(a.shards);
  }

  lemma StreamRefusesIncomplete(h: Hash, a: Archive)
    ensures StreamRefusal(h, a).None? <==> Complete(h, a)
  {
    hide TreeHash, WellFormedRecord, Records, Walk;
    WalkedAll(a);
  }

  /** Whatever order the shards were fetched in, accepts exactly the archives that verified mode
      accepts, with an honest outcome. */
  method StreamOpen(h: Hash, a: Archive, opts: Options, walked: Outcome<Record, ShardError>) returns (r: Opened)
    requires WalkMayReturn(WalkConfig(a, opts), walked) && a.declaredRecordCount <= INT64_MAX
    ensures r.OpenedRun? <==> Accepts(h, a, opts)
    ensures r.OpenedRun? ==> Honest(a, opts, r.outcome) && r.freshness == FreshnessOf(a, opts).0 && r.recordCount == |Records(a.shards)|
    ensures r.OpenedRun? ==>
              && (r.outcome.signatureResult == Valid <==> a.signature == WellFormed(true))
              && (r.outcome.signatureResult == WrongSigner <==> a.signature == WellFormed(false))
              && (r.outcome.signatureResult == Absent <==> a.signature.Unreadable?)
              && (r.outcome.signatureResult == Invalid <==> a.signature.Undecodable? || a.signature.TooShort?)
    ensures r.Refused? ==> Some(r.code) == FirstRefusal(FrontRefusal(a, opts), StreamRefusal(h, a), ClosingRefusal(a, opts))
  {
    hide TreeHash, Records, WellFormedRecord, HashHolds, Readable, Complete, WalkMayReturn, Walk;
    var refusal, outcome := UpFrontGates(a, opts);
    if refusal.Some? {
      return Refused(refusal.value);
    }
    StreamRefusesIncomplete(h, a);
    var count: nat;
    refusal, count := VerifyRecordsAndRoot(h, a, opts, walked);
    if refusal.Some? {
      return Refused(refusal.value);
    }
    var checked;
    refusal, checked, outcome := ClosingGates(a, opts, outcome);
    if refusal.Some? {
      return Refused(refusal.value);
    }
    r := OpenedRun(outcome, checked, count);
  }

  // ---- The two readers together ----

  /** An accepted run is reported in exactly one way, whichever reader opened it. */
  lemma HonestIsExact(a: Archive, opts: Options, o: Verified, p: Verified)
    requires Honest(a, opts, o) && Honest(a, opts, p)
    ensures o == p
  {
  }

  /** Opening the same archive under the same options with either reader: both accept it and
      report the same, or both refuse it, with one code if the fault they meet first has one. */
  method OpenBothWays(h: Hash, a: Archive, opts: Options, walked: Outcome<Record, ShardError>) returns (loaded: Opened, streamed: Opened)
    requires WalkMayReturn(WalkConfig(a, opts), walked) && a.declaredRecordCount <= INT64_MAX
    ensures loaded.OpenedRun? || streamed.OpenedRun? || SameFirstFault(a) ==> loaded == streamed
  {
    hide Honest, Accepts, Records, WalkMayReturn, SameFirstFault, LoadRefusal, StreamRefusal, FrontRefusal, ClosingRefusal;
    SameRefusal(h, a);
    loaded := Open(h, a, opts);
    streamed := StreamOpen(h, a, opts, walked);
    if loaded.OpenedRun? {
      HonestIsExact(a, opts, loaded.outcome, streamed.outcome);
    }
  }

  // ---- Acceptance and outcome, field by field ----

  /** Shard i has record j. */
  predicate HasRecord(a: Archive, i: nat, j: nat) {
    i < |a.shards| && a.shards[i].Opened? && j < |a.shards[i].recs|
  }

  function RecordAt(a: Archive, i: nat, j: nat): Record
    requires HasRecord(a, i, j)
  {
    a.shards[i].recs[j]
  }

  lemma {:induction false} RecordsMembers(shards: seq<Opening<Record, ShardError>>)
    ensures forall rec :: rec in Records(shards) <==> exists i :: 0 <= i < |shards| && shards[i].Opened? && rec in shards[i].recs
  {
    if shards != [] {
      RecordsMembers(shards[1..]);
      var rest := shards[1..];
      forall rec | rec in Records(rest)
        ensures exists i :: 0 <= i < |shards| && shards[i].Opened? && rec in shards[i].recs
      {
        var i :| 0 <= i < |rest| && rest[i].Opened? && rec in rest[i].recs;
        assert shards[i + 1] == rest[i];
      }
      forall rec, i | 0 < i < |shards| && shards[i].Opened? && rec in shards[i].recs
        ensures rec in Records(rest)
      {
        assert rest[i - 1] == shards[i];
      }
    }
  }

  /** What verified mode accepts, in the archive's own fields. */
  lemma AcceptsInFull(h: Hash, a: Archive, opts: Options)
    ensures Accepts(h, a, opts) <==>
            && a.runIdDecodes && a.rootRefusal.None? && a.parseRefusal.None? && a.versionRefusal.None? && a.envelopeRefusal.None?
            && a.runIdMatches && a.unwraps && a.commitmentHolds && a.recipientsHold
            && (a.signature == WellFormed(true) || opts.allowUnverified)
            && a.shardCount == |a.shards| && (forall i :: 0 <= i < |a.shards| ==> a.shards[i].Opened?)
            && (forall i, j :: HasRecord(a, i, j) ==>
                  var rec := RecordAt(a, i, j);
                  && rec.sourceType in {"kv", "r2", "secrets", "d1", "workers", "cf-config", "stream", "images", "artifacts"}
                  && rec.codec == a.envelopeCodec && rec.codec in {"none", "gzip"} && (rec.sourceType == "secrets" ==> rec.codec == "none")
                  && rec.hash.Some? && rec.stated == rec.hash)
            && |Records(a.shards)| == a.declaredRecordCount
            && (forall hashes :: |hashes| == |Records(a.shards)| && (forall k :: 0 <= k < |hashes| ==> Records(a.shards)[k].hash == Some(hashes[k]))
                  ==> a.merkleRoot == Some(TreeHash(h, hashes)))
            && (|| a.freshness(opts.minRunlogIndex).1.None? || opts.allowUnverified || opts.allowUnverifiedRunlog
                || (opts.allowStale && !a.freshness(opts.minRunlogIndex).0.runlogUntrusted))
            && (!opts.checkRecoveryBundle || a.bundleRefusal.None? || opts.allowUnverified)
  {
    hide TreeHash, Records;
    var recs := Records(a.shards);
    RecordsMembers(a.shards);
    if forall i, j :: HasRecord(a, i, j) ==> WellFormedRecord(a.envelopeCodec, RecordAt(a, i, j)) && HashHolds(RecordAt(a, i, j)) {
      forall k | 0 <= k < |recs|
        ensures WellFormedRecord(a.envelopeCodec, recs[k]) && HashHolds(recs[k])
      {
        assert recs[k] in recs;
        var i :| 0 <= i < |a.shards| && a.shards[i].Opened? && recs[k] in a.shards[i].recs;
        var j :| 0 <= j < |a.shards[i].recs| && a.shards[i].recs[j] == recs[k];
        assert HasRecord(a, i, j) && RecordAt(a, i, j) == recs[k];
      }
    }
    if AllGood(a.envelopeCodec, recs) {
      forall i, j | HasRecord(a, i, j)
        ensures WellFormedRecord(a.envelopeCodec, RecordAt(a, i, j)) && HashHolds(RecordAt(a, i, j))
      {
        assert RecordAt(a, i, j) in recs;
      }
      TheHashes(recs);
    }
  }

  lemma TheHashes(recs: seq<Record>)
    requires AllHashesHold(recs)
    ensures forall hashes :: |hashes| == |recs| && (forall k :: 0 <= k < |hashes| ==> recs[k].hash == Some(hashes[k])) <==> hashes == Hashes(recs)
  {
    forall hashes | |hashes| == |recs| && forall k :: 0 <= k < |hashes| ==> recs[k].hash == Some(hashes[k])
      ensures hashes == Hashes(recs)
    {
      forall k | 0 <= k < |recs|
        ensures hashes[k] == Hashes(recs)[k]
      {
        assert recs[k].hash == Some(hashes[k]);
      }
    }
  }

  /** What the receipt says of an accepted run, in the archive's own fields. */
  lemma HonestInFull(a: Archive, opts: Options, o: Verified)
    requires Honest(a, opts, o)
    ensures o.complete <==> a.signature == WellFormed(true) && a.freshness(opts.minRunlogIndex).1.None?
                            && (!opts.checkRecoveryBundle || a.bundleRefusal.None?)
    ensures o.breakGlassVerified == a.openedByBreakGlass && o.allowUnverifiedMode == opts.allowUnverified
    ensures o.recoveryBundleVerified <==> opts.checkRecoveryBundle && a.bundleRefusal.None?
    ensures o.code == if a.signature == WellFormed(true) && (!opts.checkRecoveryBundle || a.bundleRefusal.None?) then 0 else 2
  {
  }

  // ---- The freshness gate over the RUNLOG ----

  /** What the store answers for the RUNLOG and its signature. */
  datatype RunlogFiles = Unfetched(code: int) | Fetched(sig: Freshness.Signature, parsed: Option<seq<Runlog.Entry>>)
  {
    /** Parsing refuses a negative index. */
    predicate Valid() {
      Fetched? && parsed.Some? ==> forall e :: e in parsed.value ==> e.index >= 0
    }

    ghost predicate Trusted(runId: string, root: Freshness.Root) {
      Fetched? && sig.Valid? && parsed.Some? && Freshness.Trusted(parsed.value, runId, root)
    }

    ghost predicate Newest(root: Freshness.Root, minIndex: int) {
      Fetched? && parsed.Some? && Freshness.Newest(parsed.value, root, minIndex)
    }
  }

  /** The gate passes a newest run of a trusted log, and marks a log it cannot trust. */
  ghost predicate CheckedAs(files: RunlogFiles, runId: string, root: Freshness.Root, minIndex: int,
                            result: Freshness.FreshnessResult, refusal: Option<int>) {
    && (refusal.None? <==> files.Trusted(runId, root) && files.Newest(root, minIndex))
    && (result.runlogUntrusted <==> !files.Trusted(runId, root))
    && (refusal.Some? ==> refusal.value == if files.Unfetched? then files.code else EXIT_STALE)
  }

  method CheckRunFreshness(files: RunlogFiles, runId: string, root: Freshness.Root, minIndex: int)
    returns (result: Freshness.FreshnessResult, refusal: Option<int>)
    requires files.Valid()
    ensures CheckedAs(files, runId, root, minIndex, result, refusal)
  {
    hide Freshness.Trusted, Freshness.Newest, Freshness.IsMax, Runlog.Chained;
    if files.Unfetched? {
      return Freshness.UncheckedFreshness(), Some(files.code);
    }
    var finding;
    result, finding := Freshness.CheckFreshness(files.sig, files.parsed, runId, root, minIndex);
    refusal := if finding.Some? then Some(EXIT_STALE) else None;
  }

  /** With the freshness an archive carries taken from its RUNLOG: allow-stale waives the run's
      age and nothing else, and only allow-unverified-runlog or allow-unverified opens a run
      whose log is absent, unsigned, contradicts itself or contradicts the signed root. */
  lemma StaleWaivesAgeAlone(h: Hash, a: Archive, opts: Options, files: RunlogFiles, runId: string, root: Freshness.Root)
    requires CheckedAs(files, runId, root, opts.minRunlogIndex, FreshnessOf(a, opts).0, FreshnessOf(a, opts).1)
    ensures Accepts(h, a, opts) <==>
              && Readable(a) && Complete(h, a)
              && (SignatureGood(a) || opts.allowUnverified) && (BundleGood(a, opts) || opts.allowUnverified)
              && (|| opts.allowUnverified || opts.allowUnverifiedRunlog
                  || (files.Trusted(runId, root) && (opts.allowStale || files.Newest(root, opts.minRunlogIndex))))
  {
    hide Readable, Complete;
  }

  // ---- Which code each reader refuses with ----

  datatype Fault = ShardFailed(code: int) | Malformed | HashWrong | ShardCountWrong | RecordCountWrong

  function Code(f: Fault): int {
    match f
    case ShardFailed(code) => code
    case Malformed => EXIT_USAGE
    case HashWrong => EXIT_UNVERIFIED
    case ShardCountWrong => EXIT_UNVERIFIED
    case RecordCountWrong => EXIT_INCOMPLETE
  }

  function RecordFault(codec: string, rec: Record): seq<Fault> {
    if !WellFormedRecord(codec, rec) then [Malformed] else if !HashHolds(rec) then [HashWrong] else []
  }

  function RecordFaults(codec: string, recs: seq<Record>): seq<Fault> {
    if recs == [] then [] else RecordFault(codec, recs[0]) + RecordFaults(codec, recs[1..])
  }

  /** The faults of the shards and their records, in shard-list order. */
  function WalkFaults(codec: string, shards: seq<Opening<Record, ShardError>>): seq<Fault> {
    if shards == [] then []
    else
      (match shards[0]
       case Failed(e) => [ShardFailed(CodedIfNot(EXIT_UNVERIFIED, e))]
       case Opened(recs, _) => RecordFaults(codec, recs))
      + WalkFaults(codec, shards[1..])
  }

  /** Everything wrong with an archive's records short of the root. The declared record count says
      nothing while a shard is missing. */
  function Faults(a: Archive): seq<Fault> {
    WalkFaults(a.envelopeCodec, a.shards)
    + (if a.shardCount != |a.shards| then [ShardCountWrong] else [])
    + (if AllOpen(a.shards) && |Records(a.shards)| != a.declaredRecordCount then [RecordCountWrong] else [])
  }

  lemma {:induction false} DeliverFault(codec: string, recs: seq<Record>, j: nat, handed: seq<Record>)
    requires j <= |recs|
    ensures var o, faults := Deliver(PerRecord(codec), recs, j, handed), RecordFaults(codec, recs[j..]);
            && (o.err.None? <==> faults == [])
            && (o.err.Some? ==> o.err.value == Coded(Code(faults[0])))
    decreases |recs| - j
  {
    hide WellFormedRecord, HashHolds;
    if j < |recs| {
      DeliverFault(codec, recs, j + 1, handed + [recs[j]]);
      assert recs[j..][0] == recs[j] && recs[j..][1..] == recs[j + 1..];
    }
  }

  /** The walk ends in the first fault there is, in shard-list order. */
  lemma {:induction false} WalkFault(codec: string, shards: seq<Opening<Record, ShardError>>, k: nat, handed: seq<Record>)
    requires k <= |shards|
    ensures var o, faults := WalkFrom(shards, PerRecord(codec), k, handed), WalkFaults(codec, shards[k..]);
            && (o.err.None? <==> faults == [])
            && (o.err.Some? ==> CodedIfNot(EXIT_UNVERIFIED, o.err.value) == Code(faults[0]))
    decreases |shards| - k
  {
    hide Deliver, RecordFaults;
    if k < |shards| {
      assert shards[k..][0] == shards[k] && shards[k..][1..] == shards[k + 1..];
      if shards[k].Opened? {
        var recs := shards[k].recs;
        DeliverFault(codec, recs, 0, handed);
        assert recs[0..] == recs;
        WalkFault(codec, shards, k + 1, Deliver(PerRecord(codec), recs, 0, handed).handed);
      }
    }
  }

  /** Among its faults an archive's failed shards and malformed records are what loading finds. */
  lemma {:induction false} RecordFaultsTell(codec: string, recs: seq<Record>)
    ensures Malformed in RecordFaults(codec, recs) <==> !AllWellFormed(codec, recs)
    ensures forall f :: f in RecordFaults(codec, recs) ==> f in {Malformed, HashWrong}
    ensures RecordFaults(codec, recs) == [] <==> AllGood(codec, recs)
  {
    hide WellFormedRecord, HashHolds;
    if recs != [] {
      var rest := recs[1..];
      RecordFaultsTell(codec, rest);
      assert forall i :: 0 < i < |recs| ==> recs[i] == rest[i - 1];
    }
  }

  lemma {:induction false} RecordFaultsAppend(codec: string, a: seq<Record>, b: seq<Record>)
    ensures RecordFaults(codec, a + b) == RecordFaults(codec, a) + RecordFaults(codec, b)
  {
    hide RecordFault;
    if a == [] {
      assert a + b == b;
      assert [] + RecordFaults(codec, b) == RecordFaults(codec, b);
    } else {
      RecordFaultsAppend(codec, a[1..], b);
      assert (a + b)[0] == a[0] && (a + b)[1..] == a[1..] + b;
      var first, rest, more := RecordFault(codec, a[0]), RecordFaults(codec, a[1..]), RecordFaults(codec, b);
      assert first + (rest + more) == first + rest + more;
    }
  }

  lemma {:induction false} OpenFaults(codec: string, shards: seq<Opening<Record, ShardError>>)
    requires AllOpen(shards)
    ensures WalkFaults(codec, shards) == RecordFaults(codec, Records(shards))
  {
    hide RecordFaults;
    if shards == [] {
      assert RecordFaults(codec, []) == [] by { RecordFaultsTell(codec, []); }
    } else {
      OpenFaults(codec, shards[1..]);
      RecordFaultsAppend(codec, shards[0].recs, Records(shards[1..]));
    }
  }

  lemma {:induction false} FailedIsFault(codec: string, shards: seq<Opening<Record, ShardError>>)
    requires FirstFailed(shards).Some?
    ensures ShardFailed(CodedIfNot(EXIT_UNVERIFIED, FirstFailed(shards).value)) in WalkFaults(codec, shards)
  {
    hide RecordFaults;
    if shards[0].Opened? {
      FailedIsFault(codec, shards[1..]);
    }
  }

  /** What loading has met by the time it refuses: a failed shard before any record, a malformed
      record before any count. */
  function LoadFirst(a: Archive): int {
    if FirstFailed(a.shards).Some? then CodedIfNot(EXIT_UNVERIFIED, FirstFailed(a.shards).value)
    else if Malformed in WalkFaults(a.envelopeCodec, a.shards) then EXIT_USAGE
    else if a.shardCount == |a.shards| && |Records(a.shards)| != a.declaredRecordCount then EXIT_INCOMPLETE
    else EXIT_UNVERIFIED
  }

  /** Streaming meets the shard count first, and then the faults in shard-list order. */
  function StreamFirst(a: Archive): int {
    var walk := WalkFaults(a.envelopeCodec, a.shards);
    if a.shardCount != |a.shards| || walk == [] then EXIT_UNVERIFIED else Code(walk[0])
  }

  /** Sound shards and records under the right shard count, or as the same code either way. */
  predicate SameFirstFault(a: Archive) {
    (WalkFaults(a.envelopeCodec, a.shards) == [] && a.shardCount == |a.shards|) || LoadFirst(a) == StreamFirst(a)
  }

  /** The two readers refuse with the same code exactly when the fault loading meets first has the
      code of the fault streaming meets first. */
  lemma SameRefusal(h: Hash, a: Archive)
    ensures LoadRefusal(h, a) == StreamRefusal(h, a) <==> SameFirstFault(a)
  {
    hide TreeHash, WellFormedRecord, HashHolds, WalkFrom, Records, RecordFaults, WalkFaults, FirstFailed;
    var codec, recs := a.envelopeCodec, Records(a.shards);
    NoFailure(a.shards);
    WalkedAll(a);
    WalkFault(codec, a.shards, 0, []);
    assert a.shards[0..] == a.shards;
    RecordFaultsTell(codec, recs);
    if AllOpen(a.shards) {
      OpenFaults(codec, a.shards);
      GoodInBothWays(codec, recs);
    }
  }

  lemma GoodInBothWays(codec: string, recs: seq<Record>)
    ensures AllWellFormed(codec, recs) && AllHashesHold(recs) <==> AllGood(codec, recs)
  {
    hide WellFormedRecord, HashHolds;
  }

  /** An archive with a single fault is refused with that fault's code by both readers, whatever
      its root says. */
  lemma OneFaultOneCode(h: Hash, a: Archive)
    requires |Faults(a)| == 1
    ensures LoadRefusal(h, a) == StreamRefusal(h, a) == Some(Code(Faults(a)[0]))
  {
    hide TreeHash, WellFormedRecord, HashHolds, WalkFrom, Records, RecordFaults, WalkFaults, FirstFailed;
    var codec, recs := a.envelopeCodec, Records(a.shards);
    NoFailure(a.shards);
    WalkedAll(a);
    WalkFault(codec, a.shards, 0, []);
    assert a.shards[0..] == a.shards;
    RecordFaultsTell(codec, recs);
    var walk := WalkFaults(codec, a.shards);
    if AllOpen(a.shards) {
      OpenFaults(codec, a.shards);
      GoodInBothWays(codec, recs);
      if walk != [] {
        assert Faults(a)[0] == walk[0] && |walk| == 1;
        assert walk[0] in RecordFaults(codec, recs);
      }
    } else {
      FailedIsFault(codec, a.shards);
      assert walk != [] && Faults(a)[0] == walk[0];
    }
  }

  /** With two faults at once the codes can differ: a missing shard and a wrong shard count make
      the loading reader answer "incomplete" and the streaming one "unverified". */
  lemma RefusalsCanDiffer(h: Hash, a: Archive)
    requires a.shardCount == 2 && a.shards == [Failed(Coded(EXIT_INCOMPLETE))]
    ensures LoadRefusal(h, a) == Some(EXIT_INCOMPLETE) && StreamRefusal(h, a) == Some(EXIT_UNVERIFIED)
  {
    hide TreeHash, WellFormedRecord, HashHolds, Records, Walk;
  }

  // ---- Applying the records ----

  /** EachRecord's callback: the record gates again, then the caller's function. */
  function Checked(codec: string, fn: Callback<Record, ShardError>): Callback<Record, ShardError> {
    (handed: seq<Record>, rec: Record) =>
      var e := CheckRecord(codec, rec);
      if e.Some? then e else fn(handed, rec)
  }

  lemma {:induction false} DeliverChecked(codec: string, fn: Callback<Record, ShardError>, recs: seq<Record>, j: nat, handed: seq<Record>)
    requires j <= |recs| && AllGood(codec, recs)
    ensures Deliver(Checked(codec, fn), recs, j, handed) == Deliver(fn, recs, j, handed)
    decreases |recs| - j
  {
    hide WellFormedRecord, HashHolds, AllGood;
    if j < |recs| {
      GoodAt(codec, recs, j);
      DeliverChecked(codec, fn, recs, j + 1, handed + [recs[j]]);
    }
  }

  /** Over an archive whose records passed, the gates of the apply pass change nothing: the
      caller's function is handed the verified records in order until it stops the walk. */
  lemma {:induction false} EachRecordAddsNothing(codec: string, fn: Callback<Record, ShardError>, shards: seq<Opening<Record, ShardError>>, k: nat, handed: seq<Record>)
    requires k <= |shards| && AllGood(codec, Records(shards[k..]))
    ensures WalkFrom(shards, Checked(codec, fn), k, handed) == WalkFrom(shards, fn, k, handed)
    decreases |shards| - k
  {
    hide WellFormedRecord, HashHolds, Deliver, AllGood;
    if k < |shards| {
      assert shards[k..][0] == shards[k] && shards[k..][1..] == shards[k + 1..];
      if shards[k].Opened? {
        var recs := shards[k].recs;
        GoodAppend(codec, recs, Records(shards[k + 1..]));
        DeliverChecked(codec, fn, recs, 0, handed);
        EachRecordAddsNothing(codec, fn, shards, k + 1, Deliver(fn, recs, 0, handed).handed);
      }
    }
  }
}
