/** The break-glass share recombination. */
module Shamir {
  // The log/exp tables, the share combiner and the assembly of the share set.
  import opened Common
  import opened Gf256
  import opened Interpolation

  const SECRET_BYTES := 32
  const SHARE_BYTES := 1 + SECRET_BYTES

  datatype ArtefactError =
    | TooFewShares
    | WrongLength(share: nat)
    | ZeroIndex(share: nat)
    | RepeatedIndex(index: Gf)
    | ThresholdMismatch(file: nat)
    | ChecksumMismatch(file: nat)
    | ConflictingBodies(index: Gf)
    | NoShares
    | BelowThreshold(need: int, got: nat)
    | NoEnvelope
    | SharesAndKey
    | WrongChecksum
    | DoesNotDecrypt

  datatype Result<+T> = Ok(value: T) | Err(error: ArtefactError)

  // ---- The tables ----

  /** Multiplication by x in integer arithmetic, as the table loop computes it. */
  function GfXtime(a: bv8): bv8 {
    var shifted := (a as bv16) << 1;
    var reduced := if shifted & 0x100 != 0 then shifted ^ 0x11b else shifted;
    (reduced & 0xff) as bv8
  }

  lemma GfXtimeIsXtime(a: Gf)
    ensures Gf(GfXtime(a.bits)) == Xtime(a)
  {
  }

  lemma CodesDiffer(i: nat)
    requires i < 255
    ensures forall j :: 0 <= j < i ==> Code(Pow3(j)) != Code(Pow3(i))
  {
    hide Pow3, Code;
    forall j | 0 <= j < i
      ensures Code(Pow3(j)) != Code(Pow3(i))
    {
      PowersDistinct(j, i);
      if Code(Pow3(j)) == Code(Pow3(i)) {
        CodeInjective(Pow3(j), Pow3(i));
      }
    }
  }

  class GfTables {
    const gfExp: array<Gf>
    const gfLog: array<Byte>

    ghost predicate Filled(n: nat)
      reads gfExp, gfLog
    {
      && gfExp.Length == 512 && gfLog.Length == 256 && n <= 255
      && (forall i :: 0 <= i < n ==> gfExp[i] == Pow3(i))
      && (forall i :: 0 <= i < n ==> gfLog[Code(Pow3(i))] == i)
    }

    ghost predicate Valid()
      reads gfExp, gfLog
    {
      Filled(255) && (forall i :: 255 <= i < 512 ==> gfExp[i] == gfExp[i - 255])
    }

    constructor ()
      ensures Valid() && fresh(gfExp) && fresh(gfLog)
    {
      gfExp := new Gf[512](_ => ZERO);
      gfLog := new Byte[256](_ => 0);
      new;
      FillPowers();
      Extend();
    }

    method FillPowers()
      requires gfExp.Length == 512 && gfLog.Length == 256
      modifies gfExp, gfLog
      ensures Filled(255)
    {
      hide Pow3, Add, Xtime, GfXtime, Code;
      var x := ONE;
      PowerZero();
      for i := 0 to 255
        invariant Filled(i) && x == Pow3(i)
      {
        CodesDiffer(i);
        gfExp[i] := x;
        gfLog[Code(x)] := i;
        var stepped := Gf(x.bits ^ GfXtime(x.bits));
        NextPower(i, x, stepped);
        x := stepped;
      }
    }

    method Extend()
      requires Filled(255)
      modifies gfExp
      ensures Valid()
    {
      hide Pow3, Code;
      for i := 255 to 512
        invariant Filled(255)
        invariant forall k :: 255 <= k < i ==> gfExp[k] == gfExp[k - 255]
      {
        gfExp[i] := gfExp[i - 255];
      }
    }

    /** Every entry of the extended table is a power of the generator. */
    lemma {:induction false} ExpIsPower(i: nat)
      requires Valid() && i < 512
      ensures gfExp[i] == Pow3(i)
    {
      hide Pow3;
      GeneratorPowers();
      if i >= 255 {
        ExpIsPower(i - 255);
        PowerShift(i - 255, 255);
      }
    }

    lemma LogIsLog(a: Gf)
      requires Valid() && a != ZERO
      ensures gfLog[Code(a)] == Log(a)
    {
      hide Pow3;
      assert Pow3(Log(a)) == a;
    }

    function GfMul(a: Gf, b: Gf): (r: Gf)
      requires Valid()
      reads gfExp, gfLog
      ensures r == Mul(a, b)
    {
      hide Mul, Pow3;
      if a == ZERO || b == ZERO then
        MulZero(a);
        MulZero(b);
        ZERO
      else
        LogIsLog(a);
        LogIsLog(b);
        ExpIsPower(Log(a) + Log(b));
        MulNonzero(a, b);
        gfExp[(gfLog[Code(a)] as int) + (gfLog[Code(b)] as int)]
    }

    function GfInv(a: Gf): (r: Gf)
      requires Valid() && a != ZERO
      reads gfExp, gfLog
      ensures r == Inv(a)
    {
      hide Mul, Pow3, Add;
      LogIsLog(a);
      ExpIsPower(255 - Log(a));
      gfExp[255 - gfLog[Code(a)]]
    }
  }

  lemma NextPower(i: nat, x: Gf, stepped: Gf)
    requires x == Pow3(i) && stepped == Gf(x.bits ^ GfXtime(x.bits))
    ensures stepped == Pow3(i + 1)
  {
    GfXtimeIsXtime(x);
  }

  // ---- Combine ----

  type Share = seq<Gf>

  /** The first structural fault of a share list, in list order. */
  ghost predicate Acceptable(shares: seq<Share>, n: nat)
    requires n <= |shares|
  {
    && (forall i :: 0 <= i < n ==> |shares[i]| == SHARE_BYTES && shares[i][0] != ZERO)
    && (forall i, j :: 0 <= i < j < n ==> shares[i][0] != shares[j][0])
  }

  ghost function Indices(shares: seq<Share>): (xs: seq<Gf>)
    requires Acceptable(shares, |shares|)
    ensures |xs| == |shares| && Distinct(xs)
  {
    seq(|shares|, i requires 0 <= i < |shares| => shares[i][0])
  }

  /** The secret byte that interpolation assigns to byte column b. */
  ghost function Interpolated(shares: seq<Share>, b: nat): Gf
    requires Acceptable(shares, |shares|) && b < SECRET_BYTES
  {
    var xs := Indices(shares);
    Sum(seq(|xs|, i requires 0 <= i < |xs| => Mul(shares[i][1 + b], Weight(xs, i))))
  }

  /** The fault reported for the first bad share, given that the ones before it are fine. */
  ghost predicate FaultAt(shares: seq<Share>, i: nat, e: ArtefactError)
    requires i < |shares| && Acceptable(shares, i)
  {
    var sh := shares[i];
    if |sh| != SHARE_BYTES then e == WrongLength(i + 1)
    else if sh[0] == ZERO then e == ZeroIndex(i + 1)
    else e == RepeatedIndex(sh[0]) && exists j :: 0 <= j < i && shares[j][0] == sh[0]
  }

  /** The structural gate of Combine: the share indices, or the first fault. */
  method ReadIndices(shares: seq<Share>) returns (r: Result<seq<Gf>>)
    requires |shares| >= 2
    ensures r.Ok? <==> Acceptable(shares, |shares|)
    ensures r.Ok? ==> r.value == Indices(shares)
    ensures r.Err? ==> exists i :: 0 <= i < |shares| && Acceptable(shares, i) && FaultAt(shares, i, r.error)
  {
    var xs: seq<Gf> := [];
    var seen: set<Gf> := {};
    for i := 0 to |shares|
      invariant Acceptable(shares, i) && |xs| == i
      invariant forall j :: 0 <= j < i ==> xs[j] == shares[j][0]
      invariant seen == set j | 0 <= j < i :: shares[j][0]
    {
      var sh := shares[i];
      if |sh| != SHARE_BYTES {
        return Err(WrongLength(i + 1));
      }
      var x := sh[0];
      if x == ZERO {
        return Err(ZeroIndex(i + 1));
      }
      if x in seen {
        return Err(RepeatedIndex(x));
      }
      seen := seen + {x};
      xs := xs + [x];
    }
    r := Ok(xs);
  }

  lemma OthersGrow(xs: seq<Gf>, i: nat, j: nat)
    requires i < |xs| && j < |xs|
    ensures Others(xs[..j + 1], i) == if j == i then Others(xs[..j], i) else Others(xs[..j], i) + [xs[j]]
  {
    if j < i {
      assert xs[..j + 1] == xs[..j] + [xs[j]];
    } else if j > i {
      assert xs[..j + 1][..i] == xs[..j][..i];
      assert xs[..j + 1][i + 1..] == xs[..j][i + 1..] + [xs[j]];
    }
  }

  lemma WeightOfProducts(xs: seq<Gf>, i: nat, num: Gf, den: Gf)
    requires Distinct(xs) && i < |xs|
    requires num == Product(Others(xs, i)) && den == Product(Differences(xs[i], Others(xs, i)))
    ensures den != ZERO && Mul(num, Inv(den)) == Weight(xs, i)
  {
    hide Mul, Inv, Product, Ratios;
    ProductsToRatios(xs[i], Others(xs, i));
  }

  /** One Lagrange weight at zero, through the tables. */
  method LagrangeWeight(tables: GfTables, xs: seq<Gf>, i: nat) returns (w: Gf)
    requires tables.Valid()
    requires Distinct(xs) && i < |xs|
    ensures w == Weight(xs, i)
  {
    hide Mul, Product, Inv, Add, Weight, Others, Distinct;
    var num, den := ONE, ONE;
    EmptyProducts(xs, i);
    for j := 0 to |xs|
      invariant num == Product(Others(xs[..j], i))
      invariant den == Product(Differences(xs[i], Others(xs[..j], i)))
    {
      OthersGrow(xs, i, j);
      if j != i {
        ghost var sofar := Others(xs[..j], i);
        ProductSnoc(sofar, xs[j]);
        ProductSnoc(Differences(xs[i], sofar), Add(xs[i], xs[j]));
        assert Differences(xs[i], sofar + [xs[j]]) == Differences(xs[i], sofar) + [Add(xs[i], xs[j])];
        num := tables.GfMul(num, xs[j]);
        den := tables.GfMul(den, Add(xs[i], xs[j]));
      }
    }
    assert xs[..|xs|] == xs;
    WeightOfProducts(xs, i, num, den);
    w := tables.GfMul(num, tables.GfInv(den));
  }

  lemma EmptyProducts(xs: seq<Gf>, i: nat)
    requires i < |xs|
    ensures Product(Others(xs[..0], i)) == ONE && Product(Differences(xs[i], Others(xs[..0], i))) == ONE
  {
    assert Others(xs[..0], i) == [];
  }

  /** One byte of the secret: the weighted sum of the shares' bytes. */
  method CombineByte(tables: GfTables, shares: seq<Share>, weights: seq<Gf>, b: nat) returns (acc: Gf)
    requires tables.Valid()
    requires Acceptable(shares, |shares|) && b < SECRET_BYTES
    requires weights == Weights(Indices(shares))
    ensures acc == Interpolated(shares, b)
  {
    hide Mul, Sum, Add, Weight;
    ghost var xs := Indices(shares);
    ghost var terms := seq(|xs|, i requires 0 <= i < |xs| => Mul(shares[i][1 + b], Weight(xs, i)));
    acc := ZERO;
    EmptySum();
    for i := 0 to |shares|
      invariant acc == Sum(terms[..i])
    {
      SumSnoc(terms[..i], terms[i]);
      assert terms[..i + 1] == terms[..i] + [terms[i]];
      acc := Add(acc, tables.GfMul(shares[i][1 + b], weights[i]));
    }
    assert terms[..|shares|] == terms;
  }

  lemma EmptySum()
    ensures Sum([]) == ZERO
  {
  }

  /** Lagrange interpolation at zero, byte column by byte column. */
  method Combine(tables: GfTables, shares: seq<Share>) returns (r: Result<seq<Gf>>)
    requires tables.Valid()
    ensures r.Ok? <==> |shares| >= 2 && Acceptable(shares, |shares|)
    ensures r.Ok? ==> |r.value| == SECRET_BYTES && forall b :: 0 <= b < SECRET_BYTES ==> r.value[b] == Interpolated(shares, b)
    ensures |shares| < 2 ==> r == Err(TooFewShares)
    ensures |shares| >= 2 && r.Err? ==>
              exists i :: 0 <= i < |shares| && Acceptable(shares, i) && FaultAt(shares, i, r.error)
  {
    hide Acceptable, Interpolated, Weight, FaultAt, Distinct;
    if |shares| < 2 {
      return Err(TooFewShares);
    }
    var gate := ReadIndices(shares);
    if gate.Err? {
      return gate;
    }
    var xs := gate.value;
    var weights: seq<Gf> := [];
    for i := 0 to |xs|
      invariant |weights| == i && forall j :: 0 <= j < i ==> weights[j] == Weight(xs, j)
    {
      var w := LagrangeWeight(tables, xs, i);
      weights := weights + [w];
    }
    var out: seq<Gf> := [];
    for b := 0 to SECRET_BYTES
      invariant |out| == b && forall k :: 0 <= k < b ==> out[k] == Interpolated(shares, k)
    {
      var acc := CombineByte(tables, shares, weights, b);
      out := out + [acc];
    }
    r := Ok(out);
  }

  // ---- What a split recovers ----

  /** One polynomial per secret byte, all with the same number of coefficients: the threshold. */
  ghost predicate IsSplit(polys: seq<seq<Gf>>, threshold: nat) {
    |polys| == SECRET_BYTES && threshold > 0 && forall b :: 0 <= b < SECRET_BYTES ==> |polys[b]| == threshold
  }

  ghost function Secret(polys: seq<seq<Gf>>, threshold: nat): (s: seq<Gf>)
    requires IsSplit(polys, threshold)
  {
    seq(SECRET_BYTES, b requires 0 <= b < SECRET_BYTES => polys[b][0])
  }

  ghost predicate IsShareOf(sh: Share, polys: seq<seq<Gf>>) {
    && |sh| == SHARE_BYTES && |polys| == SECRET_BYTES && sh[0] != ZERO
    && forall b :: 0 <= b < SECRET_BYTES ==> sh[1 + b] == Eval(polys[b], sh[0])
  }

  /** Any qualifying subset of one split, in any order, interpolates to the secret. */
  lemma QualifyingSharesRecover(shares: seq<Share>, polys: seq<seq<Gf>>, threshold: nat, b: nat)
    requires IsSplit(polys, threshold) && threshold <= |shares| && b < SECRET_BYTES
    requires Acceptable(shares, |shares|)
    requires forall i :: 0 <= i < |shares| ==> IsShareOf(shares[i], polys)
    ensures Interpolated(shares, b) == Secret(polys, threshold)[b]
  {
    hide Mul, Sum, Eval, Weight;
    var xs := Indices(shares);
    var ys := seq(|shares|, i requires 0 <= i < |shares| => shares[i][1 + b]);
    var s := seq(|xs|, i requires 0 <= i < |xs| => Mul(ys[i], Weight(xs, i)));
    InterpolateAtZero(xs, polys[b], ys);
    assert s == seq(|xs|, i requires 0 <= i < |xs| => Mul(shares[i][1 + b], Weight(xs, i)));
  }

  // ---- The share set ----

  /** A loaded share has at least its index byte. */
  type LoadedShare = s: Share | s != [] witness [ZERO]

  datatype ShareFile = ShareFile(threshold: int, n: int, checksum: Bytes, share: LoadedShare)

  datatype Inputs = Inputs(labelled: seq<ShareFile>, raw: seq<LoadedShare>, thresholdHint: int)

  /** Every share supplied, labelled files first. */
  function Supplied(input: Inputs): (r: seq<LoadedShare>)
    ensures |r| == |input.labelled| + |input.raw|
  {
    seq(|input.labelled|, i requires 0 <= i < |input.labelled| => input.labelled[i].share) + input.raw
  }

  function EffectiveThreshold(input: Inputs): int {
    if input.labelled == [] then input.thresholdHint else input.labelled[0].threshold
  }

  ghost predicate OneCeremony(files: seq<ShareFile>) {
    forall f :: f in files ==>
      f.threshold == files[0].threshold && f.n == files[0].n && f.checksum == files[0].checksum
  }

  /** No two supplied shares carry one index with different bodies. */
  ghost predicate NoConflict(all: seq<LoadedShare>)
  {
    forall s, t :: s in all && t in all && s[0] == t[0] ==> s == t
  }

  ghost predicate OneOfEach(kept: seq<LoadedShare>, all: seq<LoadedShare>)
  {
    && (forall s :: s in kept <==> s in all)
    && (forall i, j :: 0 <= i < j < |kept| ==> kept[i] in all && kept[j] in all && kept[i][0] != kept[j][0])
  }

  /** Merging the shares: an identical duplicate is dropped, a conflict refused. */
  method MergeShares(all: seq<LoadedShare>) returns (r: Result<seq<LoadedShare>>)
    ensures r.Ok? <==> NoConflict(all)
    ensures r.Ok? ==> OneOfEach(r.value, all) && (r.value == [] ==> all == [])
    ensures r.Err? ==> r.error.ConflictingBodies?
  {
    var byIndex: map<Gf, LoadedShare> := map[];
    var shares: seq<LoadedShare> := [];
    for i := 0 to |all|
      invariant shares == [] ==> i == 0
      invariant OneOfEach(shares, all[..i]) && NoConflict(all[..i])
      invariant forall s :: s in all[..i] ==> s[0] in byIndex
      invariant forall x :: x in byIndex ==> byIndex[x] in all[..i] && byIndex[x][0] == x
    {
      var share := all[i];
      assert all[..i + 1] == all[..i] + [share];
      if share[0] in byIndex {
        if byIndex[share[0]] != share {
          assert byIndex[share[0]] in all && share in all;
          return Err(ConflictingBodies(share[0]));
        }
      } else {
        byIndex := byIndex[share[0] := share];
        shares := shares + [share];
      }
    }
    assert all[..|all|] == all;
    r := Ok(shares);
  }

  method AssembleShares(input: Inputs) returns (r: Result<seq<LoadedShare>>)
    ensures r.Ok? ==> OneCeremony(input.labelled) && NoConflict(Supplied(input))
                      && OneOfEach(r.value, Supplied(input)) && r.value != []
                      && |r.value| >= EffectiveThreshold(input)
    ensures r.Ok? ==> |r.value| >= if input.labelled == [] then input.thresholdHint else input.labelled[0].threshold
    ensures r.Err? && r.error.BelowThreshold? ==>
              r.error.need == if input.labelled == [] then input.thresholdHint else input.labelled[0].threshold
    ensures OneCeremony(input.labelled) && NoConflict(Supplied(input)) && r.Err? ==>
              || (r.error.NoShares? && Supplied(input) == [])
              || (r.error.BelowThreshold? && r.error.need == EffectiveThreshold(input) && r.error.got < r.error.need
                  && exists kept :: OneOfEach(kept, Supplied(input)) && |kept| == r.error.got)
  {
    var threshold := EffectiveThreshold(input);
    for i := 0 to |input.labelled|
      invariant OneCeremony(input.labelled[..i])
    {
      var sf := input.labelled[i];
      assert input.labelled[..i + 1] == input.labelled[..i] + [sf];
      if i > 0 {
        if sf.threshold != threshold || sf.n != input.labelled[0].n {
          return Err(ThresholdMismatch(i + 1));
        }
        if sf.checksum != input.labelled[0].checksum {
          return Err(ChecksumMismatch(i + 1));
        }
      }
    }
    assert input.labelled[..|input.labelled|] == input.labelled;
    var merged := MergeShares(Supplied(input));
    if merged.Err? {
      return merged;
    }
    var shares := merged.value;
    if |shares| == 0 {
      return Err(NoShares);
    }
    if threshold > 0 && |shares| < threshold {
      return Err(BelowThreshold(threshold, |shares|));
    }
    r := Ok(shares);
  }

  /** A labelled set states its own threshold: two different shares of a set that needs three are
      refused, whatever hint came with them. */
  method TwoOfThree(s: ShareFile, t: ShareFile, hint: int) returns (r: Result<seq<LoadedShare>>)
    requires s.threshold == t.threshold == 3 && s.n == t.n == 5 && s.checksum == t.checksum && s.share[0] != t.share[0]
    ensures r == Err(BelowThreshold(3, 2))
  {
    var input := Inputs([s, t], [], hint);
    assert Supplied(input) == [s.share, t.share];
    assert OneOfEach([s.share, t.share], Supplied(input));
    r := AssembleShares(input);
    if r.Ok? {
      SameCount(r.value, [s.share, t.share], Supplied(input));
      assert false;
    }
    if r.error.BelowThreshold? {
      ghost var kept :| OneOfEach(kept, Supplied(input)) && |kept| == r.error.got;
      SameCount(kept, [s.share, t.share], Supplied(input));
    }
  }

  /** Assembly and combination together. From enough shares of one split whose threshold is the
      one stated, the key is the secret. */
  method CombineShares(tables: GfTables, input: Inputs, ghost polys: seq<seq<Gf>>, ghost threshold: nat)
    returns (r: Result<seq<Gf>>)
    requires tables.Valid()
    ensures FromSplit(input, polys, threshold) && r.Ok? ==> r.value == Secret(polys, threshold)
    ensures FromSplit(input, polys, threshold) ==> (r.Ok? <==> Enough(input, threshold))
  {
    hide IsShareOf, Interpolated;
    if FromSplit(input, polys, threshold) {
      SameSplitNoConflict(Supplied(input), polys);
    }
    var assembled := AssembleShares(input);
    if assembled.Err? {
      if FromSplit(input, polys, threshold) {
        TooFew(input, threshold, assembled.error);
      }
      return Err(assembled.error);
    }
    var shares := assembled.value;
    r := Combine(tables, shares);
    if FromSplit(input, polys, threshold) {
      KeptAcceptable(shares, Supplied(input), polys);
      KeptDecide(input, threshold, shares);
      if r.Ok? {
        forall b | 0 <= b < SECRET_BYTES
          ensures r.value[b] == Secret(polys, threshold)[b]
        {
          QualifyingSharesRecover(shares, polys, threshold, b);
        }
      }
    }
  }

  lemma TooFew(input: Inputs, threshold: nat, e: ArtefactError)
    requires EffectiveThreshold(input) == threshold
    requires || (e.NoShares? && Supplied(input) == [])
             || (e.BelowThreshold? && e.need == EffectiveThreshold(input) && e.got < e.need
                 && exists kept :: OneOfEach(kept, Supplied(input)) && |kept| == e.got)
    ensures !Enough(input, threshold)
  {
    assert e.NoShares? ==> OneOfEach([], Supplied(input));
    if kept :| OneOfEach(kept, Supplied(input)) && |kept| >= threshold && |kept| >= 2 {
      var few :| OneOfEach(few, Supplied(input)) && |few| == if e.NoShares? then 0 else e.got;
      SameCount(kept, few, Supplied(input));
    }
  }

  lemma KeptDecide(input: Inputs, threshold: nat, shares: seq<LoadedShare>)
    requires OneOfEach(shares, Supplied(input)) && |shares| >= threshold
    ensures Enough(input, threshold) <==> |shares| >= 2
  {
    if kept :| OneOfEach(kept, Supplied(input)) && |kept| >= threshold && |kept| >= 2 {
      SameCount(kept, shares, Supplied(input));
    }
  }

  lemma SameSplitNoConflict(all: seq<LoadedShare>, polys: seq<seq<Gf>>)
    requires forall s :: s in all ==> IsShareOf(s, polys)
    ensures NoConflict(all)
  {
    hide Eval;
    forall s, t | s in all && t in all && s[0] == t[0]
      ensures s == t
    {
      assert IsShareOf(s, polys) && IsShareOf(t, polys);
      forall k | 0 <= k < SHARE_BYTES
        ensures s[k] == t[k]
      {
        if k > 0 {
          var b := k - 1;
          assert s[1 + b] == Eval(polys[b], s[0]);
          assert t[1 + b] == Eval(polys[b], t[0]);
        }
      }
    }
  }

  lemma KeptAcceptable(kept: seq<LoadedShare>, all: seq<LoadedShare>, polys: seq<seq<Gf>>)
    requires forall s :: s in all ==> IsShareOf(s, polys)
    requires OneOfEach(kept, all)
    ensures Acceptable(kept, |kept|)
    ensures forall i :: 0 <= i < |kept| ==> IsShareOf(kept[i], polys)
  {
    hide Eval;
    forall i | 0 <= i < |kept|
      ensures IsShareOf(kept[i], polys)
    {
      assert kept[i] in kept;
    }
  }

  // ---- The whole recombination ----

  /** The shares come from one split whose real threshold the labelled files, or the hint, state. */
  ghost predicate FromSplit(input: Inputs, polys: seq<seq<Gf>>, threshold: nat) {
    && IsSplit(polys, threshold) && EffectiveThreshold(input) == threshold && OneCeremony(input.labelled)
    && forall s :: s in Supplied(input) ==> IsShareOf(s, polys)
  }

  /** At least the threshold, and two, different shares are supplied. */
  ghost predicate Enough(input: Inputs, threshold: nat) {
    exists kept :: OneOfEach(kept, Supplied(input)) && |kept| >= threshold && |kept| >= 2
  }

  /** The labelled files' public checksum, when there are any, is the key's. */
  predicate ChecksumFits(input: Inputs, checksum: seq<Gf> -> Bytes, key: seq<Gf>) {
    input.labelled == [] || checksum(key) == input.labelled[0].checksum
  }

  function ElementsOf(kept: seq<LoadedShare>): (s: set<LoadedShare>)
    ensures forall x :: x in s <==> x in kept
  {
    if kept == [] then {}
    else
      assert kept == kept[..|kept| - 1] + [kept[|kept| - 1]];
      ElementsOf(kept[..|kept| - 1]) + {kept[|kept| - 1]}
  }

  lemma {:induction false} AsManyElements(kept: seq<LoadedShare>)
    requires forall i, j :: 0 <= i < j < |kept| ==> kept[i] != kept[j]
    ensures |ElementsOf(kept)| == |kept|
  {
    if kept != [] {
      var n := |kept| - 1;
      AsManyElements(kept[..n]);
      assert kept[n] !in kept[..n];
    }
  }

  /** However the shares were merged, as many different ones are kept. */
  lemma SameCount(a: seq<LoadedShare>, b: seq<LoadedShare>, all: seq<LoadedShare>)
    requires OneOfEach(a, all) && OneOfEach(b, all)
    ensures |a| == |b|
  {
    AsManyElements(a);
    AsManyElements(b);
    assert ElementsOf(a) == ElementsOf(b);
  }

  /** Recovers the identity text. Anything it returns was opened by the authenticated decrypt; and
      from enough shares of one split it is what the split's secret opens, whichever shares they
      are and in whatever order. */
  method Recombine(tables: GfTables, input: Inputs, wrappingKey: Option<seq<Gf>>, checksum: seq<Gf> -> Bytes,
                   envelope: Option<seq<Gf> -> Option<Bytes>>, ghost polys: seq<seq<Gf>>, ghost threshold: nat)
    returns (r: Result<Bytes>)
    requires tables.Valid()
    ensures r.Ok? ==> envelope.Some? && exists key :: envelope.value(key) == Some(r.value)
    ensures wrappingKey.Some? && envelope.Some? && Supplied(input) == [] ==>
              r == var p := envelope.value(wrappingKey.value); if p.None? then Err(DoesNotDecrypt) else Ok(p.value)
    ensures wrappingKey.Some? && Supplied(input) != [] ==> r.Err?
    ensures wrappingKey.None? && envelope.Some? && FromSplit(input, polys, threshold) && Enough(input, threshold) ==>
              r == (var key := Secret(polys, threshold);
                    if !ChecksumFits(input, checksum, key) then Err(WrongChecksum)
                    else var p := envelope.value(key); if p.None? then Err(DoesNotDecrypt) else Ok(p.value))
  {
    hide NoConflict, OneCeremony, IsSplit, IsShareOf, Acceptable;
    if envelope.None? {
      return Err(NoEnvelope);
    }
    var key: seq<Gf>;
    if wrappingKey.Some? {
      if |input.labelled| + |input.raw| > 0 {
        return Err(SharesAndKey);
      }
      key := wrappingKey.value;
    } else {
      var combined := CombineShares(tables, input, polys, threshold);
      if combined.Err? {
        return Err(combined.error);
      }
      key := combined.value;
      if |input.labelled| > 0 && checksum(key) != input.labelled[0].checksum {
        return Err(WrongChecksum);
      }
    }
    var plaintext := envelope.value(key);
    if plaintext.None? {
      return Err(DoesNotDecrypt);
    }
    r := Ok(plaintext.value);
  }
}
