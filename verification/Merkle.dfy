/** The Merkle root over a run's record hashes. */
module Merkle {
  // Level by level, and incrementally through a frontier of completed perfect subtrees. Both are
  // proved equal to the recursive tree hash of section 2.1 of RFC 6962. The hash is a parameter.
  import opened Common

  type Hash = Bytes -> Bytes

  function EmptyRoot(h: Hash): Bytes { h([]) }

  function LeafHash(h: Hash, data: Bytes): Bytes { h([0x00] + data) }

  function NodeHash(h: Hash, left: Bytes, right: Bytes): Bytes { h([0x01] + left + right) }

  function LeafHashes(h: Hash, leaves: seq<Bytes>): (ds: seq<Bytes>)
    ensures |ds| == |leaves|
  {
    seq(|leaves|, i requires 0 <= i < |leaves| => LeafHash(h, leaves[i]))
  }

  // ---- Powers of two ----

  function Pow2(k: nat): (p: nat)
    ensures p > 0
  {
    if k == 0 then 1 else 2 * Pow2(k - 1)
  }

  lemma Pow2Double(e: nat)
    requires e > 0
    ensures Pow2(e) == 2 * Pow2(e - 1)
  {
  }

  lemma {:induction false} Pow2Strict(a: nat, b: nat)
    requires a < b
    ensures 2 * Pow2(a) <= Pow2(b)
  {
    if a + 1 < b {
      Pow2Strict(a, b - 1);
    }
  }

  /** The exponent of the largest power of two strictly below n. */
  function SplitLog(n: nat): (k: nat)
    requires n >= 2
    ensures Pow2(k) < n <= 2 * Pow2(k)
  {
    if n == 2 then 0 else SplitLog((n + 1) / 2) + 1
  }

  lemma SplitLogUnique(n: nat, k: nat)
    requires n >= 2
    requires Pow2(k) < n <= 2 * Pow2(k)
    ensures SplitLog(n) == k
  {
    if SplitLog(n) < k {
      Pow2Strict(SplitLog(n), k);
    } else if k < SplitLog(n) {
      Pow2Strict(k, SplitLog(n));
    }
  }

  // ---- The reference tree ----

  /** MTH of RFC 6962, section 2.1, over leaf hashes already computed. */
  function Tree(h: Hash, ds: seq<Bytes>): Bytes
    requires ds != []
    decreases |ds|
  {
    if |ds| == 1 then ds[0]
    else
      var k := Pow2(SplitLog(|ds|));
      NodeHash(h, Tree(h, ds[..k]), Tree(h, ds[k..]))
  }

  function TreeHash(h: Hash, leaves: seq<Bytes>): Bytes {
    if leaves == [] then EmptyRoot(h) else Tree(h, LeafHashes(h, leaves))
  }

  /** A left part that is a whole power of two, at least as long as the right part, is the
      left child of the tree over both. */
  lemma TreeSplit(h: Hash, a: seq<Bytes>, b: seq<Bytes>, k: nat)
    requires |a| == Pow2(k) && 0 < |b| <= |a|
    ensures Tree(h, a + b) == NodeHash(h, Tree(h, a), Tree(h, b))
  {
    SplitLogUnique(|a + b|, k);
    assert (a + b)[..|a|] == a && (a + b)[|a|..] == b;
  }

  // ---- Level by level ----

  /** One level up: neighbours are paired, an odd last node is promoted unchanged. */
  function PairUp(h: Hash, ds: seq<Bytes>): (r: seq<Bytes>)
    ensures |r| == (|ds| + 1) / 2
  {
    if |ds| < 2 then ds
    else [NodeHash(h, ds[0], ds[1])] + PairUp(h, ds[2..])
  }

  lemma {:induction false} PairUpConcat(h: Hash, a: seq<Bytes>, b: seq<Bytes>)
    requires |a| % 2 == 0
    ensures PairUp(h, a + b) == PairUp(h, a) + PairUp(h, b)
    decreases |a|
  {
    if a == [] {
      assert a + b == b;
    } else {
      assert (a + b)[2..] == a[2..] + b;
      PairUpConcat(h, a[2..], b);
    }
  }

  lemma {:induction false} PairUpKeepsSplit(h: Hash, a: seq<Bytes>, b: seq<Bytes>, e: nat)
    requires e > 0 && |a| == Pow2(e) && 0 < |b| <= |a|
    requires Tree(h, PairUp(h, a)) == Tree(h, a) && Tree(h, PairUp(h, b)) == Tree(h, b)
    ensures Tree(h, PairUp(h, a + b)) == Tree(h, a + b)
  {
    hide Tree, PairUp, NodeHash, Pow2;
    assert Pow2(e) == 2 * Pow2(e - 1) by { Pow2Double(e); }
    PairUpConcat(h, a, b);
    TreeSplit(h, PairUp(h, a), PairUp(h, b), e - 1);
    TreeSplit(h, a, b, e);
  }

  lemma PairUpKeepsPair(h: Hash, ds: seq<Bytes>)
    requires |ds| == 2
    ensures Tree(h, PairUp(h, ds)) == Tree(h, ds)
  {
    var a, b := [ds[0]], [ds[1]];
    TreeSplit(h, a, b, 0);
    assert ds == a + b;
    assert PairUp(h, ds) == [NodeHash(h, ds[0], ds[1])];
  }

  /** Going up one level does not change the root. */
  lemma {:induction false} PairUpKeepsTree(h: Hash, ds: seq<Bytes>)
    requires |ds| >= 1
    ensures Tree(h, PairUp(h, ds)) == Tree(h, ds)
    decreases |ds|
  {
    if |ds| == 1 {
      assert PairUp(h, ds) == ds;
    } else if |ds| == 2 {
      PairUpKeepsPair(h, ds);
    } else {
      var e := SplitLog(|ds|);
      var a, b := ds[..Pow2(e)], ds[Pow2(e)..];
      PairUpKeepsTree(h, a);
      PairUpKeepsTree(h, b);
      PairUpKeepsSplit(h, a, b, e);
      assert ds == a + b;
    }
  }

  lemma {:induction false} PairUpAt(h: Hash, ds: seq<Bytes>, i: nat)
    requires 2 * i < |ds|
    ensures PairUp(h, ds)[i] == if 2 * i + 1 == |ds| then ds[2 * i] else NodeHash(h, ds[2 * i], ds[2 * i + 1])
    decreases |ds|
  {
    if i > 0 {
      PairUpAt(h, ds[2..], i - 1);
    }
  }

  lemma PairUpStep(h: Hash, level: seq<Bytes>, i: nat)
    requires 2 * i < |level|
    ensures PairUp(h, level)[..i + 1] ==
            PairUp(h, level)[..i] + [if 2 * i + 1 == |level| then level[2 * i] else NodeHash(h, level[2 * i], level[2 * i + 1])]
  {
    hide PairUp;
    PairUpAt(h, level, i);
  }

  /** The inner loop of MerkleRoot. */
  method NextLevel(h: Hash, level: seq<Bytes>) returns (next: seq<Bytes>)
    ensures next == PairUp(h, level)
  {
    next := [];
    var i := 0;
    while i < |level|
      invariant 0 <= i <= |level| + 1
      invariant i == 2 * |next| && |next| <= (|level| + 1) / 2
      invariant next == PairUp(h, level)[..|next|]
      decreases |level| + 1 - i
    {
      PairUpStep(h, level, |next|);
      if i + 1 == |level| {
        next := next + [level[i]];
      } else {
        next := next + [NodeHash(h, level[i], level[i + 1])];
      }
      i := i + 2;
    }
  }

  method MerkleRoot(h: Hash, recordHashes: seq<Bytes>) returns (root: Bytes)
    ensures root == TreeHash(h, recordHashes)
  {
    if |recordHashes| == 0 {
      return EmptyRoot(h);
    }
    var level := LeafHashes(h, recordHashes);
    while |level| > 1
      invariant level != []
      invariant Tree(h, level) == Tree(h, LeafHashes(h, recordHashes))
      decreases |level|
    {
      PairUpKeepsTree(h, level);
      level := NextLevel(h, level);
    }
    root := level[0];
  }

  // ---- The frontier ----

  /** The entries of the frontier are the roots of consecutive perfect subtrees that together
      cover ds exactly, the last entry covering the last leaves. */
  ghost predicate Covers(h: Hash, ds: seq<Bytes>, subtrees: seq<Bytes>, heights: seq<nat>)
    requires |subtrees| == |heights|
    decreases |heights|
  {
    if heights == [] then ds == []
    else
      var last := |heights| - 1;
      var w := Pow2(heights[last]);
      && w <= |ds|
      && subtrees[last] == Tree(h, ds[|ds| - w..])
      && Covers(h, ds[..|ds| - w], subtrees[..last], heights[..last])
  }

  ghost predicate StrictlyDecreasing(heights: seq<nat>) {
    forall i, j :: 0 <= i < j < |heights| ==> heights[i] > heights[j]
  }

  function SumOfPowers(heights: seq<nat>): nat {
    if heights == [] then 0 else SumOfPowers(heights[..|heights| - 1]) + Pow2(heights[|heights| - 1])
  }

  /** The heights are the binary digits of the leaf count. */
  lemma {:induction false} FrontierIsBinaryCount(h: Hash, ds: seq<Bytes>, subtrees: seq<Bytes>, heights: seq<nat>)
    requires |subtrees| == |heights| && Covers(h, ds, subtrees, heights)
    ensures |ds| == SumOfPowers(heights)
    decreases |heights|
  {
    if heights != [] {
      var last := |heights| - 1;
      FrontierIsBinaryCount(h, ds[..|ds| - Pow2(heights[last])], subtrees[..last], heights[..last]);
    }
  }

  /** Strictly smaller powers sum to less than one larger power, so the frontier's leaf
      counts determine its heights: it has one entry per set bit. */
  lemma {:induction false} SumBelowPower(heights: seq<nat>, bound: nat)
    requires StrictlyDecreasing(heights)
    requires heights != [] ==> heights[0] < bound
    ensures SumOfPowers(heights) < Pow2(bound)
    decreases |heights|
  {
    if heights != [] {
      SumOfPowersHead(heights);
      SumBelowPower(heights[1..], heights[0]);
      Pow2Strict(heights[0], bound);
    }
  }

  lemma {:induction false} SumOfPowersHead(heights: seq<nat>)
    requires heights != []
    ensures SumOfPowers(heights) == Pow2(heights[0]) + SumOfPowers(heights[1..])
    decreases |heights|
  {
    var n := |heights|;
    if n > 1 {
      SumOfPowersHead(heights[..n - 1]);
      assert heights[..n - 1][1..] == heights[1..][..n - 2];
    } else {
      assert heights[..0] == [] && heights[1..] == [];
    }
  }

  lemma {:induction false} FrontierIsUnique(a: seq<nat>, b: seq<nat>)
    requires StrictlyDecreasing(a) && StrictlyDecreasing(b)
    requires SumOfPowers(a) == SumOfPowers(b)
    ensures a == b
    decreases |a|
  {
    if a == [] || b == [] {
      if a != [] { SumOfPowersHead(a); }
      if b != [] { SumOfPowersHead(b); }
    } else {
      SumOfPowersHead(a);
      SumOfPowersHead(b);
      if a[0] < b[0] { SumBelowPower(a, b[0]); }
      if b[0] < a[0] { SumBelowPower(b, a[0]); }
      FrontierIsUnique(a[1..], b[1..]);
      assert a == [a[0]] + a[1..] && b == [b[0]] + b[1..];
    }
  }

  /** A subtree of the given height over the leaves from m on, waiting to join a frontier
      that covers the leaves before m. */
  ghost predicate Pending(h: Hash, ds: seq<Bytes>, m: nat, subtrees: seq<Bytes>, heights: seq<nat>, node: Bytes, height: nat)
    requires |subtrees| == |heights|
  {
    && m <= |ds| && |ds| - m == Pow2(height)
    && node == Tree(h, ds[m..])
    && Covers(h, ds[..m], subtrees, heights)
    && StrictlyDecreasing(heights)
    && (heights != [] ==> heights[|heights| - 1] >= height)
  }

  /** Merging the last frontier entry with an equally high subtree to its right. */
  lemma CarryStep(h: Hash, ds: seq<Bytes>, m: nat, subtrees: seq<Bytes>, heights: seq<nat>, node: Bytes, height: nat)
    requires |subtrees| == |heights| > 0 && Pending(h, ds, m, subtrees, heights, node, height)
    requires heights[|heights| - 1] == height
    ensures var last := |heights| - 1;
            && m >= Pow2(height)
            && Pending(h, ds, m - Pow2(height), subtrees[..last], heights[..last], NodeHash(h, subtrees[last], node), height + 1)
  {
    var k := m - Pow2(height);
    var left := ds[..m][k..];
    TreeSplit(h, left, ds[m..], height);
    assert ds[k..] == left + ds[m..];
    assert ds[..m][..k] == ds[..k];
  }

  lemma PendingJoins(h: Hash, ds: seq<Bytes>, m: nat, subtrees: seq<Bytes>, heights: seq<nat>, node: Bytes, height: nat)
    requires |subtrees| == |heights| && Pending(h, ds, m, subtrees, heights, node, height)
    requires heights != [] ==> heights[|heights| - 1] != height
    ensures Covers(h, ds, subtrees + [node], heights + [height])
    ensures StrictlyDecreasing(heights + [height])
  {
    assert (subtrees + [node])[..|subtrees|] == subtrees;
    assert (heights + [height])[..|heights|] == heights;
  }

  lemma NewLeafPends(h: Hash, leaves: seq<Bytes>, leaf: Bytes, subtrees: seq<Bytes>, heights: seq<nat>)
    requires |subtrees| == |heights| && StrictlyDecreasing(heights)
    requires Covers(h, LeafHashes(h, leaves), subtrees, heights)
    ensures Pending(h, LeafHashes(h, leaves + [leaf]), |leaves|, subtrees, heights, LeafHash(h, leaf), 0)
  {
    var ds := LeafHashes(h, leaves + [leaf]);
    assert ds[|leaves|..] == [LeafHash(h, leaf)];
    assert ds[..|leaves|] == LeafHashes(h, leaves);
  }

  /** The leaves from m on have been folded into node; they are covered by the frontier
      entries from i on. */
  ghost predicate Folded(h: Hash, ds: seq<Bytes>, m: nat, subtrees: seq<Bytes>, heights: seq<nat>, i: nat, node: Bytes)
    requires |subtrees| == |heights|
  {
    && m < |ds| && i < |heights|
    && node == Tree(h, ds[m..])
    && |ds| - m == SumOfPowers(heights[i..])
    && Covers(h, ds[..m], subtrees[..i], heights[..i])
  }

  lemma SomeEntry(h: Hash, ds: seq<Bytes>, subtrees: seq<Bytes>, heights: seq<nat>)
    requires |subtrees| == |heights| && Covers(h, ds, subtrees, heights) && ds != []
    ensures heights != []
  {
  }

  lemma FoldStart(h: Hash, ds: seq<Bytes>, subtrees: seq<Bytes>, heights: seq<nat>)
    requires |subtrees| == |heights| > 0 && Covers(h, ds, subtrees, heights)
    ensures var last := |heights| - 1;
            && Pow2(heights[last]) <= |ds|
            && Folded(h, ds, |ds| - Pow2(heights[last]), subtrees, heights, last, subtrees[last])
  {
    var last := |heights| - 1;
    SumOfPowersHead(heights[last..]);
    assert heights[last..][1..] == [];
  }

  lemma FoldStep(h: Hash, ds: seq<Bytes>, m: nat, subtrees: seq<Bytes>, heights: seq<nat>, i: nat, node: Bytes)
    requires |subtrees| == |heights| && StrictlyDecreasing(heights)
    requires 0 < i < |heights| && Folded(h, ds, m, subtrees, heights, i, node)
    ensures var w := Pow2(heights[i - 1]);
            w <= m && Folded(h, ds, m - w, subtrees, heights, i - 1, NodeHash(h, subtrees[i - 1], node))
  {
    hide Tree, NodeHash;
    var w := Pow2(heights[i - 1]);
    var left := ds[..m][m - w..];
    assert subtrees[..i][..i - 1] == subtrees[..i - 1] && heights[..i][..i - 1] == heights[..i - 1];
    SumBelowPower(heights[i..], heights[i - 1]);
    TreeSplit(h, left, ds[m..], heights[i - 1]);
    assert ds[m - w..] == left + ds[m..];
    assert ds[..m][..m - w] == ds[..m - w];
    SumOfPowersHead(heights[i - 1..]);
    assert heights[i - 1..][1..] == heights[i..];
  }

  lemma FoldDone(h: Hash, ds: seq<Bytes>, m: nat, subtrees: seq<Bytes>, heights: seq<nat>, node: Bytes)
    requires |subtrees| == |heights| && Folded(h, ds, m, subtrees, heights, 0, node)
    ensures node == Tree(h, ds)
  {
    assert ds[..m] == [];
    assert ds[m..] == ds;
  }

  /** Folds the frontier from its newest entry to its oldest. */
  method FoldFrontier(h: Hash, ghost ds: seq<Bytes>, subtrees: seq<Bytes>, heights: seq<nat>) returns (node: Bytes)
    requires |subtrees| == |heights| && StrictlyDecreasing(heights) && Covers(h, ds, subtrees, heights) && ds != []
    ensures node == Tree(h, ds)
  {
    hide Tree, Covers, SumOfPowers, Folded, NodeHash, Pow2, StrictlyDecreasing;
    SomeEntry(h, ds, subtrees, heights);
    FoldStart(h, ds, subtrees, heights);
    node := subtrees[|subtrees| - 1];
    ghost var m: nat := |ds| - Pow2(heights[|heights| - 1]);
    var i := |subtrees| - 2;
    while i >= 0
      invariant -1 <= i <= |subtrees| - 2
      invariant Folded(h, ds, m, subtrees, heights, i + 1, node)
    {
      FoldStep(h, ds, m, subtrees, heights, i + 1, node);
      node := NodeHash(h, subtrees[i], node);
      m := m - Pow2(heights[i]);
      i := i - 1;
    }
    FoldDone(h, ds, m, subtrees, heights, node);
  }

  /** The accumulator of the streaming verify. The leaf counter is a 64-bit word. */
  class MerkleAccumulator {
    const h: Hash
    var subtrees: seq<Bytes>
    var heights: seq<nat>
    var n: nat
    ghost var leaves: seq<Bytes>

    ghost predicate Valid()
      reads this
    {
      && |subtrees| == |heights|
      && StrictlyDecreasing(heights)
      && Covers(h, LeafHashes(h, leaves), subtrees, heights)
      && n == |leaves| % COUNTER_RANGE
    }

    constructor (h: Hash)
      ensures Valid() && leaves == [] && this.h == h
    {
      this.h := h;
      subtrees, heights, n, leaves := [], [], 0, [];
    }

    method Push(recordHash: Bytes)
      requires Valid()
      modifies this
      ensures Valid()
      ensures leaves == old(leaves) + [recordHash]
    {
      hide Tree, Covers, NodeHash, Pow2, StrictlyDecreasing, LeafHash, Pending, LeafHashes;
      ghost var ds := LeafHashes(h, leaves + [recordHash]);
      ghost var m: nat := |leaves|;
      NewLeafPends(h, leaves, recordHash, subtrees, heights);
      var node := LeafHash(h, recordHash);
      var height := 0;
      while |heights| > 0 && heights[|heights| - 1] == height
        invariant |subtrees| == |heights|
        invariant Pending(h, ds, m, subtrees, heights, node, height)
        invariant leaves == old(leaves) && n == old(n)
        decreases |heights|
      {
        CarryStep(h, ds, m, subtrees, heights, node, height);
        var left := subtrees[|subtrees| - 1];
        subtrees := subtrees[..|subtrees| - 1];
        heights := heights[..|heights| - 1];
        node := NodeHash(h, left, node);
        m := m - Pow2(height);
        height := height + 1;
      }
      PendingJoins(h, ds, m, subtrees, heights, node, height);
      subtrees := subtrees + [node];
      heights := heights + [height];
      n := (n + 1) % COUNTER_RANGE;
      leaves := leaves + [recordHash];
    }

    /** The root is the tree hash of everything pushed, unless exactly a positive multiple of
        2^64 leaves was pushed and the counter has come back to zero. The frontier is only
        read, so more leaves can be pushed afterwards. */
    method Root() returns (root: Bytes)
      requires Valid()
      ensures root == if |leaves| % COUNTER_RANGE == 0 then EmptyRoot(h) else TreeHash(h, leaves)
    {
      if n == 0 {
        return EmptyRoot(h);
      }
      hide Tree, Covers, StrictlyDecreasing, LeafHashes;
      root := FoldFrontier(h, LeafHashes(h, leaves), subtrees, heights);
    }
  }

  const COUNTER_RANGE: nat := 0x1_0000_0000_0000_0000

  // ---- What a root commits to ----

  lemma TreeLength(h: Hash, len: nat, leaves: seq<Bytes>)
    requires leaves != [] && forall z :: |h(z)| == len
    ensures |Tree(h, LeafHashes(h, leaves))| == len
  {
  }

  lemma LeafHashesSplit(h: Hash, leaves: seq<Bytes>, k: nat)
    requires k <= |leaves|
    ensures LeafHashes(h, leaves)[..k] == LeafHashes(h, leaves[..k]) && LeafHashes(h, leaves)[k..] == LeafHashes(h, leaves[k..])
  {
  }

  /** The input of the hash that a tree's root is the output of. */
  function RootInput(h: Hash, leaves: seq<Bytes>): Bytes {
    if leaves == [] then []
    else if |leaves| == 1 then [0x00] + leaves[0]
    else
      var k := Pow2(SplitLog(|leaves|));
      [0x01] + Tree(h, LeafHashes(h, leaves[..k])) + Tree(h, LeafHashes(h, leaves[k..]))
  }

  lemma RootIsHash(h: Hash, leaves: seq<Bytes>)
    ensures TreeHash(h, leaves) == h(RootInput(h, leaves))
  {
    if |leaves| > 1 {
      LeafHashesSplit(h, leaves, Pow2(SplitLog(|leaves|)));
    }
  }

  /** Leaves and inner nodes are hashed apart, so two lists of leaves with one root always show a
      collision of the hash itself: a list cannot stand in for another by its inner nodes. */
  lemma {:induction false} SameRootShowsCollision(h: Hash, len: nat, a: seq<Bytes>, b: seq<Bytes>) returns (x: Bytes, y: Bytes)
    requires forall z :: |h(z)| == len
    requires a != b && TreeHash(h, a) == TreeHash(h, b)
    ensures x != y && h(x) == h(y)
    decreases |a|
  {
    hide Tree, LeafHashes;
    RootIsHash(h, a);
    RootIsHash(h, b);
    x, y := RootInput(h, a), RootInput(h, b);
    if x == y {
      SameShape(h, a, b);
      var j, k := Pow2(SplitLog(|a|)), Pow2(SplitLog(|b|));
      SameHalves(h, len, a, j, b, k);
      if a[..j] != b[..k] {
        x, y := SameRootShowsCollision(h, len, a[..j], b[..k]);
      } else {
        assert a == a[..j] + a[j..] && b == b[..k] + b[k..];
        x, y := SameRootShowsCollision(h, len, a[j..], b[k..]);
      }
    }
  }

  lemma InputShape(h: Hash, a: seq<Bytes>)
    ensures var x := RootInput(h, a);
            && (a == [] <==> x == [])
            && (|a| == 1 ==> x[0] == 0x00 && a == [x[1..]])
            && (|a| > 1 ==> x[0] == 0x01)
  {
    hide Tree, LeafHashes;
  }

  lemma SameShape(h: Hash, a: seq<Bytes>, b: seq<Bytes>)
    requires RootInput(h, a) == RootInput(h, b) && a != b
    ensures |a| > 1 && |b| > 1
  {
    hide RootInput;
    InputShape(h, a);
    InputShape(h, b);
  }

  lemma SameHalves(h: Hash, len: nat, a: seq<Bytes>, j: nat, b: seq<Bytes>, k: nat)
    requires forall z :: |h(z)| == len
    requires |a| > 1 && |b| > 1 && j == Pow2(SplitLog(|a|)) && k == Pow2(SplitLog(|b|))
    requires RootInput(h, a) == RootInput(h, b)
    ensures TreeHash(h, a[..j]) == TreeHash(h, b[..k]) && TreeHash(h, a[j..]) == TreeHash(h, b[k..])
  {
    hide Tree, LeafHashes;
    TreeLength(h, len, a[..j]);
    TreeLength(h, len, b[..k]);
    var x, y := RootInput(h, a), RootInput(h, b);
    assert x[1..][..len] == Tree(h, LeafHashes(h, a[..j])) && y[1..][..len] == Tree(h, LeafHashes(h, b[..k]));
    assert x[1..][len..] == Tree(h, LeafHashes(h, a[j..])) && y[1..][len..] == Tree(h, LeafHashes(h, b[k..]));
  }
}
