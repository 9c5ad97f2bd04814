/** What too few shares say. */
module Secrecy {
  // Through fewer points than the threshold a polynomial of the split's degree passes with any
  // value at zero, so too few shares fit every secret alike.
  import opened Gf256
  import opened Interpolation
  import opened Shamir

  // ---- Polynomials by their coefficients ----

  lemma {:induction false} EvalPointAdd(a: seq<Gf>, b: seq<Gf>, x: Gf)
    requires |a| == |b|
    ensures Eval(PointAdd(a, b), x) == Add(Eval(a, x), Eval(b, x))
  {
    hide Add, Mul;
    if a == [] {
      AddLaws(ZERO, ZERO, ZERO);
    } else {
      EvalPointAdd(a[1..], b[1..], x);
      assert PointAdd(a, b)[1..] == PointAdd(a[1..], b[1..]);
      var u, v := Eval(a[1..], x), Eval(b[1..], x);
      MulDistributes(x, u, v);
      AddShuffle(a[0], b[0], Mul(x, u), Mul(x, v));
    }
  }

  lemma {:induction false} EvalScale(k: Gf, a: seq<Gf>, x: Gf)
    ensures Eval(Scale(k, a), x) == Mul(k, Eval(a, x))
  {
    hide Add, Mul;
    if a == [] {
      MulZero(k);
    } else {
      EvalScale(k, a[1..], x);
      assert Scale(k, a)[1..] == Scale(k, a[1..]);
      var u := Eval(a[1..], x);
      MulSwap(x, k, u);
      MulDistributes(k, a[0], Mul(x, u));
    }
  }

  lemma EvalShift(a: seq<Gf>, x: Gf)
    ensures Eval([ZERO] + a, x) == Mul(x, Eval(a, x))
  {
    hide Add, Mul;
    assert ([ZERO] + a)[1..] == a;
    AddLaws(Mul(x, Eval(a, x)), ZERO, ZERO);
  }

  function Zeros(n: nat): (z: seq<Gf>)
    ensures |z| == n
  {
    seq(n, i => ZERO)
  }

  lemma {:induction false} EvalZeros(n: nat, x: Gf)
    ensures Eval(Zeros(n), x) == ZERO
  {
    hide Add, Mul;
    if n > 0 {
      EvalZeros(n - 1, x);
      assert Zeros(n)[1..] == Zeros(n - 1);
      MulZero(x);
      AddLaws(ZERO, ZERO, ZERO);
    }
  }

  lemma {:induction false} EvalPadded(a: seq<Gf>, n: nat, x: Gf)
    ensures Eval(a + Zeros(n), x) == Eval(a, x)
  {
    hide Add, Mul;
    if a == [] {
      assert a + Zeros(n) == Zeros(n);
      EvalZeros(n, x);
    } else {
      EvalPadded(a[1..], n, x);
      assert (a + Zeros(n))[1..] == a[1..] + Zeros(n);
    }
  }

  /** a times (x + r). */
  function TimesRoot(a: seq<Gf>, r: Gf): (p: seq<Gf>)
    ensures |p| == |a| + 1
  {
    PointAdd([ZERO] + a, Scale(r, a) + Zeros(1))
  }

  lemma EvalTimesRoot(a: seq<Gf>, r: Gf, x: Gf)
    ensures Eval(TimesRoot(a, r), x) == Mul(Add(x, r), Eval(a, x))
  {
    hide Add, Mul, Eval, Zeros;
    EvalPointAdd([ZERO] + a, Scale(r, a) + Zeros(1), x);
    EvalShift(a, x);
    EvalPadded(Scale(r, a), 1, x);
    EvalScale(r, a, x);
    MulDistributesLeft(x, r, Eval(a, x));
  }

  /** A polynomial that is zero at zero and at the given points, and nowhere else. */
  function Vanishing(xs: seq<Gf>): (p: seq<Gf>)
    ensures |p| == |xs| + 2
  {
    if xs == [] then [ZERO, ONE] else TimesRoot(Vanishing(xs[..|xs| - 1]), xs[|xs| - 1])
  }

  lemma {:induction false} VanishesAt(xs: seq<Gf>, x: Gf)
    ensures Eval(Vanishing(xs), x) == ZERO <==> x == ZERO || x in xs
  {
    hide Add, Mul, TimesRoot;
    if xs == [] {
      IdentityAt(x);
    } else {
      var n := |xs| - 1;
      VanishesAt(xs[..n], x);
      EvalTimesRoot(Vanishing(xs[..n]), xs[n], x);
      ZeroProduct(Add(x, xs[n]), Eval(Vanishing(xs[..n]), x));
      AddLaws(x, xs[n], ZERO);
      assert xs == xs[..n] + [xs[n]];
    }
  }

  lemma IdentityAt(x: Gf)
    ensures Eval([ZERO, ONE], x) == x
  {
    hide Add, Mul;
    EvalShift([ONE], x);
    assert [ZERO] + [ONE] == [ZERO, ONE];
    assert Eval([ONE], x) == Add(ONE, Mul(x, ZERO)) by { assert [ONE][1..] == []; }
    MulZero(x);
    AddLaws(ONE, ZERO, ZERO);
    MulOne(x);
  }

  lemma ZeroProduct(a: Gf, b: Gf)
    ensures Mul(a, b) == ZERO <==> a == ZERO || b == ZERO
  {
    hide Mul;
    if a != ZERO && b != ZERO {
      MulNonzero(a, b);
    }
    MulZero(a);
    MulZero(b);
  }

  lemma AtZero(c: seq<Gf>)
    requires c != []
    ensures Eval(c, ZERO) == c[0]
  {
    hide Add, Mul;
    MulZero(Eval(c[1..], ZERO));
    AddLaws(c[0], ZERO, ZERO);
  }

  // ---- Fitting any value at zero ----

  ghost predicate Fits(c: seq<Gf>, xs: seq<Gf>, ys: seq<Gf>)
    requires |xs| == |ys|
  {
    forall i :: 0 <= i < |xs| ==> Eval(c, xs[i]) == ys[i]
  }

  /** Bending a polynomial to one more point leaves it as it was at zero and at the others. */
  lemma Bend(c: seq<Gf>, v: seq<Gf>, x: Gf, y: Gf) returns (bent: seq<Gf>)
    requires |v| == |c| && Eval(v, x) != ZERO
    ensures |bent| == |c| && Eval(bent, x) == y
    ensures forall w :: Eval(v, w) == ZERO ==> Eval(bent, w) == Eval(c, w)
  {
    hide Add, Mul, Inv, Eval;
    var gap := Add(Eval(c, x), y);
    var t := Mul(gap, Inv(Eval(v, x)));
    bent := PointAdd(c, Scale(t, v));
    forall w
      ensures Eval(bent, w) == Add(Eval(c, w), Mul(t, Eval(v, w)))
    {
      EvalPointAdd(c, Scale(t, v), w);
      EvalScale(t, v, w);
    }
    MulAssociates(gap, Inv(Eval(v, x)), Eval(v, x));
    MulOne(gap);
    AddLaws(Eval(c, x), Eval(c, x), y);
    AddLaws(y, ZERO, ZERO);
    forall w | Eval(v, w) == ZERO
      ensures Eval(bent, w) == Eval(c, w)
    {
      MulZero(t);
      AddLaws(Eval(c, w), ZERO, ZERO);
    }
  }

  /** Through fewer points than coefficients, off zero, there is a polynomial with any constant
      term. */
  lemma {:induction false} FitAnySecret(xs: seq<Gf>, ys: seq<Gf>, k: nat, s: Gf) returns (c: seq<Gf>)
    requires Distinct(xs) && ZERO !in xs && |xs| == |ys| < k
    ensures |c| == k && c[0] == s && Fits(c, xs, ys)
    decreases |xs|
  {
    hide Add, Mul, Eval, Vanishing, Zeros;
    if xs == [] {
      c := [s] + Zeros(k - 1);
    } else {
      var n := |xs| - 1;
      var before := FitAnySecret(xs[..n], ys[..n], k, s);
      var v := Vanishing(xs[..n]) + Zeros(k - n - 2);
      forall w
        ensures Eval(v, w) == ZERO <==> w == ZERO || w in xs[..n]
      {
        EvalPadded(Vanishing(xs[..n]), k - n - 2, w);
        VanishesAt(xs[..n], w);
      }
      c := Bend(before, v, xs[n], ys[n]);
      AtZero(before);
      AtZero(c);
      forall i | 0 <= i < n
        ensures Eval(c, xs[i]) == ys[i]
      {
        assert xs[i] == xs[..n][i] && ys[i] == ys[..n][i];
      }
    }
  }

  /** Fewer shares than the threshold fit every secret: for each there is a split of that
      threshold with these very shares. */
  lemma TooFewSharesFitAnySecret(shares: seq<Share>, threshold: nat, secret: seq<Gf>) returns (polys: seq<seq<Gf>>)
    requires Acceptable(shares, |shares|) && |shares| < threshold && |secret| == SECRET_BYTES
    ensures IsSplit(polys, threshold) && Secret(polys, threshold) == secret
    ensures forall i :: 0 <= i < |shares| ==> IsShareOf(shares[i], polys)
  {
    hide Eval, Distinct;
    var xs := Indices(shares);
    assert ZERO !in xs;
    polys := [];
    for b := 0 to SECRET_BYTES
      invariant |polys| == b
      invariant forall d :: 0 <= d < b ==> |polys[d]| == threshold && polys[d][0] == secret[d]
      invariant forall d, i :: 0 <= d < b && 0 <= i < |shares| ==> shares[i][1 + d] == Eval(polys[d], shares[i][0])
    {
      var ys := seq(|shares|, i requires 0 <= i < |shares| => shares[i][1 + b]);
      var c := FitAnySecret(xs, ys, threshold, secret[b]);
      forall i | 0 <= i < |shares|
        ensures shares[i][1 + b] == Eval(c, shares[i][0])
      {
        assert Eval(c, xs[i]) == ys[i];
      }
      polys := polys + [c];
    }
  }
}
