/** Lagrange interpolation at zero over GF(2^8): the weights of m distinct points reproduce
    the constant term of every polynomial of degree below m. */
module Interpolation {
  import opened Gf256

  // ---- Sums and products over sequences ----

  function Sum(s: seq<Gf>): Gf {
    if s == [] then ZERO else Add(Sum(s[..|s| - 1]), s[|s| - 1])
  }

  function Product(s: seq<Gf>): Gf {
    if s == [] then ONE else Mul(Product(s[..|s| - 1]), s[|s| - 1])
  }

  function Scale(k: Gf, s: seq<Gf>): (r: seq<Gf>)
    ensures |r| == |s|
  {
    seq(|s|, i requires 0 <= i < |s| => Mul(k, s[i]))
  }

  function PointAdd(a: seq<Gf>, b: seq<Gf>): (r: seq<Gf>)
    requires |a| == |b|
    ensures |r| == |a|
  {
    seq(|a|, i requires 0 <= i < |a| => Add(a[i], b[i]))
  }

  lemma SumSnoc(s: seq<Gf>, x: Gf)
    ensures Sum(s + [x]) == Add(Sum(s), x)
  {
    assert (s + [x])[..|s|] == s;
  }

  lemma {:induction false} SumConsZero(s: seq<Gf>)
    ensures Sum([ZERO] + s) == Sum(s)
  {
    hide Add;
    if s == [] {
      SumSnoc([], ZERO);
      assert [ZERO] + s == [] + [ZERO];
      AddLaws(ZERO, ZERO, ZERO);
    } else {
      var n := |s| - 1;
      SumConsZero(s[..n]);
      assert [ZERO] + s == ([ZERO] + s[..n]) + [s[n]];
      SumSnoc([ZERO] + s[..n], s[n]);
    }
  }

  lemma {:induction false} SumScale(k: Gf, s: seq<Gf>)
    ensures Sum(Scale(k, s)) == Mul(k, Sum(s))
  {
    hide Add, Mul;
    if s == [] {
      MulZero(k);
    } else {
      var n := |s| - 1;
      SumScale(k, s[..n]);
      assert Scale(k, s) == Scale(k, s[..n]) + [Mul(k, s[n])];
      SumSnoc(Scale(k, s[..n]), Mul(k, s[n]));
      MulDistributes(k, Sum(s[..n]), s[n]);
    }
  }

  lemma {:induction false} SumPointAdd(a: seq<Gf>, b: seq<Gf>)
    requires |a| == |b|
    ensures Sum(PointAdd(a, b)) == Add(Sum(a), Sum(b))
  {
    hide Add;
    if a == [] {
      AddLaws(ZERO, ZERO, ZERO);
    } else {
      var n := |a| - 1;
      SumPointAdd(a[..n], b[..n]);
      assert PointAdd(a, b) == PointAdd(a[..n], b[..n]) + [Add(a[n], b[n])];
      SumSnoc(PointAdd(a[..n], b[..n]), Add(a[n], b[n]));
      AddShuffle(Sum(a[..n]), Sum(b[..n]), a[n], b[n]);
    }
  }

  // ---- Small field facts ----

  lemma MulSwap(a: Gf, b: Gf, c: Gf)
    ensures Mul(a, Mul(b, c)) == Mul(b, Mul(a, c))
    ensures Mul(Mul(a, b), c) == Mul(Mul(a, c), b)
  {
    hide Mul;
    MulAssociates(a, b, c);
    MulAssociates(b, a, c);
    MulCommutes(a, b);
    MulAssociates(a, c, b);
    MulCommutes(b, c);
  }

  lemma MulShuffle(a: Gf, b: Gf, c: Gf, d: Gf)
    ensures Mul(Mul(a, b), Mul(c, d)) == Mul(Mul(a, c), Mul(b, d))
  {
    hide Mul;
    MulAssociates(a, b, Mul(c, d));
    MulSwap(b, c, d);
    MulAssociates(a, c, Mul(b, d));
  }

  lemma MulDistributesLeft(a: Gf, b: Gf, c: Gf)
    ensures Mul(Add(a, b), c) == Add(Mul(a, c), Mul(b, c))
  {
    hide Mul, Add;
    MulDistributes(c, a, b);
    MulCommutes(Add(a, b), c);
    MulCommutes(a, c);
    MulCommutes(b, c);
  }

  lemma Cancel(k: Gf, a: Gf)
    requires k != ZERO && Mul(k, a) == k
    ensures a == ONE
  {
    hide Mul, Inv;
    MulAssociates(Inv(k), k, a);
    MulOne(a);
  }

  lemma InverseUnique(a: Gf, b: Gf)
    requires a != ZERO && Mul(a, b) == ONE
    ensures b == Inv(a)
  {
    hide Mul, Inv;
    MulAssociates(Inv(a), a, b);
    MulOne(b);
    MulOne(Inv(a));
  }

  lemma InverseOfProduct(a: Gf, b: Gf)
    requires a != ZERO && b != ZERO
    ensures Mul(a, b) != ZERO && Inv(Mul(a, b)) == Mul(Inv(a), Inv(b))
  {
    hide Mul, Inv;
    MulNonzero(a, b);
    MulShuffle(a, b, Inv(a), Inv(b));
    MulOne(ONE);
    InverseUnique(Mul(a, b), Mul(Inv(a), Inv(b)));
  }

  // ---- Lagrange weights at zero ----

  ghost predicate Distinct(xs: seq<Gf>) {
    forall i, j :: 0 <= i < j < |xs| ==> xs[i] != xs[j]
  }

  /** Everything but entry i. */
  function Others(xs: seq<Gf>, i: nat): (r: seq<Gf>) {
    if i < |xs| then xs[..i] + xs[i + 1..] else xs
  }

  function Differences(x: Gf, s: seq<Gf>): (r: seq<Gf>)
    ensures |r| == |s|
  {
    seq(|s|, j requires 0 <= j < |s| => Add(x, s[j]))
  }

  /** y / (y - x). */
  ghost function Ratio(x: Gf, y: Gf): (r: Gf)
    requires x != y
    ensures Mul(r, Add(y, x)) == y
  {
    hide Mul, Add, Inv;
    AddLaws(y, x, ZERO);
    MulAssociates(y, Inv(Add(y, x)), Add(y, x));
    MulOne(y);
    Mul(y, Inv(Add(y, x)))
  }

  ghost function Ratios(x: Gf, s: seq<Gf>): Gf
    requires x !in s
  {
    if s == [] then ONE else Mul(Ratios(x, s[..|s| - 1]), Ratio(x, s[|s| - 1]))
  }

  lemma RatiosSnoc(x: Gf, s: seq<Gf>, y: Gf)
    requires x !in s && x != y
    ensures x !in s + [y] && Ratios(x, s + [y]) == Mul(Ratios(x, s), Ratio(x, y))
  {
    assert (s + [y])[..|s|] == s;
  }

  lemma {:induction false} RatiosCons(x: Gf, s: seq<Gf>, y: Gf)
    requires x !in s && x != y
    ensures x !in [y] + s && Ratios(x, [y] + s) == Mul(Ratio(x, y), Ratios(x, s))
  {
    hide Mul, Ratio;
    if s == [] {
      RatiosSnoc(x, [], y);
      assert [y] + s == [] + [y];
      MulOne(Ratio(x, y));
    } else {
      var n := |s| - 1;
      RatiosCons(x, s[..n], y);
      assert [y] + s == ([y] + s[..n]) + [s[n]];
      RatiosSnoc(x, [y] + s[..n], s[n]);
      MulAssociates(Ratio(x, y), Ratios(x, s[..n]), Ratio(x, s[n]));
    }
  }

  /** The weight as the product of ratios. */
  ghost function Weight(xs: seq<Gf>, i: nat): Gf
    requires Distinct(xs) && i < |xs|
  {
    Ratios(xs[i], Others(xs, i))
  }

  ghost function Weights(xs: seq<Gf>): (r: seq<Gf>)
    requires Distinct(xs)
    ensures |r| == |xs|
  {
    seq(|xs|, i requires 0 <= i < |xs| => Weight(xs, i))
  }

  lemma ProductSnoc(s: seq<Gf>, x: Gf)
    ensures Product(s + [x]) == Mul(Product(s), x)
  {
    assert (s + [x])[..|s|] == s;
  }

  /** One product over another equals the product of the ratios. */
  lemma {:induction false} ProductsToRatios(x: Gf, s: seq<Gf>)
    requires x !in s
    ensures Product(Differences(x, s)) != ZERO
    ensures Mul(Product(s), Inv(Product(Differences(x, s)))) == Ratios(x, s)
  {
    hide Mul, Add, Inv;
    if s == [] {
      assert Differences(x, s) == [];
      MulOne(ONE);
      InverseUnique(ONE, ONE);
    } else {
      var n := |s| - 1;
      var d := Add(x, s[n]);
      ProductsToRatios(x, s[..n]);
      assert Differences(x, s) == Differences(x, s[..n]) + [d];
      ProductSnoc(Differences(x, s[..n]), d);
      AddLaws(x, s[n], ZERO);
      InverseOfProduct(Product(Differences(x, s[..n])), d);
      MulShuffle(Product(s[..n]), s[n], Inv(Product(Differences(x, s[..n]))), Inv(d));
    }
  }

  // ---- The weights of m points and of m - 1 points ----

  lemma WeightDropLast(xs: seq<Gf>, i: nat)
    requires Distinct(xs) && i < |xs| - 1 && Distinct(xs[..|xs| - 1])
    ensures var z := xs[|xs| - 1];
            Mul(Weight(xs, i), Add(z, xs[i])) == Mul(z, Weight(xs[..|xs| - 1], i))
  {
    hide Mul, Add, Ratio, Ratios;
    var a, z := xs[..|xs| - 1], xs[|xs| - 1];
    var w, r := Weight(a, i), Ratio(xs[i], z);
    assert xs[i + 1..] == a[i + 1..] + [z];
    assert Others(xs, i) == Others(a, i) + [z];
    RatiosSnoc(xs[i], Others(a, i), z);
    MulAssociates(w, r, Add(z, xs[i]));
    MulCommutes(w, z);
  }

  lemma WeightDropFirst(xs: seq<Gf>, i: nat)
    requires Distinct(xs) && 0 < i < |xs| && Distinct(xs[1..])
    ensures Mul(Weight(xs, i), Add(xs[0], xs[i])) == Mul(xs[0], Weight(xs[1..], i - 1))
  {
    hide Mul, Add, Ratio, Ratios;
    var b, a := xs[1..], xs[0];
    var w, r := Weight(b, i - 1), Ratio(xs[i], a);
    assert Others(xs, i) == [a] + Others(b, i - 1);
    RatiosCons(xs[i], Others(b, i - 1), a);
    MulSwap(r, w, Add(a, xs[i]));
    MulCommutes(a, w);
    MulAssociates(r, Add(a, xs[i]), w);
  }

  /** Neville's step at zero, weight by weight. */
  lemma NevilleStep(xs: seq<Gf>, i: nat)
    requires Distinct(xs) && |xs| >= 2 && i < |xs|
    requires Distinct(xs[1..]) && Distinct(xs[..|xs| - 1])
    ensures var m, a, z := |xs|, xs[0], xs[|xs| - 1];
            Mul(Add(z, a), Weight(xs, i)) ==
            Add(if i < m - 1 then Mul(z, Weight(xs[..m - 1], i)) else ZERO,
                if i > 0 then Mul(a, Weight(xs[1..], i - 1)) else ZERO)
  {
    hide Mul, Add, Weight;
    var m, a, z := |xs|, xs[0], xs[|xs| - 1];
    var w := Weight(xs, i);
    MulCommutes(Add(z, a), w);
    AddLaws(z, a, ZERO);
    if i == 0 {
      WeightDropLast(xs, 0);
      AddLaws(Mul(z, Weight(xs[..m - 1], 0)), ZERO, ZERO);
    } else if i == m - 1 {
      WeightDropFirst(xs, i);
      AddLaws(ZERO, Mul(a, Weight(xs[1..], i - 1)), ZERO);
      AddLaws(Mul(a, Weight(xs[1..], i - 1)), ZERO, ZERO);
    } else {
      WeightDropLast(xs, i);
      WeightDropFirst(xs, i);
      MulDistributes(w, Add(z, xs[i]), Add(a, xs[i]));
      AddShuffle(z, xs[i], a, xs[i]);
      AddLaws(xs[i], xs[i], ZERO);
      AddLaws(Add(z, a), ZERO, ZERO);
    }
  }

  lemma DistinctParts(xs: seq<Gf>)
    requires Distinct(xs) && |xs| > 0
    ensures Distinct(xs[..|xs| - 1]) && Distinct(xs[1..])
  {
  }

  /** The weights sum to one. */
  lemma {:induction false} WeightsSumToOne(xs: seq<Gf>)
    requires Distinct(xs) && |xs| >= 1
    ensures Sum(Weights(xs)) == ONE
    decreases |xs|
  {
    hide Mul, Add, Weight, Sum;
    if |xs| == 1 {
      SinglePoint(xs);
    } else {
      var m, a, z := |xs|, xs[0], xs[|xs| - 1];
      DistinctParts(xs);
      var wa, wb := Weights(xs[..m - 1]), Weights(xs[1..]);
      var left, right := Scale(z, wa) + [ZERO], [ZERO] + Scale(a, wb);
      forall i | 0 <= i < m
        ensures Scale(Add(z, a), Weights(xs))[i] == PointAdd(left, right)[i]
      {
        NevilleStep(xs, i);
      }
      assert Scale(Add(z, a), Weights(xs)) == PointAdd(left, right);
      WeightsSumToOne(xs[..m - 1]);
      WeightsSumToOne(xs[1..]);
      NevilleSum(z, a, Weights(xs), wa, wb);
      AddLaws(z, a, ZERO);
      Cancel(Add(z, a), Sum(Weights(xs)));
    }
  }

  lemma SinglePoint(xs: seq<Gf>)
    requires |xs| == 1
    ensures Sum(Weights(xs)) == ONE
  {
    hide Mul, Add;
    assert Others(xs, 0) == [];
    assert Weights(xs) == [] + [ONE];
    SumSnoc([], ONE);
    AddLaws(ONE, ZERO, ZERO);
  }

  lemma NevilleSum(z: Gf, a: Gf, w: seq<Gf>, wa: seq<Gf>, wb: seq<Gf>)
    requires |w| == |wa| + 1 == |wb| + 1
    requires Scale(Add(z, a), w) == PointAdd(Scale(z, wa) + [ZERO], [ZERO] + Scale(a, wb))
    requires Sum(wa) == ONE && Sum(wb) == ONE
    ensures Mul(Add(z, a), Sum(w)) == Add(z, a)
  {
    hide Mul, Add, Sum;
    SumScale(Add(z, a), w);
    SumPointAdd(Scale(z, wa) + [ZERO], [ZERO] + Scale(a, wb));
    SumSnoc(Scale(z, wa), ZERO);
    AddLaws(Sum(Scale(z, wa)), ZERO, ZERO);
    SumConsZero(Scale(a, wb));
    SumScale(z, wa);
    SumScale(a, wb);
    MulOne(z);
    MulOne(a);
  }

  // ---- Monomials ----

  function Power(x: Gf, d: nat): Gf {
    if d == 0 then ONE else Mul(x, Power(x, d - 1))
  }

  /** The weighted powers W_i x_i^d. */
  ghost function Moments(xs: seq<Gf>, d: nat): (r: seq<Gf>)
    requires Distinct(xs)
    ensures |r| == |xs|
  {
    seq(|xs|, i requires 0 <= i < |xs| => Mul(Weight(xs, i), Power(xs[i], d)))
  }

  lemma MomentStep(xs: seq<Gf>, d: nat, i: nat)
    requires Distinct(xs) && i < |xs| && d > 0 && Distinct(xs[..|xs| - 1])
    ensures var m, z := |xs|, xs[|xs| - 1];
            Mul(Weight(xs, i), Power(xs[i], d)) ==
            Add(if i < m - 1 then Mul(z, Mul(Weight(xs[..m - 1], i), Power(xs[i], d - 1))) else ZERO,
                Mul(z, Mul(Weight(xs, i), Power(xs[i], d - 1))))
  {
    hide Mul, Add, Weight;
    var m, z := |xs|, xs[|xs| - 1];
    var w, x, p := Weight(xs, i), xs[i], Power(xs[i], d - 1);
    // w * (x * p) == (w * x) * p, and x == (z + x) + z
    MulAssociates(w, x, p);
    AddLaws(z, x, z);
    AddLaws(x, z, z);
    AddLaws(z, z, ZERO);
    AddLaws(x, ZERO, ZERO);
    assert x == Add(Add(z, x), z) by {
      AddLaws(Add(z, x), z, ZERO);
    }
    MulDistributes(w, Add(z, x), z);
    MulDistributesLeft(Mul(w, Add(z, x)), Mul(w, z), p);
    MulSwap(w, z, p);
    MulAssociates(w, z, p);
    if i < m - 1 {
      WeightDropLast(xs, i);
      MulAssociates(z, Weight(xs[..m - 1], i), p);
    } else {
      MulZero(w);
      MulZero(p);
    }
  }

  /** For d below the number of points the weighted powers sum to zero, except for d = 0. */
  lemma {:induction false} MomentsSum(xs: seq<Gf>, d: nat)
    requires Distinct(xs) && d < |xs|
    ensures Sum(Moments(xs, d)) == if d == 0 then ONE else ZERO
    decreases d, |xs|
  {
    hide Mul, Add, Weight, Sum, Power;
    if d == 0 {
      forall i | 0 <= i < |xs|
        ensures Moments(xs, 0)[i] == Weights(xs)[i]
      {
        PowerZeroIsOne(xs[i]);
        MulOne(Weight(xs, i));
      }
      assert Moments(xs, 0) == Weights(xs);
      WeightsSumToOne(xs);
    } else {
      var m, z := |xs|, xs[|xs| - 1];
      DistinctParts(xs);
      var short, long := Moments(xs[..m - 1], d - 1), Moments(xs, d - 1);
      forall i | 0 <= i < m
        ensures Moments(xs, d)[i] == PointAdd(Scale(z, short) + [ZERO], Scale(z, long))[i]
      {
        MomentStep(xs, d, i);
      }
      assert Moments(xs, d) == PointAdd(Scale(z, short) + [ZERO], Scale(z, long));
      MomentsSum(xs[..m - 1], d - 1);
      MomentsSum(xs, d - 1);
      EqualSumsCancel(z, short, long);
    }
  }

  lemma PowerZeroIsOne(x: Gf)
    ensures Power(x, 0) == ONE
  {
  }

  lemma EqualSumsCancel(z: Gf, short: seq<Gf>, long: seq<Gf>)
    requires |long| == |short| + 1 && Sum(short) == Sum(long)
    ensures Sum(PointAdd(Scale(z, short) + [ZERO], Scale(z, long))) == ZERO
  {
    hide Mul, Add, Sum;
    SumPointAdd(Scale(z, short) + [ZERO], Scale(z, long));
    SumSnoc(Scale(z, short), ZERO);
    AddLaws(Sum(Scale(z, short)), ZERO, ZERO);
    SumScale(z, short);
    SumScale(z, long);
    AddLaws(Mul(z, Sum(short)), Mul(z, Sum(long)), ZERO);
  }

  // ---- Polynomials ----

  /** The value at x of the polynomial with coefficients c, lowest degree first. */
  function Eval(c: seq<Gf>, x: Gf): Gf {
    if c == [] then ZERO else Add(c[0], Mul(x, Eval(c[1..], x)))
  }

  ghost function WeightedValues(xs: seq<Gf>, c: seq<Gf>, d: nat): (r: seq<Gf>)
    requires Distinct(xs)
    ensures |r| == |xs|
  {
    seq(|xs|, i requires 0 <= i < |xs| => Mul(Weight(xs, i), Mul(Power(xs[i], d), Eval(c, xs[i]))))
  }

  lemma PeelCoefficient(w: Gf, x: Gf, c: seq<Gf>, d: nat)
    requires c != []
    ensures Mul(w, Mul(Power(x, d), Eval(c, x))) ==
            Add(Mul(c[0], Mul(w, Power(x, d))), Mul(w, Mul(Power(x, d + 1), Eval(c[1..], x))))
  {
    hide Mul, Add;
    var p, e := Power(x, d), Eval(c[1..], x);
    MulDistributes(p, c[0], Mul(x, e));
    MulDistributes(w, Mul(p, c[0]), Mul(p, Mul(x, e)));
    MulCommutes(p, c[0]);
    MulSwap(w, c[0], p);
    MulSwap(p, x, e);
    MulAssociates(x, p, e);
  }

  lemma {:induction false} WeightedValuesSum(xs: seq<Gf>, c: seq<Gf>, d: nat)
    requires Distinct(xs) && d + |c| <= |xs|
    ensures Sum(WeightedValues(xs, c, d)) == if d == 0 && c != [] then c[0] else ZERO
    decreases |c|
  {
    hide Mul, Add, Weight, Sum, Power, Eval;
    if c == [] {
      NoCoefficients(xs, d);
    } else {
      var head, tail := Moments(xs, d), WeightedValues(xs, c[1..], d + 1);
      forall i | 0 <= i < |xs|
        ensures WeightedValues(xs, c, d)[i] == PointAdd(Scale(c[0], head), tail)[i]
      {
        PeelCoefficient(Weight(xs, i), xs[i], c, d);
      }
      assert WeightedValues(xs, c, d) == PointAdd(Scale(c[0], head), tail);
      SumPointAdd(Scale(c[0], head), tail);
      SumScale(c[0], head);
      MomentsSum(xs, d);
      WeightedValuesSum(xs, c[1..], d + 1);
      MulOne(c[0]);
      MulZero(c[0]);
      AddLaws(c[0], ZERO, ZERO);
      AddLaws(ZERO, ZERO, ZERO);
    }
  }

  lemma NoCoefficients(xs: seq<Gf>, d: nat)
    requires Distinct(xs)
    ensures Sum(WeightedValues(xs, [], d)) == ZERO
  {
    hide Mul, Weight, Power, Sum;
    var s := WeightedValues(xs, [], d);
    forall i | 0 <= i < |xs|
      ensures s[i] == ZERO
    {
      MulZero(Power(xs[i], d));
      MulZero(Weight(xs, i));
    }
    ZerosSum(s);
  }

  lemma {:induction false} ZerosSum(s: seq<Gf>)
    requires forall i :: 0 <= i < |s| ==> s[i] == ZERO
    ensures Sum(s) == ZERO
  {
    hide Add;
    if s != [] {
      ZerosSum(s[..|s| - 1]);
      AddLaws(ZERO, ZERO, ZERO);
    }
  }

  /** Interpolation at zero: m distinct points determine the constant term of any polynomial
      with at most m coefficients. */
  lemma InterpolateAtZero(xs: seq<Gf>, c: seq<Gf>, ys: seq<Gf>)
    requires Distinct(xs) && 0 < |c| <= |xs| == |ys|
    requires forall i :: 0 <= i < |xs| ==> ys[i] == Eval(c, xs[i])
    ensures Sum(seq(|xs|, i requires 0 <= i < |xs| => Mul(ys[i], Weight(xs, i)))) == c[0]
  {
    hide Mul, Weight, Sum, Eval, Power;
    var s := seq(|xs|, i requires 0 <= i < |xs| => Mul(ys[i], Weight(xs, i)));
    forall i | 0 <= i < |xs|
      ensures s[i] == WeightedValues(xs, c, 0)[i]
    {
      PowerZeroIsOne(xs[i]);
      MulOne(ys[i]);
      MulCommutes(ys[i], Weight(xs, i));
    }
    assert s == WeightedValues(xs, c, 0);
    WeightedValuesSum(xs, c, 0);
  }
}
