/** The field of the Shamir shares: GF(2^8) with the reduction polynomial 0x11b and generator
    0x03, multiplied through log/exp tables. The reference product is the repeated xtime of
    section 4.2 of FIPS 197. */
module Gf256 {

  import opened Common

  /** A field element: a byte read as a polynomial over GF(2). */
  datatype Gf = Gf(bits: bv8)

  const ZERO := Gf(0)
  const ONE := Gf(1)

  // ---- Addition ----

  function Add(a: Gf, b: Gf): Gf { Gf(a.bits ^ b.bits) }

  lemma AddLaws(a: Gf, b: Gf, c: Gf)
    ensures Add(a, b) == Add(b, a)
    ensures Add(Add(a, b), c) == Add(a, Add(b, c))
    ensures Add(a, ZERO) == a && Add(ZERO, a) == a
    ensures Add(a, b) == ZERO <==> a == b
  {
  }

  lemma AddShuffle(a: Gf, b: Gf, c: Gf, d: Gf)
    ensures Add(Add(a, b), Add(c, d)) == Add(Add(a, c), Add(b, d))
  {
  }

  // ---- Reference multiplication ----

  /** Multiplication by the polynomial x, modulo 0x11b. */
  function Xtime(a: Gf): Gf {
    Gf((a.bits << 1) ^ (if a.bits & 0x80 != 0 then 0x1b else 0))
  }

  function Term(a: Gf, b: bv8): Gf { if b & 1 == 1 then a else ZERO }

  function MulBits(a: Gf, b: bv8, n: nat): Gf
    decreases n
  {
    if n == 0 then ZERO else Add(Term(a, b), MulBits(Xtime(a), b >> 1, n - 1))
  }

  /** The product of two polynomials over GF(2) modulo 0x11b. */
  function Mul(a: Gf, b: Gf): Gf { MulBits(a, b.bits, 8) }

  /** Multiplication by the generator. */
  function Times3(a: Gf): Gf { Add(a, Xtime(a)) }

  lemma XtimeLinear(a: Gf, b: Gf)
    ensures Xtime(Add(a, b)) == Add(Xtime(a), Xtime(b))
  {
  }

  lemma Times3Linear(a: Gf, b: Gf)
    ensures Times3(Add(a, b)) == Add(Times3(a), Times3(b))
  {
    hide Xtime, Add;
    XtimeLinear(a, b);
    AddShuffle(a, b, Xtime(a), Xtime(b));
  }

  lemma Times3Injective(a: Gf, b: Gf)
    requires Times3(a) == Times3(b)
    ensures a == b
  {
  }

  lemma XtimeOfTimes3(a: Gf)
    ensures Xtime(Times3(a)) == Times3(Xtime(a))
  {
    hide Xtime, Add;
    XtimeLinear(a, Xtime(a));
  }

  lemma TermDistributes(a: Gf, b: bv8, c: bv8)
    ensures (b ^ c) >> 1 == (b >> 1) ^ (c >> 1)
    ensures Term(a, b ^ c) == Add(Term(a, b), Term(a, c))
  {
  }

  lemma {:induction false} MulBitsDistributes(a: Gf, b: bv8, c: bv8, n: nat)
    ensures MulBits(a, b ^ c, n) == Add(MulBits(a, b, n), MulBits(a, c, n))
    decreases n
  {
    if n == 0 {
      AddLaws(ZERO, ZERO, ZERO);
    } else {
      hide Xtime, Term, Add;
      MulBitsDistributes(Xtime(a), b >> 1, c >> 1, n - 1);
      TermDistributes(a, b, c);
      AddShuffle(Term(a, b), Term(a, c), MulBits(Xtime(a), b >> 1, n - 1), MulBits(Xtime(a), c >> 1, n - 1));
    }
  }

  lemma TermOfTimes3(a: Gf, b: bv8)
    ensures Term(Times3(a), b) == Times3(Term(a, b))
  {
  }

  lemma {:induction false} MulBitsOfTimes3(a: Gf, b: bv8, n: nat)
    ensures MulBits(Times3(a), b, n) == Times3(MulBits(a, b, n))
    decreases n
  {
    if n == 0 {
      TermOfTimes3(a, 0);
    } else {
      hide Xtime, Term, Add, Times3;
      MulBitsOfTimes3(Xtime(a), b >> 1, n - 1);
      XtimeOfTimes3(a);
      TermOfTimes3(a, b);
      Times3Linear(Term(a, b), MulBits(Xtime(a), b >> 1, n - 1));
    }
  }

  lemma {:induction false} MulBitsOfZero(b: bv8, n: nat)
    ensures MulBits(ZERO, b, n) == ZERO
    decreases n
  {
    if n > 0 {
      assert Xtime(ZERO) == ZERO;
      MulBitsOfZero(b >> 1, n - 1);
    }
  }

  lemma {:induction false} MulBitsByZero(a: Gf, n: nat)
    ensures MulBits(a, 0, n) == ZERO
    decreases n
  {
    if n > 0 {
      hide Xtime;
      MulBitsByZero(Xtime(a), n - 1);
      assert MulBits(a, 0, n) == Add(Term(a, 0), MulBits(Xtime(a), 0, n - 1));
    }
  }

  lemma MulZero(a: Gf)
    ensures Mul(a, ZERO) == ZERO && Mul(ZERO, a) == ZERO
  {
    MulBitsByZero(a, 8);
    MulBitsOfZero(a.bits, 8);
  }

  lemma MulBitsStep(m: bv8, c: bv8, n: nat)
    requires n > 0 && m & 0x80 == 0
    ensures MulBits(Gf(m), c, n) == Add(Term(Gf(m), c), MulBits(Gf(m << 1), c >> 1, n - 1))
  {
    hide Add, Term;
  }

  lemma LowBitPlusRest(m: bv8, c: bv8)
    requires m & (m - 1) == 0
    ensures Add(Term(Gf(m), c), Gf((c >> 1) * (m << 1))) == Gf(c * m)
  {
  }

  /** A single set bit times c, while nothing overflows, shifts c. */
  lemma {:induction false} MulBitsOfPower(m: bv8, c: bv8, n: nat)
    requires 1 <= n <= 8
    requires m == [0x80, 0x40, 0x20, 0x10, 0x08, 0x04, 0x02, 0x01][n - 1]
    ensures MulBits(Gf(m), c, n) == Gf(c * m)
    decreases n
  {
    if n > 1 {
      MulBitsOfPower(m << 1, c >> 1, n - 1);
      MulBitsStep(m, c, n);
      LowBitPlusRest(m, c);
    } else {
      assert MulBits(Xtime(Gf(m)), c >> 1, 0) == ZERO;
      assert Add(Term(Gf(0x80), c), ZERO) == Gf(c * 0x80);
    }
  }

  // ---- Powers of the generator ----

  /** Times3, i times. */
  function Iterate(i: nat, b: Gf): Gf {
    if i == 0 then b else Times3(Iterate(i - 1, b))
  }

  function Pow3(i: nat): Gf { Iterate(i, ONE) }

  lemma {:induction false} MulIsIterate(i: nat, b: Gf)
    ensures Mul(Pow3(i), b) == Iterate(i, b)
  {
    hide Times3, MulBits;
    if i == 0 {
      MulBitsOfPower(1, b.bits, 8);
    } else {
      MulIsIterate(i - 1, b);
      MulBitsOfTimes3(Pow3(i - 1), b.bits, 8);
    }
  }

  lemma {:induction false} IterateAdds(i: nat, j: nat)
    ensures Iterate(i, Pow3(j)) == Pow3(i + j)
  {
    hide Times3;
    if i > 0 {
      IterateAdds(i - 1, j);
    }
  }

  lemma PowersMultiply(i: nat, j: nat)
    ensures Mul(Pow3(i), Pow3(j)) == Pow3(i + j)
  {
    hide Times3, Mul, Pow3;
    MulIsIterate(i, Pow3(j));
    IterateAdds(i, j);
  }

  lemma {:induction false} Pow3Nonzero(i: nat)
    ensures Pow3(i) != ZERO
  {
    if i > 0 {
      Pow3Nonzero(i - 1);
      assert Times3(ZERO) == ZERO;
      if Pow3(i) == ZERO {
        Times3Injective(Pow3(i - 1), ZERO);
      }
    }
  }

  /** Doubling an exponent squares; the squares are evaluated on constants. */
  lemma PowerConstant(i: nat, j: nat, a: Gf, b: Gf)
    requires Pow3(i) == a && Pow3(j) == b
    ensures Pow3(i + j) == Mul(a, b)
  {
    hide Mul, Pow3;
    PowersMultiply(i, j);
  }

  /** The generator's order divides 255 and no proper divisor of it. */
  lemma GeneratorPowers()
    ensures Pow3(15) != ONE && Pow3(51) != ONE && Pow3(85) != ONE && Pow3(255) == ONE
  {
    hide Pow3, Mul;
    assert Pow3(1) == Gf(0x03) && Pow3(2) == Gf(0x05) by { SmallPowers(); }
    PowerConstant(2, 2, Gf(0x05), Gf(0x05));
    ConstantProducts();
    MoreConstantProducts();
    PowerConstant(4, 4, Gf(0x11), Gf(0x11));
    PowerConstant(8, 8, Gf(0x1a), Gf(0x1a));
    PowerConstant(16, 1, Gf(0x5f), Gf(0x03));
    PowerConstant(17, 17, Gf(0xe1), Gf(0xe1));
    PowerConstant(34, 17, Gf(0x5c), Gf(0xe1));
    PowerConstant(34, 51, Gf(0x5c), Gf(0x0c));
    PowerConstant(85, 85, Gf(0xbd), Gf(0xbd));
    PowerConstant(170, 85, Gf(0xbc), Gf(0xbd));
    if Pow3(15) == ONE {
      PowerConstant(15, 1, ONE, Gf(0x03));
    }
  }

  lemma SmallPowers()
    ensures Pow3(1) == Gf(0x03) && Pow3(2) == Gf(0x05)
  {
  }

  lemma ConstantProducts()
    ensures Mul(Gf(0x05), Gf(0x05)) == Gf(0x11) && Mul(Gf(0x11), Gf(0x11)) == Gf(0x1a)
    ensures Mul(Gf(0x1a), Gf(0x1a)) == Gf(0x5f) && Mul(Gf(0x5f), Gf(0x03)) == Gf(0xe1)
    ensures Mul(Gf(0xe1), Gf(0xe1)) == Gf(0x5c) && Mul(Gf(0x5c), Gf(0xe1)) == Gf(0x0c)
    ensures Mul(ONE, Gf(0x03)) == Gf(0x03)
  {
  }

  lemma MoreConstantProducts()
    ensures Mul(Gf(0x5c), Gf(0x0c)) == Gf(0xbd)
    ensures Mul(Gf(0xbd), Gf(0xbd)) == Gf(0xbc)
    ensures Mul(Gf(0xbc), Gf(0xbd)) == ONE
  {
  }

  lemma {:induction false} PeriodMultiple(d: nat, q: nat)
    requires Pow3(d) == ONE
    ensures Pow3(d * q) == ONE
  {
    hide Pow3, Times3, Mul;
    if q == 0 {
      assert Pow3(0) == ONE by { PowerZero(); }
    } else {
      PeriodMultiple(d, q - 1);
      assert d * (q - 1) + d == d * q;
      PowerShift(d * (q - 1), d);
    }
  }

  lemma PowerZero()
    ensures Pow3(0) == ONE
  {
  }

  lemma PowerShift(i: nat, j: nat)
    requires Pow3(j) == ONE
    ensures Pow3(i + j) == Pow3(i)
  {
    hide Times3;
    IterateAdds(i, j);
  }

  lemma LargeFactors(d: nat, q: nat)
    requires d > 15 && q > 15
    ensures d * q >= 256
  {
  }

  lemma CofactorOf255(d: nat, q: nat)
    requires d * q == 255 && q > 1
    ensures q % 3 == 0 || q % 5 == 0 || q % 17 == 0
  {
    if d > 15 && q > 15 {
      LargeFactors(d, q);
    } else if d <= 15 {
      assert d in {0, 1, 2, 3, 4, 5, 6, 7, 8, 9, 10, 11, 12, 13, 14, 15};
    } else {
      assert q in {2, 3, 4, 5, 6, 7, 8, 9, 10, 11, 12, 13, 14, 15};
    }
  }

  /** The generator has no period below 255. */
  lemma {:induction false} NoSmallPeriod(d: nat)
    requires 0 < d < 255
    ensures Pow3(d) != ONE
  {
    hide Pow3;
    if Pow3(d) == ONE {
      GeneratorPowers();
      var q, r := 255 / d, 255 % d;
      assert d * q + r == 255;
      PeriodMultiple(d, q);
      if r > 0 {
        PowerShift(r, d * q);
        NoSmallPeriod(r);
      } else {
        CofactorOf255(d, q);
        if q % 3 == 0 {
          assert d * (q / 3) == 85;
          PeriodMultiple(d, q / 3);
        } else if q % 5 == 0 {
          assert d * (q / 5) == 51;
          PeriodMultiple(d, q / 5);
        } else {
          assert d * (q / 17) == 15;
          PeriodMultiple(d, q / 17);
        }
      }
    }
  }

  lemma {:induction false} PowersDistinct(i: nat, j: nat)
    requires i < j < 255
    ensures Pow3(i) != Pow3(j)
  {
    if i == 0 {
      NoSmallPeriod(j);
    } else if Pow3(i) == Pow3(j) {
      Times3Injective(Pow3(i - 1), Pow3(j - 1));
      PowersDistinct(i - 1, j - 1);
    }
  }

  // ---- Discrete logarithm ----

  function Code(a: Gf): (c: nat)
    ensures c < 256
  {
    a.bits as nat
  }

  lemma CodeInjective(a: Gf, b: Gf)
    requires Code(a) == Code(b)
    ensures a == b
  {
  }

  ghost function Below(n: nat): (r: set<nat>)
    ensures |r| == n
    ensures forall x: nat :: x in r <==> x < n
  {
    if n == 0 then {} else Below(n - 1) + {n - 1}
  }

  lemma {:induction false} InjectiveBound(s: seq<nat>, range: set<nat>)
    requires forall i :: 0 <= i < |s| ==> s[i] in range
    requires forall i, j :: 0 <= i < j < |s| ==> s[i] != s[j]
    ensures |s| <= |range|
  {
    if s != [] {
      InjectiveBound(s[1..], range - {s[0]});
    }
  }

  /** n distinct values below n leave none out. */
  lemma Pigeonhole(s: seq<nat>, n: nat, v: nat)
    requires |s| == n && v < n
    requires forall i :: 0 <= i < n ==> s[i] < n
    requires forall i, j :: 0 <= i < j < n ==> s[i] != s[j]
    ensures v in s
  {
    if v !in s {
      InjectiveBound(s, Below(n) - {v});
    }
  }

  lemma LogExists(a: Gf)
    requires a != ZERO
    ensures exists i :: 0 <= i < 255 && Pow3(i) == a
  {
    var s := seq(255, i requires 0 <= i < 255 => PowerCode(i));
    forall i, j | 0 <= i < j < 255
      ensures s[i] != s[j]
    {
      PowersDistinct(i, j);
      if s[i] == s[j] {
        CodeInjective(Pow3(i), Pow3(j));
      }
    }
    NonzeroCode(a);
    Pigeonhole(s, 255, Code(a) - 1);
    var i :| 0 <= i < 255 && s[i] == Code(a) - 1;
    Pow3Nonzero(i);
    NonzeroCode(Pow3(i));
    CodeInjective(Pow3(i), a);
  }

  lemma NonzeroCode(a: Gf)
    requires a != ZERO
    ensures Code(a) > 0
  {
  }

  function PowerCode(i: nat): (c: nat)
    ensures c < 255
  {
    Pow3Nonzero(i);
    NonzeroCode(Pow3(i));
    Code(Pow3(i)) - 1
  }

  /** The exponent of the generator that gives a. */
  ghost function Log(a: Gf): (i: nat)
    requires a != ZERO
    ensures i < 255 && Pow3(i) == a
  {
    LogExists(a);
    var i :| 0 <= i < 255 && Pow3(i) == a;
    i
  }

  lemma LogIsInverse(i: nat)
    requires i < 255
    ensures Pow3(i) != ZERO && Log(Pow3(i)) == i
  {
    Pow3Nonzero(i);
    var j := Log(Pow3(i));
    if i < j { PowersDistinct(i, j); }
    if j < i { PowersDistinct(j, i); }
  }

  // ---- The field laws ----

  lemma MulNonzero(a: Gf, b: Gf)
    requires a != ZERO && b != ZERO
    ensures Mul(a, b) == Pow3(Log(a) + Log(b)) && Mul(a, b) != ZERO
  {
    hide Mul, Pow3;
    PowersMultiply(Log(a), Log(b));
    Pow3Nonzero(Log(a) + Log(b));
  }

  lemma MulCommutes(a: Gf, b: Gf)
    ensures Mul(a, b) == Mul(b, a)
  {
    hide Mul, Pow3;
    if a == ZERO || b == ZERO {
      MulZero(a);
      MulZero(b);
    } else {
      MulNonzero(a, b);
      MulNonzero(b, a);
    }
  }

  lemma MulAssociates(a: Gf, b: Gf, c: Gf)
    ensures Mul(Mul(a, b), c) == Mul(a, Mul(b, c))
  {
    hide Mul, Pow3;
    if a == ZERO || b == ZERO || c == ZERO {
      MulZero(a);
      MulZero(b);
      MulZero(c);
      MulZero(Mul(a, b));
      MulZero(Mul(b, c));
    } else {
      var i, j, k := Log(a), Log(b), Log(c);
      PowersMultiply(i, j);
      PowersMultiply(i + j, k);
      PowersMultiply(j, k);
      PowersMultiply(i, j + k);
    }
  }

  lemma MulDistributes(a: Gf, b: Gf, c: Gf)
    ensures Mul(a, Add(b, c)) == Add(Mul(a, b), Mul(a, c))
  {
    hide MulBits;
    MulBitsDistributes(a, b.bits, c.bits, 8);
  }

  lemma MulOne(a: Gf)
    ensures Mul(ONE, a) == a && Mul(a, ONE) == a
  {
    hide Mul;
    assert Mul(ONE, a) == a by { MulIsIterate(0, a); PowerZero(); }
    MulCommutes(ONE, a);
  }

  ghost function Inv(a: Gf): (r: Gf)
    requires a != ZERO
    ensures Mul(a, r) == ONE && Mul(r, a) == ONE && r != ZERO
  {
    PowersMultiply(Log(a), 255 - Log(a));
    PowersMultiply(255 - Log(a), Log(a));
    GeneratorPowers();
    Pow3Nonzero(255 - Log(a));
    Pow3(255 - Log(a))
  }
}
