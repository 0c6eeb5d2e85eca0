/** Greatest common divisor and least common multiple of rational numbers. */
module RationalGcd {
  import opened NumberTheory
  import opened IntegerGcd
  import opened Fractions
  import opened IntTypes
  import opened RationalModule

  // n/d is a whole multiple k of p/q.
  ghost predicate Multiple(n: int, d: int, p: int, q: int, k: int) {
    n * q == k * (p * d)
  }

  ghost predicate IsMultipleOf(n: int, d: int, p: int, q: int) {
    exists k: int :: Multiple(n, d, p, q, k)
  }

  lemma {:induction false} LcmPositive(a: int, b: int)
    requires a > 0 && b > 0
    ensures Lcm(a, b) > 0
  {
    LcmForm(a, b);
    GcdPositive(a, b);
    MulPositive(a, b);
    Positive(Lcm(a, b), Gcd(a, b));
  }

  lemma {:induction false} LcmDividesProduct(a: int, b: int)
    ensures Divides(Lcm(a, b), a * b)
  {
    DividesBy(b, a, a * b);
    DividesBy(a, b, a * b);
    LcmIsLeast(a, b);
  }

  // The parts that the evaluator puts together are in lowest terms already.
  lemma {:induction false} GcdPartsNormal(n1: int, d1: int, n2: int, d2: int)
    requires Normal(n1, d1) && Normal(n2, d2)
    ensures Normal(Gcd(n1, n2), Lcm(d1, d2))
  {
    var k, l := GcdDivides(n1, n2);
    CoprimeDivisor(Gcd(n1, n2), n1, d1);
    CoprimeDivisor(Gcd(n1, n2), n2, d2);
    CoprimeProductRight(Gcd(n1, n2), d1, d2);
    LcmDividesProduct(d1, d2);
    DividesBy(1, Gcd(n1, n2), Gcd(n1, n2));
    CoprimeBoth(Gcd(n1, n2), Gcd(n1, n2), Lcm(d1, d2), d1 * d2);
    LcmPositive(d1, d2);
  }

  lemma {:induction false} LcmPartsNormal(n1: int, d1: int, n2: int, d2: int)
    requires Normal(n1, d1) && Normal(n2, d2)
    ensures Normal(Lcm(n1, n2), Gcd(d1, d2))
  {
    var g := Gcd(d1, d2);
    var k, l := GcdDivides(d1, d2);
    GcdPositive(d1, d2);
    DividesBy(1, n1, n1);
    DividesBy(1, n2, n2);
    CoprimeBoth(n1, n1, g, d1);
    CoprimeBoth(n2, n2, g, d2);
    CoprimeProduct(n1, n2, g);
    LcmDividesProduct(n1, n2);
    CoprimeDivisor(Lcm(n1, n2), n1 * n2, g);
  }

  // Both numbers are whole multiples of their gcd.
  lemma {:induction false} GcdDividesBoth(n1: int, d1: int, n2: int, d2: int)
    requires Normal(n1, d1) && Normal(n2, d2)
    ensures IsMultipleOf(n1, d1, Gcd(n1, n2), Lcm(d1, d2))
    ensures IsMultipleOf(n2, d2, Gcd(n1, n2), Lcm(d1, d2))
  {
    var n, d := Gcd(n1, n2), Lcm(d1, d2);
    var k, l := GcdDivides(n1, n2);
    LcmIsLeast(d1, d2);
    var x := Factor(d1, d);
    var y := Factor(d2, d);
    Regroup(k, x, n, d1);
    Regroup(l, y, n, d2);
    assert Multiple(n1, d1, n, d, k * x);
    assert Multiple(n2, d2, n, d, l * y);
  }

  // A divisor in lowest terms has a numerator that divides and a denominator that is a multiple.
  lemma {:induction false} PartsOfDivisor(n: int, d: int, p: int, q: int)
    requires Normal(n, d) && Normal(p, q) && IsMultipleOf(n, d, p, q)
    ensures Divides(p, n) && Divides(d, q)
  {
    var k :| Multiple(n, d, p, q, k);
    Associate(k, p, d);
    Associate(k, d, p);
    Commute(p, d);
    Commute(n, q);
    DividesBy(k * d, p, q * n);
    EuclidLemma(p, q, n);
    DividesBy(k * p, d, n * q);
    CoprimeSymmetric(n, d);
    EuclidLemma(d, n, q);
  }

  lemma {:induction false} MultipleOfReduced(n: int, d: int, p: int, q: int, x: int, y: int)
    requires q != 0 && y != 0 && SameValue(p, q, x, y) && IsMultipleOf(n, d, p, q)
    ensures IsMultipleOf(n, d, x, y)
  {
    var k :| Multiple(n, d, p, q, k);
    // n*q*y == k*p*d*y == k*d*x*q
    assert (n * y) * q == (k * (x * d)) * q by {
      Associate(n, y, q);
      Associate(n, q, y);
      Associate(k, p * d, y);
      Associate(p, d, y);
      Associate(p, y, d);
      Associate(x, q, d);
      Associate(x, d, q);
      Associate(k, x * d, q);
    }
    CancelRight(n * y, k * (x * d), q);
    assert Multiple(n, d, x, y, k);
  }

  // ... and the gcd is a whole multiple of every rational number that both are multiples of.
  lemma {:induction false} GcdIsGreatestRational(n1: int, d1: int, n2: int, d2: int, p: int, q: int)
    requires Normal(n1, d1) && Normal(n2, d2) && q > 0
    requires IsMultipleOf(n1, d1, p, q) && IsMultipleOf(n2, d2, p, q)
    ensures IsMultipleOf(Gcd(n1, n2), Lcm(d1, d2), p, q)
  {
    var g := Gcd(p, q);
    QuotientsCoprime(p, q);
    var x, y := Quot(p, g), Quot(q, g);
    Positive(y, g);
    Associate(x, g, y);
    Associate(x, y, g);
    Commute(g, y);
    assert SameValue(p, q, x, y) && SameValue(x, y, p, q);
    MultipleOfReduced(n1, d1, p, q, x, y);
    MultipleOfReduced(n2, d2, p, q, x, y);
    PartsOfDivisor(n1, d1, x, y);
    PartsOfDivisor(n2, d2, x, y);
    GcdIsGreatest(x, n1, n2);
    LcmIsLeast(d1, d2);
    var n, d := Gcd(n1, n2), Lcm(d1, d2);
    var s := Factor(x, n);
    var t := Factor(d, y);
    Regroup(s, t, x, d);
    assert Multiple(n, d, x, y, s * t);
    MultipleOfReduced(n, d, x, y, p, q);
  }

  // The lcm is a whole multiple of both numbers.
  lemma {:induction false} LcmIsMultipleOfBoth(n1: int, d1: int, n2: int, d2: int)
    requires Normal(n1, d1) && Normal(n2, d2)
    ensures IsMultipleOf(Lcm(n1, n2), Gcd(d1, d2), n1, d1)
    ensures IsMultipleOf(Lcm(n1, n2), Gcd(d1, d2), n2, d2)
  {
    var n, d := Lcm(n1, n2), Gcd(d1, d2);
    var k, l := GcdDivides(d1, d2);
    LcmIsLeast(n1, n2);
    var x := Factor(n1, n);
    var y := Factor(n2, n);
    Regroup(x, k, n1, d);
    Regroup(y, l, n2, d);
    assert Multiple(n, d, n1, d1, x * k);
    assert Multiple(n, d, n2, d2, y * l);
  }

  // What is a whole multiple of p/q stays one in any other form.
  lemma {:induction false} ReducedIsMultiple(n: int, d: int, x: int, y: int, p: int, q: int)
    requires d != 0 && SameValue(n, d, x, y) && IsMultipleOf(n, d, p, q)
    ensures IsMultipleOf(x, y, p, q)
  {
    var k :| Multiple(n, d, p, q, k);
    // x*q*d == n*y*q == k*p*d*y
    assert (x * q) * d == (k * (p * y)) * d by {
      Associate(x, q, d);
      Associate(n, y, q);
      Associate(k, p * d, y);
      Associate(p, d, y);
      Associate(k, p * y, d);
    }
    CancelRight(x * q, k * (p * y), d);
    assert Multiple(x, y, p, q, k);
  }

  // ... and every rational number that is a multiple of both is a multiple of the lcm.
  lemma {:induction false} LcmIsLeastRational(n1: int, d1: int, n2: int, d2: int, p: int, q: int)
    requires Normal(n1, d1) && Normal(n2, d2) && q > 0
    requires IsMultipleOf(p, q, n1, d1) && IsMultipleOf(p, q, n2, d2)
    ensures IsMultipleOf(p, q, Lcm(n1, n2), Gcd(d1, d2))
  {
    var g := Gcd(p, q);
    QuotientsCoprime(p, q);
    var x, y := Quot(p, g), Quot(q, g);
    Positive(y, g);
    Associate(x, g, y);
    Associate(x, y, g);
    Commute(g, y);
    assert SameValue(p, q, x, y) && SameValue(x, y, p, q);
    ReducedIsMultiple(p, q, x, y, n1, d1);
    ReducedIsMultiple(p, q, x, y, n2, d2);
    PartsOfDivisor(x, y, n1, d1);
    PartsOfDivisor(x, y, n2, d2);
    LcmIsLeast(n1, n2);
    GcdIsGreatest(y, d1, d2);
    var n, d := Lcm(n1, n2), Gcd(d1, d2);
    var s := Factor(n, x);
    var t := Factor(y, d);
    Regroup(s, t, n, y);
    assert Multiple(x, y, n, d, s * t);
    ReducedIsMultiple(x, y, p, q, n, d);
  }

  // gcd times lcm is the absolute product.
  lemma {:induction false} GcdTimesLcm(n1: int, d1: int, n2: int, d2: int)
    requires Normal(n1, d1) && Normal(n2, d2)
    ensures SameValue(Gcd(n1, n2) * Lcm(n1, n2), Lcm(d1, d2) * Gcd(d1, d2), Abs(n1 * n2), d1 * d2)
  {
    LcmForm(n1, n2);
    LcmForm(d1, d2);
    Commute(Gcd(n1, n2), Lcm(n1, n2));
    AbsProduct(n1, n2);
  }

  lemma {:induction false} AbsProduct(x: int, y: int)
    ensures Abs(x) * Abs(y) == Abs(x * y)
  {
  }

  // gcd_evaluator and lcm_evaluator: there is a result exactly when the type can hold its parts and
  // the absolute values they are computed from, and the constructor finds nothing left to reduce.
  method GcdEvaluator(a: Rational, b: Rational) returns (r: Rational?)
    requires a.Valid() && b.Valid() && a.ty == b.ty
    ensures r == null <==> !(GcdDefined(a.ty, a.num, b.num) && a.ty.Has(Lcm(a.den, b.den)))
    ensures r != null ==> fresh(r) && r.Valid() && r.ty == a.ty
    ensures r != null ==> r.num == Gcd(a.num, b.num) && r.den == Lcm(a.den, b.den)
  {
    var n := IntGcd(a.ty, a.num, b.num);
    var d := IntLcm(a.ty, a.den, b.den);
    if n == Undefined || d == Undefined { return null; }
    GcdPartsNormal(a.num, a.den, b.num, b.den);
    GcdFits(a.ty, a.num, b.num);
    r := Normalized(a.ty, n.value, d.value);
  }

  method LcmEvaluator(a: Rational, b: Rational) returns (r: Rational?)
    requires a.Valid() && b.Valid() && a.ty == b.ty
    ensures r == null <==> !LcmDefined(a.ty, a.num, b.num)
    ensures r != null ==> fresh(r) && r.Valid() && r.ty == a.ty
    ensures r != null ==> r.num == Lcm(a.num, b.num) && r.den == Gcd(a.den, b.den)
  {
    var n := IntLcm(a.ty, a.num, b.num);
    if n == Undefined { return null; }
    var d := Rational.TheGcd(a.ty, a.den, b.den);
    LcmPartsNormal(a.num, a.den, b.num, b.den);
    r := Normalized(a.ty, n.value, d);
  }

  method Normalized(ty: IntType, n: nat, d: int) returns (r: Rational)
    requires ty.Valid() && ty.Has(n) && ty.Has(d) && Normal(n, d)
    ensures fresh(r) && r.Valid() && r.ty == ty && r.num == n && r.den == d
  {
    r := new Rational.Parts(ty, n, d);
    var outcome := r.Normalize();
    ReducedIs(ty, n, d, n, d);
    NormalUnique(r.num, r.den, n, d);
  }
}
