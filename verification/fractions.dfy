/** The arithmetic of fractions in lowest terms, apart from any program. */
module Fractions {
  import opened NumberTheory

  // n/d with d > 0 and nothing left to cancel.
  ghost predicate Normal(n: int, d: int) {
    d > 0 && Coprime(n, d)
  }

  // n/d and a/b are the same number.
  predicate SameValue(n: int, d: int, a: int, b: int) {
    n * b == a * d
  }

  lemma {:induction false} NormalUnique(n: int, d: int, a: int, b: int)
    requires Normal(n, d) && Normal(a, b)
    ensures SameValue(n, d, a, b) <==> n == a && d == b
  {
    if SameValue(n, d, a, b) {
      CoprimeSymmetric(n, d);
      CoprimeSymmetric(a, b);
      DividesBy(a, d, n * b);
      DividesBy(n, b, a * d);
      EuclidLemma(d, n, b);
      EuclidLemma(b, a, d);
      DividesAntisymmetric(d, b);
      CancelRight(n, a, d);
    }
  }

  lemma {:induction false} CoprimeBoth(p: int, a: int, q: int, b: int)
    requires Coprime(a, b) && Divides(p, a) && Divides(q, b)
    ensures Coprime(p, q)
  {
    CoprimeDivisor(p, a, b);
    CoprimeSymmetric(p, b);
    CoprimeDivisor(q, b, p);
    CoprimeSymmetric(q, p);
  }

  lemma {:induction false} CoprimeProductRight(a: int, b: int, c: int)
    requires Coprime(a, b) && Coprime(a, c)
    ensures Coprime(a, b * c)
  {
    CoprimeSymmetric(a, b);
    CoprimeSymmetric(a, c);
    CoprimeProduct(b, c, a);
    CoprimeSymmetric(b * c, a);
  }

  // Cancelling crosswise before multiplying leaves the product in lowest terms.
  lemma {:induction false} CrossCancel(n1: int, d1: int, n2: int, d2: int)
    requires d1 != 0 && d2 != 0 && Coprime(n1, d1) && Coprime(n2, d2)
    ensures var g1, g2 := Gcd(n1, d2), Gcd(n2, d1);
            && g1 > 0 && g2 > 0
            && n1 == Quot(n1, g1) * g1 && d2 == Quot(d2, g1) * g1
            && n2 == Quot(n2, g2) * g2 && d1 == Quot(d1, g2) * g2
            && Coprime(Quot(n1, g1) * Quot(n2, g2), Quot(d1, g2) * Quot(d2, g1))
            && SameValue(Quot(n1, g1) * Quot(n2, g2), Quot(d1, g2) * Quot(d2, g1), n1 * n2, d1 * d2)
  {
    var g1, g2 := Gcd(n1, d2), Gcd(n2, d1);
    QuotientsCoprime(n1, d2);
    QuotientsCoprime(n2, d1);
    var p1, s2, p2, s1 := Quot(n1, g1), Quot(d2, g1), Quot(n2, g2), Quot(d1, g2);
    DividesBy(g1, p1, n1);
    DividesBy(g1, s2, d2);
    DividesBy(g2, p2, n2);
    DividesBy(g2, s1, d1);
    CoprimeBoth(p1, n1, s1, d1);
    CoprimeBoth(p2, n2, s2, d2);
    CoprimeProduct(p1, p2, s1);
    CoprimeProduct(p1, p2, s2);
    CoprimeProductRight(p1 * p2, s1, s2);
    CrossValue(p1, p2, s1, s2, g1, g2);
  }

  lemma {:induction false} CrossValue(p1: int, p2: int, s1: int, s2: int, g1: int, g2: int)
    ensures (p1 * p2) * ((s1 * g2) * (s2 * g1)) == ((p1 * g1) * (p2 * g2)) * (s1 * s2)
  {
  }

  // The sum of two fractions in lowest terms, over the least common denominator, needs only be
  // reduced by what its numerator shares with the common factor of the denominators.
  lemma {:induction false} ReduceSum(a: int, b: int, c: int, d: int)
    requires Normal(a, b) && Normal(c, d)
    ensures var g := Gcd(b, d);
            && g > 0
            && var b1 := Quot(b, g);
            var n := a * Quot(d, g) + c * b1;
            var h := Gcd(n, g);
            && h > 0
            && Normal(Quot(n, h), b1 * Quot(d, h))
            && SameValue(Quot(n, h), b1 * Quot(d, h), a * d + c * b, b * d)
  {
    var g := Gcd(b, d);
    QuotientsCoprime(b, d);
    var b1, d1 := Quot(b, g), Quot(d, g);
    var n := a * d1 + c * b1;
    var h := Gcd(n, g);
    QuotientsCoprime(n, g);
    var m, e := Quot(n, h), Quot(g, h);
    SumCoprime(a, b, c, d, g, b1, d1);
    DividesBy(h, m, n);
    CoprimeDivisor(m, n, b1);
    CoprimeDivisor(m, n, d1);
    CoprimeProductRight(m, d1, e);
    Associate(d1, e, h);
    QuotExact(d, h, d1 * e);
    CoprimeProductRight(m, b1, d1 * e);
    SumValue(a, c, g, b1, d1, m, e, h);
    Positive(b1, g);
    Positive(d1 * e, h);
    MulPositive(b1, d1 * e);
  }

  // The same for a difference.
  lemma {:induction false} ReduceDifference(a: int, b: int, c: int, d: int)
    requires Normal(a, b) && Normal(c, d)
    ensures var g := Gcd(b, d);
            && g > 0
            && var b1 := Quot(b, g);
            var n := a * Quot(d, g) - c * b1;
            var h := Gcd(n, g);
            && h > 0
            && Normal(Quot(n, h), b1 * Quot(d, h))
            && SameValue(Quot(n, h), b1 * Quot(d, h), a * d - c * b, b * d)
  {
    GcdNegated(c, d);
    ReduceSum(a, b, -c, d);
    NegateProduct(c, Quot(b, Gcd(b, d)));
    NegateProduct(c, b);
  }

  lemma {:induction false} NegateProduct(x: int, y: int)
    ensures (-x) * y == -(x * y)
  {
  }

  lemma {:induction false} Positive(x: int, g: int)
    requires g > 0 && x * g > 0
    ensures x > 0
  {
  }

  lemma {:induction false} SumCoprime(a: int, b: int, c: int, d: int, g: int, b1: int, d1: int)
    requires Coprime(a, b) && Coprime(c, d) && b == b1 * g && d == d1 * g && Coprime(b1, d1)
    ensures Coprime(a * d1 + c * b1, b1) && Coprime(a * d1 + c * b1, d1)
  {
    DividesBy(g, b1, b);
    DividesBy(g, d1, d);
    DividesBy(1, a, a);
    DividesBy(1, c, c);
    CoprimeBoth(a, a, b1, b);
    CoprimeBoth(c, c, d1, d);
    CoprimeSymmetric(b1, d1);
    CoprimeProduct(a, d1, b1);
    CoprimeShift(a * d1, b1, c);
    CoprimeProduct(c, b1, d1);
    CoprimeShift(c * b1, d1, a);
  }

  lemma {:induction false} SumValue(a: int, c: int, g: int, b1: int, d1: int, m: int, e: int, h: int)
    requires a * d1 + c * b1 == m * h && g == e * h
    ensures m * ((b1 * g) * (d1 * g)) == (a * (d1 * g) + c * (b1 * g)) * (b1 * (d1 * e))
  {
  }

  // ----- order

  // The sign of the difference of two fractions with positive denominators.
  function Cross(n: int, d: int, a: int, b: int): int {
    n * b - a * d
  }

  lemma {:induction false} QuotientsDecide(n: int, d: int, q: int, r: int, a: int, b: int, p: int, s: int)
    requires n == q * d + r && 0 <= r < d
    requires a == p * b + s && 0 <= s < b
    requires q < p
    ensures n * b < a * d
  {
    // n < (q+1)*d <= p*d, and p*b <= a
    Distribute(d, q, 1);
    MulMonotone(d, q + 1, p);
    assert n + 1 <= p * d;
    MulMonotone(b, n + 1, p * d);
    Distribute(b, n, 1);
    Associate(p, d, b);
    MulMonotone(d, p * b, a);
  }

  // With equal quotients the comparison passes to the remainders, and by reciprocals to the next
  // terms of the continued fractions in the opposite sense.
  lemma {:induction false} RemaindersDecide(n: int, d: int, r: int, a: int, b: int, s: int, q: int)
    requires n == q * d + r && a == q * b + s
    ensures Cross(n, d, a, b) == Cross(r, d, s, b) == -Cross(d, r, b, s)
  {
  }
}
