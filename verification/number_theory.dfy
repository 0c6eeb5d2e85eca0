/** Divisibility, greatest common divisors and coprimality over the integers. */
module NumberTheory {

  function Times(k: int, d: int): int { k * d }

  ghost predicate Divides(d: int, a: int) {
    exists k: int :: a == Times(k, d)
  }

  function Abs(x: int): (r: nat)
    ensures r == x || r == -x
  {
    if x < 0 then -x else x
  }

  // A common divisor that every common divisor divides.
  ghost predicate IsGcd(g: nat, a: int, b: int) {
    forall d: int :: Divides(d, g) <==> Divides(d, a) && Divides(d, b)
  }

  ghost function Gcd(a: int, b: int): nat {
    GcdExists(a, b);
    var g: nat :| IsGcd(g, a, b);
    g
  }

  ghost predicate Coprime(a: int, b: int) {
    Gcd(a, b) == 1
  }

  // Division and remainder as C++ rounds them: toward zero.
  function Quot(a: int, b: int): int
    requires b != 0
  {
    if a >= 0 then a / b else -((-a) / b)
  }

  function Rem(a: int, b: int): int
    requires b != 0
  {
    a - b * Quot(a, b)
  }

  lemma {:induction false} DividesBy(k: int, d: int, a: int)
    requires a == k * d
    ensures Divides(d, a)
  {
    assert a == Times(k, d);
  }

  lemma {:induction false} Factor(d: int, a: int) returns (k: int)
    requires Divides(d, a)
    ensures a == k * d
  {
    k :| a == Times(k, d);
  }

  lemma {:induction false} Distribute(x: int, a: int, b: int)
    ensures x * (a + b) == x * a + x * b
    ensures x * (a - b) == x * a - x * b
  {
  }

  lemma {:induction false} Associate(a: int, b: int, c: int)
    ensures (a * b) * c == a * (b * c)
    ensures (a * b) * c == (a * c) * b
  {
  }

  lemma {:induction false} DividesCombination(d: int, a: int, b: int, x: int, y: int)
    requires Divides(d, a) && Divides(d, b)
    ensures Divides(d, x * a + y * b)
  {
    var k := Factor(d, a);
    var l := Factor(d, b);
    Associate(x, k, d);
    Associate(y, l, d);
    Distribute(d, x * k, y * l);
    DividesBy(x * k + y * l, d, x * a + y * b);
  }

  lemma {:induction false} Commute(a: int, b: int)
    ensures a * b == b * a
  {
  }

  lemma {:induction false} MulMonotone(k: int, x: int, y: int)
    requires k >= 0 && x <= y
    ensures x * k <= y * k
  {
  }

  // Subtractive Euclid, with the two quotients and a combination that gives the divisor.
  lemma {:induction false} ExtendedGcd(a: nat, b: nat) returns (g: nat, k: int, l: int, x: int, y: int)
    ensures a == k * g && b == l * g && x * a + y * b == g
    decreases a + b
  {
    if a == 0 {
      g, k, l, x, y := b, 0, 1, 0, 1;
    } else if b == 0 {
      g, k, l, x, y := a, 1, 0, 1, 0;
    } else if a <= b {
      g, k, l, x, y := ExtendedGcd(a, b - a);
      Distribute(g, k, l);
      Distribute(y, b, a);
      Distribute(a, x, y);
      l, x := k + l, x - y;
    } else {
      g, k, l, x, y := ExtendedGcd(a - b, b);
      Distribute(g, k, l);
      Distribute(x, a, b);
      Distribute(b, y, x);
      k, y := k + l, y - x;
    }
  }

  lemma {:induction false} IsGcdBy(g: nat, a: int, b: int, k: int, l: int, x: int, y: int)
    requires a == k * g && b == l * g && x * a + y * b == g
    ensures IsGcd(g, a, b)
  {
    forall d: int ensures Divides(d, g) <==> Divides(d, a) && Divides(d, b) {
      if Divides(d, a) && Divides(d, b) { DividesCombination(d, a, b, x, y); }
      if Divides(d, g) {
        DividesCombination(d, g, g, k, 0);
        DividesCombination(d, g, g, l, 0);
      }
    }
  }

  lemma {:induction false} SignedGcd(a: int, b: int) returns (g: nat, k: int, l: int, x: int, y: int)
    ensures a == k * g && b == l * g && x * a + y * b == g
    ensures IsGcd(g, a, b)
  {
    g, k, l, x, y := ExtendedGcd(Abs(a), Abs(b));
    if a < 0 { k, x := -k, -x; }
    if b < 0 { l, y := -l, -y; }
    IsGcdBy(g, a, b, k, l, x, y);
  }

  lemma {:induction false} GcdExists(a: int, b: int)
    ensures exists g: nat :: IsGcd(g, a, b)
  {
    var g, k, l, x, y := SignedGcd(a, b);
  }

  lemma {:induction false} DividesBound(d: int, a: int)
    requires Divides(d, a) && a != 0
    ensures d != 0 && Abs(d) <= Abs(a)
  {
  }

  lemma {:induction false} MulAtLeast(k: int, d: int)
    requires k >= 1
    ensures Abs(k * d) >= Abs(d)
  {
  }

  lemma {:induction false} DividesAntisymmetric(a: nat, b: nat)
    requires Divides(a, b) && Divides(b, a)
    ensures a == b
  {
  }

  lemma {:induction false} GcdUnique(g: nat, a: int, b: int)
    requires IsGcd(g, a, b)
    ensures g == Gcd(a, b)
  {
    var h := Gcd(a, b);
    DividesBy(1, g, g);
    DividesBy(1, h, h);
    assert IsGcd(h, a, b);
    assert Divides(g, h) && Divides(h, g);
    DividesAntisymmetric(g, h);
  }

  lemma {:induction false} GcdIsGreatest(d: int, a: int, b: int)
    ensures Divides(d, a) && Divides(d, b) <==> Divides(d, Gcd(a, b))
  {
  }

  // The greatest common divisor is a combination of its arguments.
  lemma {:induction false} Bezout(a: int, b: int) returns (x: int, y: int)
    ensures x * a + y * b == Gcd(a, b)
  {
    var g, k, l;
    g, k, l, x, y := SignedGcd(a, b);
    GcdUnique(g, a, b);
  }

  lemma {:induction false} GcdDivides(a: int, b: int) returns (k: int, l: int)
    ensures a == k * Gcd(a, b) && b == l * Gcd(a, b)
    ensures Divides(Gcd(a, b), a) && Divides(Gcd(a, b), b)
  {
    var g, x, y;
    g, k, l, x, y := SignedGcd(a, b);
    GcdUnique(g, a, b);
    DividesBy(k, g, a);
    DividesBy(l, g, b);
  }

  lemma {:induction false} GcdPositive(a: int, b: int)
    ensures Gcd(a, b) > 0 <==> a != 0 || b != 0
    ensures a != 0 ==> Gcd(a, b) <= Abs(a)
    ensures b != 0 ==> Gcd(a, b) <= Abs(b)
  {
    var k, l := GcdDivides(a, b);
    if a != 0 { DividesBound(Gcd(a, b), a); }
    if b != 0 { DividesBound(Gcd(a, b), b); }
    if a == 0 && b == 0 {
      DividesBy(0, 0, 0);
      GcdIsGreatest(0, a, b);
      var m := Factor(0, Gcd(a, b));
      assert m * 0 == 0;
    }
  }

  lemma {:induction false} GcdSymmetric(a: int, b: int)
    ensures Gcd(a, b) == Gcd(b, a)
  {
    forall d: int ensures Divides(d, Gcd(b, a)) <==> Divides(d, a) && Divides(d, b) {
      GcdIsGreatest(d, b, a);
    }
    GcdUnique(Gcd(b, a), a, b);
  }

  lemma {:induction false} GcdShift(a: int, b: int, k: int)
    ensures Gcd(a + k * b, b) == Gcd(a, b)
  {
    var s := a + k * b;
    forall d: int ensures Divides(d, Gcd(s, b)) <==> Divides(d, a) && Divides(d, b) {
      GcdIsGreatest(d, s, b);
      if Divides(d, b) {
        if Divides(d, a) { DividesCombination(d, a, b, 1, k); }
        if Divides(d, s) { DividesCombination(d, s, b, 1, -k); assert s + -k * b == a; }
      }
    }
    GcdUnique(Gcd(s, b), a, b);
  }

  // ----- coprimality

  lemma {:induction false} CoprimeBy(a: int, b: int, x: int, y: int)
    requires x * a + y * b == 1
    ensures Coprime(a, b)
  {
    var g := Gcd(a, b);
    var k, l := GcdDivides(a, b);
    DividesCombination(g, a, b, x, y);
    DividesBound(g, 1);
  }

  lemma {:induction false} CoprimeSymmetric(a: int, b: int)
    requires Coprime(a, b)
    ensures Coprime(b, a)
  {
    GcdSymmetric(a, b);
  }

  lemma {:induction false} CoprimeProduct(a: int, b: int, c: int)
    requires Coprime(a, c) && Coprime(b, c)
    ensures Coprime(a * b, c)
  {
    var x, y := Bezout(a, c);
    var u, v := Bezout(b, c);
    // x*a == 1 - y*c and u*b == 1 - v*c
    var s, t := 1 - y * c, 1 - v * c;
    assert s == x * a && t == u * b;
    assert (x * u) * (a * b) == s * t by { Regroup(x, u, a, b); }
    assert s * t == 1 - (v + y - y * (v * c)) * c by { Expand(y, v, c); }
    CoprimeBy(a * b, c, x * u, v + y - y * (v * c));
  }

  lemma {:induction false} Regroup(x: int, u: int, a: int, b: int)
    ensures (x * u) * (a * b) == (x * a) * (u * b)
  {
  }

  lemma {:induction false} Expand(y: int, v: int, c: int)
    ensures (1 - y * c) * (1 - v * c) == 1 - (v + y - y * (v * c)) * c
  {
  }

  lemma {:induction false} CoprimeShift(a: int, b: int, k: int)
    requires Coprime(a, b)
    ensures Coprime(a + k * b, b)
  {
    GcdShift(a, b, k);
  }

  lemma {:induction false} CoprimeDivisor(d: int, a: int, b: int)
    requires Divides(d, a) && Coprime(a, b)
    ensures Coprime(d, b)
  {
    var k := Factor(d, a);
    var x, y := Bezout(a, b);
    Associate(x, k, d);
    CoprimeBy(d, b, x * k, y);
  }

  lemma {:induction false} DividesNegated(d: int, a: int)
    ensures Divides(d, a) <==> Divides(d, -a)
    ensures Divides(d, a) <==> Divides(-d, a)
  {
    if Divides(d, a) { var k := Factor(d, a); DividesBy(-k, d, -a); DividesBy(-k, -d, a); }
    if Divides(d, -a) { var k := Factor(d, -a); DividesBy(-k, d, a); DividesBy(k, -d, a); }
    if Divides(-d, a) { var k := Factor(-d, a); DividesBy(-k, d, a); DividesBy(k, d, -a); }
  }

  // Signs do not matter.
  lemma {:induction false} GcdNegated(a: int, b: int)
    ensures Gcd(-a, b) == Gcd(a, b) == Gcd(a, -b)
  {
    forall d: int ensures Divides(d, Gcd(a, b)) <==> Divides(d, -a) && Divides(d, b) {
      GcdIsGreatest(d, a, b);
      DividesNegated(d, a);
    }
    GcdUnique(Gcd(a, b), -a, b);
    forall d: int ensures Divides(d, Gcd(a, b)) <==> Divides(d, a) && Divides(d, -b) {
      GcdIsGreatest(d, a, b);
      DividesNegated(d, b);
    }
    GcdUnique(Gcd(a, b), a, -b);
  }

  lemma {:induction false} GcdOfAbs(a: int, b: int)
    ensures Gcd(Abs(a), Abs(b)) == Gcd(a, b)
  {
    GcdNegated(a, b);
    GcdNegated(Abs(a), b);
  }

  // Euclid's lemma.
  lemma {:induction false} EuclidLemma(a: int, b: int, c: int)
    requires Coprime(a, b) && Divides(a, b * c)
    ensures Divides(a, c)
  {
    var x, y := Bezout(a, b);
    var k := Factor(a, b * c);
    // c == x*a*c + y*b*c
    assert (x * a + y * b) * c == (x * a) * c + (y * b) * c;
    Associate(x, a, c);
    Associate(y, b, c);
    Associate(y, k, a);
    assert (x * c + y * k) * a == (x * c) * a + (y * k) * a;
    DividesBy(x * c + y * k, a, c);
  }

  lemma {:induction false} CancelRight(x: int, y: int, g: int)
    requires g != 0 && x * g == y * g
    ensures x == y
  {
  }

  lemma {:induction false} QuotExact(a: int, b: int, k: int)
    requires b != 0 && a == k * b
    ensures Quot(a, b) == k && Rem(a, b) == 0
  {
    if a >= 0 {
      DivExact(a, b, k);
    } else {
      DivExact(-a, b, -k);
    }
  }

  lemma {:induction false} DivExact(a: int, b: int, k: int)
    requires b != 0 && a == k * b
    ensures a / b == k
  {
    var q, r := a / b, a % b;
    assert a == q * b + r && 0 <= r < Abs(b);
    assert (k - q) * b == r;
    if k != q {
      if k > q { MulAtLeast(k - q, b); } else { MulAtLeast(q - k, b); }
    }
  }

  lemma {:induction false} QuotBounds(a: int, b: int)
    requires b > 0
    ensures var q, r := Quot(a, b), Rem(a, b);
            a == b * q + r && -b < r < b && (a >= 0 ==> 0 <= q <= a && r >= 0) && (a < 0 ==> a <= q <= 0 && r <= 0)
  {
    if a >= 0 {
      DivSmaller(a, b);
    } else {
      DivSmaller(-a, b);
    }
  }

  lemma {:induction false} DivSmaller(a: nat, b: int)
    requires b > 0
    ensures 0 <= a / b <= a
  {
    var q := a / b;
    if q < 0 { MulPositive(-q, b); }
    if q > 0 { MulPositive(q, b); }
  }

  lemma {:induction false} MulPositive(x: int, y: int)
    requires x >= 1 && y >= 1
    ensures x * y >= x && x * y >= y
  {
  }

  // Dividing both by their greatest common divisor leaves coprime numbers.
  lemma {:induction false} QuotientsCoprime(a: int, b: int)
    requires a != 0 || b != 0
    ensures var g := Gcd(a, b);
            g > 0 && a == Quot(a, g) * g && b == Quot(b, g) * g && Coprime(Quot(a, g), Quot(b, g))
  {
    var g := Gcd(a, b);
    GcdPositive(a, b);
    var k, l := GcdDivides(a, b);
    QuotExact(a, g, k);
    QuotExact(b, g, l);
    var x, y := Bezout(a, b);
    Associate(x, k, g);
    Associate(y, l, g);
    assert (x * k + y * l) * g == (x * k) * g + (y * l) * g == g;
    DivExact(g, g, x * k + y * l);
    DivExact(g, g, 1);
    CoprimeBy(k, l, x, y);
  }
}
