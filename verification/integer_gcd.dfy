/** The gcd and lcm algorithms behind integer::gcd and integer::lcm. */
module IntegerGcd {
  import opened NumberTheory
  import opened IntTypes
  import opened Words

  predicate Odd(x: int) { x % 2 == 1 }

  // A factor of two in one argument does not matter when the other is odd.
  lemma {:induction false} GcdHalve(a: int, v: int)
    requires Odd(v)
    ensures Gcd(2 * a, v) == Gcd(a, v)
  {
    forall d: int ensures Divides(d, Gcd(2 * a, v)) <==> Divides(d, a) && Divides(d, v) {
      GcdIsGreatest(d, 2 * a, v);
      if Divides(d, v) {
        CoprimeBy(v, 2, 1, -(v / 2));
        CoprimeDivisor(d, v, 2);
        if Divides(d, 2 * a) { EuclidLemma(d, 2, a); }
        if Divides(d, a) { DividesCombination(d, a, a, 2, 0); }
      }
    }
    GcdUnique(Gcd(2 * a, v), a, v);
  }

  lemma {:induction false} GcdDropTwos(a: int, v: int, k: nat)
    requires Odd(v)
    ensures Gcd(a * Pow2(k), v) == Gcd(a, v)
  {
    if k > 0 {
      GcdDropTwos(a, v, k - 1);
      GcdHalve(a * Pow2(k - 1), v);
      Associate(a, 2, Pow2(k - 1));
      assert a * Pow2(k) == 2 * (a * Pow2(k - 1));
    }
  }

  lemma {:induction false} GcdScale(a: int, b: int, k: nat)
    ensures Gcd(a * k, b * k) == Gcd(a, b) * k
  {
    var g := Gcd(a, b);
    var m, l := GcdDivides(a, b);
    var x, y := Bezout(a, b);
    assert a * k == m * (g * k) by { Associate(m, g, k); }
    assert b * k == l * (g * k) by { Associate(l, g, k); }
    assert x * (a * k) + y * (b * k) == g * k by {
      Associate(x, a, k);
      Associate(y, b, k);
      Distribute(k, x * a, y * b);
    }
    var scaled: nat := Product(g, k);
    IsGcdBy(scaled, a * k, b * k, m, l, x, y);
    GcdUnique(scaled, a * k, b * k);
  }

  function Product(x: nat, y: nat): (r: nat)
    ensures r == x * y
  {
    assert x * y >= 0;
    x * y
  }

  // Common factors of two can be taken out of both and the smaller power put back.
  lemma {:induction false} GcdOfOddParts(u: int, v: int, i: nat, j: nat)
    requires Odd(u) && Odd(v)
    ensures Gcd(u * Pow2(i), v * Pow2(j)) == Gcd(u, v) * Pow2(if i < j then i else j)
    decreases i + j
  {
    if i == 0 {
      GcdSymmetric(u, v * Pow2(j));
      GcdDropTwos(v, u, j);
      GcdSymmetric(v, u);
    } else if j == 0 {
      GcdDropTwos(u, v, i);
    } else {
      GcdOfOddParts(u, v, i - 1, j - 1);
      GcdScale(u * Pow2(i - 1), v * Pow2(j - 1), 2);
      Associate(u, Pow2(i - 1), 2);
      Associate(v, Pow2(j - 1), 2);
      Associate(Gcd(u, v), Pow2(if i < j then i - 1 else j - 1), 2);
    }
  }

  lemma {:induction false} GcdZero(a: int)
    ensures Gcd(a, 0) == Abs(a) == Gcd(0, a)
  {
    IsGcdBy(Abs(a), a, 0, if a < 0 then -1 else 1, 0, if a < 0 then -1 else 1, 0);
    GcdUnique(Abs(a), a, 0);
    GcdSymmetric(a, 0);
  }

  lemma {:induction false} GcdSelf(a: int)
    ensures Gcd(a, a) == Abs(a)
  {
    GcdShift(0, a, 1);
    GcdZero(a);
  }

  // What is left without the factors of two: it has the same divisors in common with odd numbers.
  ghost predicate IsOddPart(odd: int, val: int) {
    Odd(odd) && (Odd(val) ==> odd == val) && forall w: int :: Odd(w) ==> Gcd(odd, w) == Gcd(val, w)
  }

  // Strips the factors of two and counts them.
  method MakeOdd(val: nat) returns (odd: nat, r: nat)
    requires val > 0
    ensures IsOddPart(odd, val) && val == odd * Pow2(r) && 0 < odd <= val
  {
    odd, r := val, 0;
    while odd % 2 == 0
      invariant 0 < odd <= val && val == odd * Pow2(r)
      invariant Odd(val) ==> odd == val
      decreases odd
    {
      Associate(odd / 2, 2, Pow2(r));
      odd, r := odd / 2, r + 1;
    }
    forall w: int | Odd(w) ensures Gcd(odd, w) == Gcd(val, w) {
      GcdDropTwos(odd, w, r);
    }
  }

  // One round of the mixed algorithm: u %= v; v -= u.
  lemma {:induction false} MixedRound(u: nat, v: nat)
    requires v > 0
    ensures Gcd(u % v, v - u % v) == Gcd(u, v)
    ensures u % v == 0 ==> Gcd(u, v) == v
  {
    var r := u % v;
    assert u == r + u / v * v;
    GcdShift(r, v, u / v);
    GcdSymmetric(r, v);
    GcdShift(v - r, r, 1);
    GcdSymmetric(v - r, r);
    if r == 0 { GcdZero(v); }
  }

  // The loop of the mixed algorithm, on odd numbers, with the shift that every exit applies.
  method MixedLoop(u0: nat, v0: nat, shifts: nat) returns (g: nat)
    requires Odd(u0) && Odd(v0) && u0 > 0 && v0 > 0
    ensures g == Gcd(u0, v0) * Pow2(shifts)
  {
    var u, v := u0, v0;
    while 1 < v
      invariant Odd(u) && Odd(v) && u > 0 && v > 0
      invariant Gcd(u, v) == Gcd(u0, v0)
      decreases u + v
    {
      MixedRound(u, v);
      u := u % v;
      v := v - u;
      if u == 0 { return v * Pow2(shifts); }
      if v == 0 { assert false; }  // the second exit is never taken: u is now less than the old v
      ghost var wholeU, wholeV := u, v;
      var shift;
      u, shift := MakeOdd(u);
      v, shift := MakeOdd(v);
      OneOfTwoOdd(wholeU, wholeV, u, v);
      GcdSymmetric(u, v);
      if u < v { u, v := v, u; }
    }
    GcdOne(u);
    g := (if v == 1 then v else u) * Pow2(shifts);
  }

  // When the sum is odd one of the two has no factor of two, so no common one is lost.
  lemma {:induction false} OneOfTwoOdd(a: nat, b: nat, u: nat, v: nat)
    requires IsOddPart(u, a) && IsOddPart(v, b) && Odd(a + b)
    ensures Gcd(u, v) == Gcd(a, b)
  {
    GcdSymmetric(u, v);
    GcdSymmetric(a, b);
    assert Odd(a) || Odd(b);
  }

  method MixedBinaryGcd(u0: nat, v0: nat) returns (g: nat)
    ensures g == Gcd(u0, v0)
  {
    var u, v := u0, v0;
    GcdSymmetric(u0, v0);
    if u < v { u, v := v, u; }
    GcdZero(u);
    if u == 0 { return v; }
    if v == 0 { return u; }
    var i, j;
    u, i := MakeOdd(u);
    v, j := MakeOdd(v);
    GcdOfOddParts(u, v, i, j);
    g := MixedLoop(u, v, if i < j then i else j);
  }

  lemma {:induction false} GcdOne(a: int)
    ensures Gcd(a, 1) == 1
  {
    CoprimeBy(a, 1, 0, 1);
  }

  method SteinGcd(m0: nat, n0: nat) returns (g: nat)
    ensures g == Gcd(m0, n0)
  {
    GcdZero(m0);
    GcdZero(n0);
    if m0 == 0 { return n0; }
    if n0 == 0 { return m0; }
    var m, dm := MakeOdd(m0);
    var n, dn := MakeOdd(n0);
    GcdOfOddParts(m, n, dm, dn);
    ghost var odd := Gcd(m, n);
    while m != n
      invariant Odd(m) && Odd(n) && m > 0 && n > 0
      invariant Gcd(m, n) == odd
      decreases m + n
    {
      GcdSymmetric(m, n);
      if n > m { m, n := n, m; }
      GcdShift(m - n, n, 1);
      m := m - n;
      var shift;
      m, shift := MakeOdd(m);
    }
    GcdSelf(m);
    g := m * Pow2(if dm < dn then dm else dn);
  }

  method EuclidGcd(a0: nat, b0: nat) returns (g: nat)
    ensures g == Gcd(a0, b0)
  {
    var a, b := a0, b0;
    while b != 0
      invariant Gcd(a, b) == Gcd(a0, b0)
      decreases b
    {
      GcdShift(a % b, b, a / b);
      GcdSymmetric(a % b, b);
      a, b := b, a % b;
    }
    GcdZero(a);
    g := a;
  }

  // ----- the front end, over a component type

  // Undefined stands for a step that the type has no value for.
  datatype Outcome = Defined(value: nat) | Undefined

  // The least value of a two's complement type next to a partner its remainder is not defined for.
  // A narrow type takes the remainder by -1 in a wider one.
  predicate Clash(ty: IntType, a: int, b: int) {
    ty.TwosComplement() && a == ty.lo && (b == 0 || (b == -1 && !ty.narrow) || b == ty.lo)
  }

  predicate GcdDefined(ty: IntType, a: int, b: int) {
    !Clash(ty, a, b) && !Clash(ty, b, a)
  }

  lemma {:induction false} GcdOfRemainder(a: int, b: int)
    requires b != 0
    ensures Gcd(Rem(a, b), b) == Gcd(a, b)
    ensures Abs(Rem(a, b)) < Abs(b)
  {
    var q := Quot(a, b);
    GcdShift(Rem(a, b), b, q);
    if a >= 0 {
      assert a == b * (a / b) + a % b;
    } else {
      assert -a == b * ((-a) / b) + (-a) % b;
      Distribute(b, 0, (-a) / b);
    }
  }

  // a % b has no value when b is zero, or when the quotient of two's complement values does not fit.
  predicate HasRemainder(ty: IntType, a: int, b: int) {
    b != 0 && !(ty.TwosComplement() && !ty.narrow && a == ty.lo && b == -1)
  }

  // Taking the remainder of the least value loses neither the gcd nor whether it is defined.
  lemma {:induction false} RemainderOfLeast(ty: IntType, a: int, b: int)
    requires ty.Valid() && ty.Has(a) && ty.Has(b) && ty.IsLeast(a) && a != 0
    ensures b == 0 || !HasRemainder(ty, a, b) ==> !GcdDefined(ty, a, b)
    ensures HasRemainder(ty, a, b) ==>
              var rem := Rem(a, b);
              && ty.Has(rem) && rem != ty.lo
              && Gcd(rem, b) == Gcd(a, b) && (GcdDefined(ty, rem, b) <==> GcdDefined(ty, a, b))
  {
    if HasRemainder(ty, a, b) {
      GcdOfRemainder(a, b);
      if b == a { QuotExact(a, b, 1); }
    }
  }

  lemma {:induction false} GcdIsSymmetric(ty: IntType, a: int, b: int)
    ensures Gcd(a, b) == Gcd(b, a) && (GcdDefined(ty, a, b) <==> GcdDefined(ty, b, a))
  {
    GcdSymmetric(a, b);
  }

  // integer::gcd is the mathematical gcd, and is defined exactly on the pairs above.
  method IntGcd(ty: IntType, a: int, b: int) returns (r: Outcome)
    requires ty.Valid() && ty.Has(a) && ty.Has(b)
    ensures r == if GcdDefined(ty, a, b) then Defined(Gcd(a, b)) else Undefined
    decreases ty.IsLeast(a), ty.IsLeast(b)
  {
    GcdIsSymmetric(ty, a, b);
    if ty.IsLeast(a) {
      if a == 0 {
        GcdZero(b);
        return Defined(Abs(b));
      }
      RemainderOfLeast(ty, a, b);
      if !HasRemainder(ty, a, b) { return Undefined; }
      r := IntGcd(ty, Rem(a, b), b);
    } else if ty.IsLeast(b) {
      if b == 0 {
        GcdZero(a);
        return Defined(Abs(a));
      }
      RemainderOfLeast(ty, b, a);
      if !HasRemainder(ty, b, a) { return Undefined; }
      GcdIsSymmetric(ty, a, Rem(b, a));
      r := IntGcd(ty, a, Rem(b, a));
    } else {
      var g := MixedBinaryGcd(Abs(a), Abs(b));
      GcdOfAbs(a, b);
      r := Defined(g);
    }
  }

  // Where it is defined, the gcd is a value of the type.
  lemma {:induction false} GcdFits(ty: IntType, a: int, b: int)
    requires ty.Valid() && ty.Has(a) && ty.Has(b) && GcdDefined(ty, a, b)
    ensures ty.Has(Gcd(a, b))
  {
    GcdPositive(a, b);
    GcdZero(a);
    GcdZero(b);
    if a != 0 && b != 0 && a != b && Gcd(a, b) == Abs(a) == Abs(b) {
      assert a == -b;
    }
  }

  // Apart from the remainder that a two's complement type has no value for, the gcd is defined exactly
  // when the type can hold it.
  lemma {:induction false} GcdDecided(ty: IntType, a: int, b: int)
    requires ty.Valid() && ty.Has(a) && ty.Has(b)
    ensures GcdDefined(ty, a, b) <==>
            ty.Has(Gcd(a, b))
            && !(ty.TwosComplement() && !ty.narrow && ((a == ty.lo && b == -1) || (a == -1 && b == ty.lo)))
  {
    GcdZero(a);
    GcdZero(b);
    GcdSelf(a);
    if GcdDefined(ty, a, b) { GcdFits(ty, a, b); }
  }

  // The least common multiple, as the quotient form that the code computes.
  ghost function Lcm(a: int, b: int): int {
    if Gcd(a, b) == 0 then 0 else Abs(a) / Gcd(a, b) * Abs(b)
  }

  ghost predicate LcmDefined(ty: IntType, a: int, b: int) {
    ty.Has(Abs(a)) && ty.Has(Abs(b)) && ty.Has(Lcm(a, b))
  }

  // integer::lcm is defined exactly when the absolute values and the result are values of the type.
  method IntLcm(ty: IntType, a: int, b: int) returns (r: Outcome)
    requires ty.Valid() && ty.Has(a) && ty.Has(b)
    ensures r.Defined? <==> LcmDefined(ty, a, b)
    ensures r.Defined? ==> r.value == Lcm(a, b) && Divides(a, r.value) && Divides(b, r.value)
    ensures r.Defined? ==> forall m: int :: Divides(a, m) && Divides(b, m) ==> Divides(r.value, m)
  {
    if !ty.Has(Abs(a)) || !ty.Has(Abs(b)) { return Undefined; }
    var g := MixedBinaryGcd(Abs(a), Abs(b));
    GcdOfAbs(a, b);
    LcmIsLeast(a, b);
    if g == 0 { return Defined(0); }
    DivSmaller(Abs(a), g);
    var quotient := ty.Fit(Abs(a) / g);
    if !ty.Has(quotient * Abs(b)) { return Undefined; }
    r := Defined(Product(quotient, Abs(b)));
  }

  lemma {:induction false} LcmForm(a: int, b: int)
    ensures Lcm(a, b) * Gcd(a, b) == Abs(a) * Abs(b)
  {
    var g := Gcd(a, b);
    GcdPositive(a, b);
    if g != 0 {
      var k, l := GcdDivides(Abs(a), Abs(b));
      GcdOfAbs(a, b);
      DivExact(Abs(a), g, k);
      Associate(k, Abs(b), g);
    }
  }

  // There is a result exactly when the type can hold the absolute values and some common multiple, not
  // counting zero unless one of the numbers is zero.
  lemma {:induction false} LcmDecided(ty: IntType, a: int, b: int)
    requires ty.Valid()
    ensures LcmDefined(ty, a, b) <==>
            && ty.Has(Abs(a)) && ty.Has(Abs(b))
            && exists m: nat :: ty.Has(m) && (m == 0 ==> a == 0 || b == 0) && Divides(a, m) && Divides(b, m)
  {
    var l := Lcm(a, b);
    LcmIsLeast(a, b);
    LcmForm(a, b);
    LcmSign(a, b);
    if LcmDefined(ty, a, b) {
      var m: nat := l;
      assert ty.Has(m) && Divides(a, m) && Divides(b, m);
    }
    if m: nat :| ty.Has(m) && (m == 0 ==> a == 0 || b == 0) && Divides(a, m) && Divides(b, m) {
      if m != 0 { DividesBound(l, m); }
    }
  }

  lemma {:induction false} LcmSign(a: int, b: int)
    ensures Lcm(a, b) >= 0 && (Lcm(a, b) == 0 <==> a == 0 || b == 0)
  {
    var g := Gcd(a, b);
    GcdPositive(a, b);
    LcmForm(a, b);
    SignedProduct(a, b);
  }

  // With the common factor taken out of both, the least common multiple is either number times what
  // is left of the other.
  lemma {:induction false} LcmQuotients(a: int, b: int)
    requires Gcd(a, b) != 0
    ensures var g := Gcd(a, b);
            var p, q := Quot(a, g), Quot(b, g);
            a == p * g && b == q * g && Coprime(p, q) && p * b == q * a
            && (Lcm(a, b) == p * b || Lcm(a, b) == -(p * b))
  {
    var g := Gcd(a, b);
    GcdPositive(a, b);
    QuotientsCoprime(a, b);
    var p, q := Quot(a, g), Quot(b, g);
    AbsQuotient(a, g, p);
    SignedProduct(p, b);
    Associate(p, q, g);
    Associate(q, p, g);
  }

  // A multiple of both, and a divisor of every multiple of both.
  lemma {:induction false} LcmIsLeast(a: int, b: int)
    ensures Divides(a, Lcm(a, b)) && Divides(b, Lcm(a, b))
    ensures forall m: int :: Divides(a, m) && Divides(b, m) ==> Divides(Lcm(a, b), m)
  {
    var g, l := Gcd(a, b), Lcm(a, b);
    GcdPositive(a, b);
    if g == 0 {
      DividesBy(0, a, 0);
    } else {
      LcmQuotients(a, b);
      var p, q := Quot(a, g), Quot(b, g);
      DividesBy(p, b, p * b);
      DividesBy(q, a, p * b);
      DividesNegated(a, p * b);
      DividesNegated(b, p * b);
      forall m: int | Divides(a, m) && Divides(b, m) ensures Divides(l, m) {
        CommonMultiple(a, b, p, q, g, m);
        DividesNegated(p * b, m);
      }
    }
  }

  // If m == x*p*g == y*q*g with p and q coprime, then p divides y and so p*b divides m.
  lemma {:induction false} CommonMultiple(a: int, b: int, p: int, q: int, g: int, m: int)
    requires g != 0 && a == p * g && b == q * g && Coprime(p, q)
    requires Divides(a, m) && Divides(b, m)
    ensures Divides(p * b, m)
  {
    var x := Factor(a, m);
    var y := Factor(b, m);
    Associate(x, p, g);
    Associate(y, q, g);
    CancelRight(x * p, y * q, g);
    DividesBy(x, p, q * y);
    EuclidLemma(p, q, y);
    var z := Factor(p, y);
    Associate(z, p, b);
    DividesBy(z, p * b, m);
  }

  lemma {:induction false} AbsQuotient(a: int, g: nat, p: int)
    requires g > 0 && a == p * g
    ensures Abs(a) / g == Abs(p)
  {
    if p >= 0 {
      assert p * g >= 0;
      DivExact(a, g, p);
    } else {
      assert (-p) * g >= 0;
      DivExact(-a, g, -p);
    }
  }

  lemma {:induction false} SignedProduct(x: int, y: int)
    ensures Abs(x) * Abs(y) == x * y || Abs(x) * Abs(y) == -(x * y)
  {
  }
}
