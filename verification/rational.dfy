/** Rational numbers over an integer type, changed in place. */
module RationalModule {
  import opened NumberTheory
  import opened IntegerGcd
  import opened Fractions
  import opened IntTypes

  // Both parts of n/d, once in lowest terms, are values of the type.
  ghost predicate ReducedFits(ty: IntType, n: int, d: int) {
    forall a: int, b: int :: Normal(a, b) && SameValue(a, b, n, d) ==> ty.Has(a) && ty.Has(b)
  }

  datatype Normalization = Normalized | ZeroDenominator | SingularDenominator | GcdUndefined

  // OutOfRange stands for a step that the type has no value for.
  datatype Arithmetic = Computed | DividedByZero | OutOfRange

  // Normalization succeeds with the right value: the denominator is not zero, and neither part is the
  // least value of a two's complement type whose sign has to be turned, or whose gcd is too large.
  ghost predicate NormalizesExactly(ty: IntType, n: int, d: int) {
    d != 0
    && !(ty.TwosComplement() && n != 0 && d < 0 && (n == ty.lo || d == ty.lo) && (Coprime(n, d) || n == d))
  }

  // It succeeds without turning the sign of the numerator, and so with the negated value.
  ghost predicate TurnsOneSign(ty: IntType, n: int, d: int) {
    ty.TwosComplement() && n == ty.lo && ty.lo < d < 0 && GcdDefined(ty, n, d) && Coprime(n, d)
  }

  // The denominator cannot be turned positive.
  ghost predicate StaysSingular(ty: IntType, n: int, d: int) {
    ty.TwosComplement() && n != 0 && d == ty.lo && GcdDefined(ty, n, d) && Coprime(n, d)
  }

  predicate SameSign(x: int, y: int) {
    (x >= 0 && y >= 0) || (x <= 0 && y <= 0)
  }

  // What a sum needs of a bounded type beyond room for its result: over the least common denominator,
  // the sum of two terms with the same sign, or else the two terms themselves.
  ghost predicate SumFitsIn(ty: IntType, a: int, b: int, c: int, d: int)
    requires Normal(a, b) && Normal(c, d)
  {
    GcdPositive(b, d);
    var left, right := a * Quot(d, Gcd(b, d)), c * Quot(b, Gcd(b, d));
    && ReducedFits(ty, a * d + c * b, b * d)
    && if SameSign(a, c) then ty.Has(left + right) else ty.Has(left) && ty.Has(right)
  }

  // A difference needs the same, with the sign of what is taken away turned.
  ghost predicate DifferenceFitsIn(ty: IntType, a: int, b: int, c: int, d: int)
    requires Normal(a, b) && Normal(c, d)
  {
    GcdPositive(b, d);
    var left, right := a * Quot(d, Gcd(b, d)), c * Quot(b, Gcd(b, d));
    && ReducedFits(ty, a * d - c * b, b * d)
    && if SameSign(a, -c) then ty.Has(left - right) else ty.Has(left) && ty.Has(right)
  }

  class Rational {
    const ty: IntType
    var num: int
    var den: int

    ghost predicate Valid()
      reads this
    {
      ty.Valid() && Normal(num, den) && ty.Has(num) && ty.Has(den)
    }

    constructor FromInt(t: IntType, n: int)
      requires t.Valid() && t.Has(n)
      ensures Valid() && num == n && den == 1 && ty == t
    {
      ty, num, den := t, n, 1;
      new;
      CoprimeBy(n, 1, 0, 1);
    }

    constructor Copy(r: Rational)
      requires r.Valid()
      ensures Valid() && ty == r.ty && num == r.num && den == r.den
    {
      ty, num, den := r.ty, r.num, r.den;
    }

    // The two-argument constructor: the parts as given, then normalize.
    constructor Parts(t: IntType, n: int, d: int)
      ensures num == n && den == d && ty == t
    {
      ty, num, den := t, n, d;
    }

    // Brings n/d to lowest terms, and says on which inputs each outcome comes. The least value may be
    // left without its sign turned: the denominator is tested again, the numerator is not.
    method Normalize() returns (outcome: Normalization)
      requires ty.Valid() && ty.Has(num) && ty.Has(den)
      modifies this`num, this`den
      ensures outcome == ZeroDenominator <==> old(den) == 0
      ensures outcome == Normalized && Valid() && SameValue(num, den, old(num), old(den))
         <==> NormalizesExactly(ty, old(num), old(den))
      ensures outcome == GcdUndefined <==> old(num) != 0 && old(den) != 0 && !GcdDefined(ty, old(num), old(den))
      ensures outcome == SingularDenominator <==> StaysSingular(ty, old(num), old(den))
      ensures outcome == Normalized && !NormalizesExactly(ty, old(num), old(den))
         <==> TurnsOneSign(ty, old(num), old(den))
      ensures TurnsOneSign(ty, old(num), old(den)) ==> num == old(num) && den == -old(den)
    {
      if den == 0 { return ZeroDenominator; }
      if num == 0 {
        den := 1;
        CoprimeBy(0, 1, 0, 1);
        ZeroFits(ty, old(den));
        return Normalized;
      }
      ghost var n, d := num, den;
      var g := IntGcd(ty, num, den);
      if g == Undefined {
        NoGcdNoReduction(ty, n, d);
        return GcdUndefined;
      }
      NormalizeEnds(ty, n, d);
      num := Quot(num, g.value);
      den := Quot(den, g.value);
      if den < 0 {
        num, den := ty.Negate(num), ty.Negate(den);
      }
      if den < 0 {
        return SingularDenominator;
      }
      outcome := Normalized;
    }

    // integer::gcd where it is defined
    static method TheGcd(t: IntType, a: int, b: int) returns (g: nat)
      requires t.Valid() && t.Has(a) && t.Has(b) && GcdDefined(t, a, b)
      ensures g == Gcd(a, b) && t.Has(g)
    {
      GcdFits(t, a, b);
      var r := IntGcd(t, a, b);
      g := r.value;
    }

    // The sum is computed exactly when SumFitsIn holds.
    method AddAssign(r: Rational) returns (outcome: Arithmetic)
      requires Valid() && r.Valid() && r.ty == ty
      modifies this`num, this`den
      ensures outcome == if SumFitsIn(ty, old(num), old(den), old(r.num), old(r.den)) then Computed else OutOfRange
      ensures outcome == Computed ==>
                Valid()
                && SameValue(num, den, old(num) * old(r.den) + old(r.num) * old(den), old(den) * old(r.den))
    {
      var rNum, rDen := r.num, r.den;
      SumPlan(ty, num, den, rNum, rDen);
      var g := TheGcd(ty, den, rDen);
      var b1, d1 := ty.Fit(Quot(den, g)), ty.Fit(Quot(rDen, g));
      var left, right := num * d1, rNum * b1;
      if !ty.Has(left) || !ty.Has(right) || !ty.Has(left + right) { return OutOfRange; }
      var h := TheGcd(ty, left + right, g);
      var d := b1 * Quot(rDen, h);
      if !ty.Has(d) { return OutOfRange; }
      num, den := ty.Fit(Quot(left + right, h)), d;
      outcome := Computed;
    }

    method SubAssign(r: Rational) returns (outcome: Arithmetic)
      requires Valid() && r.Valid() && r.ty == ty
      modifies this`num, this`den
      ensures outcome ==
              if DifferenceFitsIn(ty, old(num), old(den), old(r.num), old(r.den)) then Computed else OutOfRange
      ensures outcome == Computed ==>
                Valid()
                && SameValue(num, den, old(num) * old(r.den) - old(r.num) * old(den), old(den) * old(r.den))
    {
      var rNum, rDen := r.num, r.den;
      DifferencePlan(ty, num, den, rNum, rDen);
      var g := TheGcd(ty, den, rDen);
      var b1, d1 := ty.Fit(Quot(den, g)), ty.Fit(Quot(rDen, g));
      var left, right := num * d1, rNum * b1;
      if !ty.Has(left) || !ty.Has(right) || !ty.Has(left - right) { return OutOfRange; }
      var h := TheGcd(ty, left - right, g);
      var d := b1 * Quot(rDen, h);
      if !ty.Has(d) { return OutOfRange; }
      num, den := ty.Fit(Quot(left - right, h)), d;
      outcome := Computed;
    }

    // The product needs no more room than its operands and its reduced result.
    method MulAssign(r: Rational) returns (outcome: Arithmetic)
      requires Valid() && r.Valid() && r.ty == ty
      modifies this`num, this`den
      ensures outcome == if ReducedFits(ty, old(num) * old(r.num), old(den) * old(r.den)) then Computed else OutOfRange
      ensures outcome == Computed ==>
                Valid() && SameValue(num, den, old(num) * old(r.num), old(den) * old(r.den))
    {
      var rNum, rDen := r.num, r.den;
      ProductSteps(ty, num, den, rNum, rDen);
      QuotientFits(ty, num, rDen);
      QuotientFits(ty, rNum, den);
      var gcd1 := TheGcd(ty, num, rDen);
      var gcd2 := TheGcd(ty, rNum, den);
      var n := ty.Fit(Quot(num, gcd1)) * ty.Fit(Quot(rNum, gcd2));
      var d := ty.Fit(Quot(den, gcd2)) * ty.Fit(Quot(rDen, gcd1));
      if !ty.Has(n) || !ty.Has(d) { return OutOfRange; }
      num, den := n, d;
      outcome := Computed;
    }

    // Division by zero is refused and changes nothing. Otherwise the quotient is computed exactly when
    // QuotientFitsIn holds; the signs are turned last, and nothing is tested after that.
    method DivAssign(r: Rational) returns (outcome: Arithmetic)
      requires Valid() && r.Valid() && r.ty == ty
      modifies this`num, this`den
      ensures outcome == DividedByZero <==> old(r.num) == 0
      ensures outcome == OutOfRange <==>
              old(r.num) != 0 && !QuotientFitsIn(ty, old(num), old(den), old(r.num), old(r.den))
      ensures outcome == Computed ==>
                Valid() && SameValue(num, den, old(num) * old(r.den), old(den) * old(r.num))
      ensures outcome == DividedByZero ==> num == old(num) && den == old(den)
      ensures old(num) == 0 && old(r.num) != 0 ==> outcome == Computed && num == 0 && den == old(den)
    {
      var rNum, rDen := r.num, r.den;
      if rNum == 0 { return DividedByZero; }
      if num == 0 { return Computed; }
      QuotientSteps(ty, num, den, rNum, rDen);
      var gcd1 := IntGcd(ty, num, rNum);
      if gcd1 == Undefined { return OutOfRange; }
      var gcd2 := TheGcd(ty, rDen, den);
      var n := ty.Fit(Quot(num, gcd1.value)) * ty.Fit(Quot(rDen, gcd2));
      var d := ty.Fit(Quot(den, gcd2)) * ty.Fit(Quot(rNum, gcd1.value));
      if !ty.Has(n) || !ty.Has(d) { return OutOfRange; }
      if d < 0 {
        if !ty.Has(-n) || !ty.Has(-d) { return OutOfRange; }
        n, d := -n, -d;
      }
      num, den := n, d;
      outcome := Computed;
    }

    // ----- the forms that take an integer

    method MulInteger(i: int) returns (outcome: Arithmetic)
      requires Valid() && ty.Has(i)
      modifies this`num, this`den
      ensures outcome == if ReducedFits(ty, old(num) * i, old(den)) then Computed else OutOfRange
      ensures outcome == Computed ==> Valid() && SameValue(num, den, old(num) * i, old(den))
    {
      CoprimeBy(i, 1, 0, 1);
      CoprimeBy(num, 1, 0, 1);
      ProductSteps(ty, num, den, i, 1);
      QuotExact(num, 1, num);
      QuotExact(1, 1, 1);
      QuotientFits(ty, i, den);
      var gcd := TheGcd(ty, i, den);
      var n := num * ty.Fit(Quot(i, gcd));
      if !ty.Has(n) { return OutOfRange; }
      num := n;
      den := ty.Fit(Quot(den, gcd));
      outcome := Computed;
    }

    method DivInteger(i: int) returns (outcome: Arithmetic)
      requires Valid() && ty.Has(i)
      modifies this`num, this`den
      ensures outcome == DividedByZero <==> i == 0
      ensures outcome == OutOfRange <==> i != 0 && !QuotientFitsIn(ty, old(num), old(den), i, 1)
      ensures outcome == Computed ==> Valid() && SameValue(num, den, old(num), old(den) * i)
      ensures outcome == DividedByZero ==> num == old(num) && den == old(den)
      ensures old(num) == 0 && i != 0 ==> outcome == Computed && num == 0 && den == old(den)
    {
      if i == 0 { return DividedByZero; }
      if num == 0 { return Computed; }
      IntegerSteps(ty, num, den, i);
      var gcd := IntGcd(ty, num, i);
      if gcd == Undefined { return OutOfRange; }
      var n := ty.Fit(Quot(num, gcd.value));
      var d := den * ty.Fit(Quot(i, gcd.value));
      if !ty.Has(d) { return OutOfRange; }
      if d < 0 {
        if !ty.Has(-n) || !ty.Has(-d) { return OutOfRange; }
        n, d := -n, -d;
      }
      num, den := n, d;
      outcome := Computed;
    }

    // ----- comparison

    // The order of the values, found term by term along the two continued fractions. Every quotient,
    // remainder and shifted part on the way is a value of the type, whatever the operands.
    method LessThan(r: Rational) returns (less: bool)
      requires ty.Valid() && r.ty == ty
      requires den > 0 && r.den > 0 && ty.Has(num) && ty.Has(den) && ty.Has(r.num) && ty.Has(r.den)
      ensures less <==> num * r.den < r.num * den
    {
      var tn, td, tq, tr := FirstTerm(num, den);
      var rn, rd, rq, rr := r.FirstTerm(r.num, r.den);
      var reverse := false;
      ghost var difference := Cross(num, den, r.num, r.den);
      while true
        invariant tn == tq * td + tr && 0 <= tr < td && ty.Has(tq) && ty.Has(tr) && ty.Has(td)
        invariant rn == rq * rd + rr && 0 <= rr < rd && ty.Has(rq) && ty.Has(rr) && ty.Has(rd)
        invariant Cross(tn, td, rn, rd) == if reverse then -difference else difference
        decreases td
      {
        if tq != rq {
          if tq < rq {
            QuotientsDecide(tn, td, tq, tr, rn, rd, rq, rr);
          } else {
            QuotientsDecide(rn, rd, rq, rr, tn, td, tq, tr);
          }
          return if reverse then tq > rq else tq < rq;
        }
        RemaindersDecide(tn, td, tr, rn, rd, rr, tq);
        reverse := !reverse;
        if tr == 0 || rr == 0 {
          break;
        }
        tn, td := td, tr;
        tq, tr := NextTerm(tn, td);
        rn, rd := rd, rr;
        rq, rr := NextTerm(rn, rd);
      }
      EndedTerms(tr, td, rr, rd);
      if tr == rr {
        less := false;
      } else {
        less := (tr != 0) != reverse;
      }
    }

    // The first quotient and remainder, with a negative remainder made up by adding the denominator.
    method FirstTerm(n: int, d: int) returns (tn: int, td: int, q: int, r: int)
      requires ty.Valid() && d > 0 && ty.Has(n) && ty.Has(d)
      ensures tn == n && td == d && n == q * d + r && 0 <= r < d && ty.Has(q) && ty.Has(r)
    {
      QuotBounds(n, d);
      Commute(d, Quot(n, d));
      RemainderFits(n, d, Quot(n, d), Rem(n, d));
      tn, td, q, r := n, d, ty.Fit(Quot(n, d)), ty.Fit(Rem(n, d));
      while r < 0
        invariant n == q * d + r && -d < r < d && ty.Has(q) && ty.Has(r)
        decreases -r
      {
        Distribute(d, q, 1);
        FloorAtLeast(n, d, q - 1, r + d);
        r := ty.Fit(r + d);
        q := ty.Fit(q - 1);
      }
    }

    method NextTerm(n: int, d: int) returns (q: int, r: int)
      requires ty.Valid() && n > 0 && d > 0 && ty.Has(n) && ty.Has(d)
      ensures n == q * d + r && 0 <= r < d && ty.Has(q) && ty.Has(r)
    {
      QuotBounds(n, d);
      Commute(d, Quot(n, d));
      q, r := ty.Fit(Quot(n, d)), ty.Fit(Rem(n, d));
    }

    method GreaterThan(r: Rational) returns (greater: bool)
      requires ty.Valid() && r.ty == ty
      requires den > 0 && r.den > 0 && ty.Has(num) && ty.Has(den) && ty.Has(r.num) && ty.Has(r.den)
      ensures greater <==> num * r.den > r.num * den
    {
      greater := r.LessThan(this);
    }

    // In lowest terms the values are equal exactly when the parts are.
    method Equals(r: Rational) returns (same: bool)
      requires Valid() && r.Valid()
      ensures same <==> num * r.den == r.num * den
    {
      NormalUnique(num, den, r.num, r.den);
      same := num == r.num && den == r.den;
    }

    // Of two numbers exactly one is less, or they are the same.
    method Compare(r: Rational) returns (less: bool, same: bool, greater: bool)
      requires Valid() && r.Valid() && r.ty == ty
      ensures less <==> num * r.den < r.num * den
      ensures (less && !same && !greater) || (!less && same && !greater) || (!less && !same && greater)
      ensures same <==> num == r.num && den == r.den
    {
      less := LessThan(r);
      same := Equals(r);
      greater := GreaterThan(r);
      NormalUnique(num, den, r.num, r.den);
    }

    method LessThanInteger(i: int) returns (less: bool)
      requires ty.Valid() && den > 0 && ty.Has(num) && ty.Has(den)
      ensures less <==> num < i * den
    {
      var n, d, q, r := FirstTerm(num, den);
      if q < i { MulMonotone(den, q + 1, i); } else { MulMonotone(den, i, q); }
      Distribute(den, q, 1);
      less := q < i;
    }

    method EqualsInteger(i: int) returns (same: bool)
      requires Valid()
      ensures same <==> num == i * den
    {
      CoprimeBy(i, 1, 0, 1);
      NormalUnique(num, den, i, 1);
      same := den == 1 && num == i;
    }

    method GreaterThanInteger(i: int) returns (greater: bool)
      requires Valid()
      ensures greater <==> num > i * den
    {
      var same := EqualsInteger(i);
      if same {
        greater := false;
      } else {
        var less := LessThanInteger(i);
        greater := !less;
      }
    }
  }

  lemma {:induction false} ZeroFits(ty: IntType, d: int)
    requires ty.Valid() && ty.Has(d) && d != 0
    ensures ReducedFits(ty, 0, d)
  {
    CoprimeBy(0, 1, 0, 1);
    forall a: int, b: int | Normal(a, b) && SameValue(a, b, 0, d) ensures ty.Has(a) && ty.Has(b) {
      if a != 0 { MulAtLeast(Abs(a), d); NegateProduct(a, d); }
      NormalUnique(a, b, 0, 1);
    }
  }

  // Dividing by the common factor, and turning both signs if the denominator is negative, gives the
  // reduced form; in a two's complement type one of the two may be the least value and refuse to turn.
  lemma {:induction false} ReducedForm(ty: IntType, n: int, d: int)
    requires ty.Valid() && ty.Has(n) && ty.Has(d) && n != 0 && d != 0
    ensures var g := Gcd(n, d);
            && g > 0
            && var p, q := Quot(n, g), Quot(d, g);
            && ty.Has(p) && ty.Has(q)
            && (d > 0 ==> Normal(p, q) && SameValue(p, q, n, d) && ReducedFits(ty, n, d))
            && (d < 0 ==> q < 0 && Normal(-p, -q) && SameValue(-p, -q, n, d)
                          && (ReducedFits(ty, n, d) <==> ty.Has(-p) && ty.Has(-q))
                          && !SameValue(p, -q, n, d))
  {
    var g := Gcd(n, d);
    QuotientsCoprime(n, d);
    QuotBounds(n, g);
    QuotBounds(d, g);
    var p, q := Quot(n, g), Quot(d, g);
    ReducedValues(p, q, g);
    if d > 0 {
      Positive(q, g);
      ReducedIs(ty, p, q, n, d);
    } else {
      NegateProduct(q, g);
      Positive(-q, g);
      GcdNegated(p, q);
      GcdNegated(-p, q);
      ReducedIs(ty, -p, -q, n, d);
    }
  }

  // Taking out a common factor keeps the value, turning one sign only does not.
  lemma {:induction false} ReducedValues(p: int, q: int, g: int)
    ensures SameValue(p, q, p * g, q * g) && SameValue(-p, -q, p * g, q * g)
    ensures p * g != 0 && q * g != 0 ==> !SameValue(p, -q, p * g, q * g)
  {
    Associate(p, q, g);
    Associate(p, g, q);
    Commute(q, g);
    NegateProduct(p, q * g);
    NegateProduct(q, p * g);
    Commute(q, p * g);
    if p * g != 0 && q * g != 0 { NonZeroProduct(p, q * g); }
  }

  lemma {:induction false} SameAsReduced(a: int, b: int, p: int, q: int, n: int, d: int)
    requires d != 0 && Normal(a, b) && Normal(p, q) && SameValue(a, b, n, d) && SameValue(p, q, n, d)
    ensures a == p && b == q
  {
    // a*q*d == a*d*q == n*b*q == p*d*b
    Associate(a, q, d);
    Associate(n, b, q);
    Associate(p, b, d);
    CancelRight(a * q, p * b, d);
    NormalUnique(a, b, p, q);
  }

  // A multiple of the least value other than itself is no value of the type.
  lemma {:induction false} LeastQuotient(ty: IntType, n: int, p: int, g: int)
    requires ty.Valid() && ty.TwosComplement() && ty.Has(n) && g > 0 && n == p * g
    ensures p == ty.lo <==> n == ty.lo && g == 1
  {
    if p == ty.lo && g > 1 { MulMonotoneBy(-p, 2, g); NegateProduct(p, g); }
    if n == ty.lo && g == 1 { assert p == n; }
  }

  // A caller's condition for the reduced form to be one of the type.
  lemma {:induction false} NormalizationDecided(ty: IntType, n: int, d: int)
    requires ty.Valid() && ty.Has(n) && ty.Has(d)
    ensures NormalizesExactly(ty, n, d) <==>
            d != 0 && ReducedFits(ty, n, d) && !(ty.TwosComplement() && n == ty.lo && d == ty.lo)
  {
    if n == 0 && d != 0 { ZeroFits(ty, d); }
    if n != 0 && d != 0 {
      ReducedForm(ty, n, d);
      if ty.TwosComplement() {
        QuotientsCoprime(n, d);
        LeastQuotient(ty, n, Quot(n, Gcd(n, d)), Gcd(n, d));
        LeastQuotient(ty, d, Quot(d, Gcd(n, d)), Gcd(n, d));
        GcdSelf(n);
      }
    }
  }

  lemma {:induction false} NoGcdNoReduction(ty: IntType, n: int, d: int)
    requires ty.Valid() && n != 0 && d != 0 && !GcdDefined(ty, n, d)
    ensures ty.TwosComplement() && !NormalizesExactly(ty, n, d)
  {
    CoprimeBy(n, -1, 0, -1);
    CoprimeBy(-1, d, -1, 0);
  }

  // Where the gcd is defined: the divided parts with their signs turned, as far as they can be.
  lemma {:induction false} NormalizeEnds(ty: IntType, n: int, d: int)
    requires ty.Valid() && ty.Has(n) && ty.Has(d) && n != 0 && d != 0 && GcdDefined(ty, n, d)
    ensures var g := Gcd(n, d);
            && g > 0
            && var p, q := Quot(n, g), Quot(d, g);
            && ty.Has(p) && ty.Has(q) && (q < 0 <==> d < 0)
            && var x, y := if q < 0 then ty.Negate(p) else p, if q < 0 then ty.Negate(q) else q;
            && (y < 0 <==> StaysSingular(ty, n, d))
            && (y < 0 ==> !NormalizesExactly(ty, n, d) && !TurnsOneSign(ty, n, d))
            && (NormalizesExactly(ty, n, d) ==>
                  !TurnsOneSign(ty, n, d) && ty.Has(x) && ty.Has(y) && Normal(x, y) && SameValue(x, y, n, d))
            && (y >= 0 && !NormalizesExactly(ty, n, d) ==>
                  TurnsOneSign(ty, n, d) && x == n && y == -d && !SameValue(x, y, n, d))
  {
    var g := Gcd(n, d);
    ReducedForm(ty, n, d);
    QuotientsCoprime(n, d);
    if d > 0 {
      Positive(Quot(d, g), g);
    } else if ty.TwosComplement() {
      LeastQuotient(ty, n, Quot(n, g), g);
      LeastQuotient(ty, d, Quot(d, g), g);
    }
  }

  // The least value over -1 fails in every two's complement type; over minus the greatest value it
  // comes out negated; and the greatest value over the least has no denominator to turn.
  lemma {:induction false} NormalizationMayFail(ty: IntType)
    requires ty.Valid() && ty.TwosComplement() && ty.hi > 1
    ensures !NormalizesExactly(ty, ty.lo, -1) && (GcdDefined(ty, ty.lo, -1) <==> ty.narrow)
    ensures TurnsOneSign(ty, ty.lo, -ty.hi)
    ensures GcdDefined(ty, ty.hi, ty.lo) && Coprime(ty.hi, ty.lo)
  {
    CoprimeBy(ty.lo, -1, 0, -1);
    CoprimeBy(ty.lo, -ty.hi, -1, 1);
    CoprimeBy(ty.hi, ty.lo, -1, -1);
  }

  lemma {:induction false} RemainderFits(n: int, d: int, q: int, r: int)
    requires d > 0 && n == q * d + r && -d < r < d && (n >= 0 ==> 0 <= q && r >= 0) && (n < 0 ==> q <= 0 && r <= 0)
    ensures n >= 0 ==> 0 <= r < d
    ensures n < 0 ==> n <= r <= 0
  {
  }

  lemma {:induction false} FloorAtLeast(n: int, d: int, q: int, r: int)
    requires d > 0 && n == q * d + r && 0 <= r < d
    ensures n < 0 ==> n <= q < 0
    ensures n >= 0 ==> 0 <= q <= n
  {
    if n < 0 {
      if q >= 0 { MulMonotone(d, 0, q); }
      MulMonotoneBy(-q, 1, d);
      NegateProduct(q, d);
      if q < n {
        Distribute(d, q, 1);
        NegateProduct(q + 1, d);
        MulMonotoneBy(-(q + 1), 1, d);
      }
    } else {
      if q < 0 { MulMonotone(d, q + 1, 0); Distribute(d, q, 1); }
      if q > 0 { MulPositive(q, d); }
    }
  }

  lemma {:induction false} MulMonotoneBy(k: int, x: int, y: int)
    requires k >= 0 && x <= y
    ensures k * x <= k * y
  {
  }

  // When one expansion has ended, the one with a remainder left is the greater.
  lemma {:induction false} EndedTerms(r: int, d: int, s: int, b: int)
    requires 0 <= r < d && 0 <= s < b && (r == 0 || s == 0)
    ensures Cross(r, d, s, b) < 0 <==> r == 0 && s != 0
    ensures Cross(r, d, s, b) > 0 <==> r != 0 && s == 0
  {
  }

  // What a division needs of a bounded type, beyond room for its result: the common factor of the
  // numerators, and, when dividing by a negative number, the result with its signs not yet turned.
  ghost predicate QuotientFitsIn(ty: IntType, n1: int, d1: int, n2: int, d2: int) {
    n1 != 0 ==>
      && ty.Has(Gcd(n1, n2))
      && ReducedFits(ty, n1 * d2, d1 * n2)
      && (n2 < 0 ==> ReducedFits(ty, -(n1 * d2), d1 * n2))
  }

  // Zero over anything needs none of it, in any type.
  lemma {:induction false} ZeroDivides(ty: IntType, d1: int, n2: int, d2: int)
    ensures QuotientFitsIn(ty, 0, d1, n2, d2)
  {
  }

  // Values confined to [-hi, hi] always have that room.
  lemma {:induction false} SymmetricTypesDivide(ty: IntType, n1: int, d1: int, n2: int, d2: int)
    requires ty.Valid() && ty.Symmetric() && ty.Has(n1) && ty.Has(n2)
    requires n2 != 0 && ReducedFits(ty, n1 * d2, d1 * n2)
    ensures QuotientFitsIn(ty, n1, d1, n2, d2)
  {
    CommonBound(n1, n2);
    forall a: int, b: int | Normal(a, b) && SameValue(a, b, -(n1 * d2), d1 * n2) ensures ty.Has(a) && ty.Has(b) {
      GcdNegated(a, b);
      NegateProduct(a, d1 * n2);
      NegateProduct(n1 * d2, b);
      assert Normal(-a, b) && SameValue(-a, b, n1 * d2, d1 * n2);
    }
  }

  lemma {:induction false} CommonBound(n1: int, n2: int)
    requires n2 != 0
    ensures 0 < Gcd(n1, n2) <= Abs(n2)
  {
    GcdPositive(n1, n2);
  }

  // A two's complement type need not: half its range over -1/2 is its least value, but the code
  // multiplies by 2 before it turns the sign.
  lemma {:induction false} TwosComplementMayNot(ty: IntType, half: int)
    requires ty.Valid() && ty.TwosComplement() && ty.hi + 1 == 2 * half && half > 1
    ensures Normal(half, 1) && Normal(-1, 2) && ty.Has(half) && ty.Has(2)
    ensures ReducedFits(ty, half * 2, 1 * -1)
    ensures var g1, g2 := Gcd(half, -1), Gcd(2, 1);
            g1 > 0 && g2 > 0 && !ty.Has(Quot(half, g1) * Quot(2, g2))
  {
    CoprimeBy(half, 1, 0, 1);
    CoprimeBy(-1, 2, 1, 1);
    CoprimeBy(ty.lo, 1, 0, 1);
    forall a: int, b: int | Normal(a, b) && SameValue(a, b, half * 2, 1 * -1) ensures ty.Has(a) && ty.Has(b) {
      assert SameValue(a, b, ty.lo, 1);
      NormalUnique(a, b, ty.lo, 1);
    }
    CoprimeBy(half, -1, 0, -1);
    CoprimeBy(2, 1, 0, 1);
    QuotExact(half, 1, half);
    QuotExact(2, 1, 2);
  }

  lemma {:induction false} QuotientNormal(n1: int, d1: int, n2: int, d2: int)
    requires Normal(n1, d1) && Normal(n2, d2) && n2 != 0
    ensures var g1, g2 := Gcd(n1, n2), Gcd(d2, d1);
            && g1 > 0 && g2 > 0
            && var n := Quot(n1, g1) * Quot(d2, g2);
            var d := Quot(d1, g2) * Quot(n2, g1);
            && (d > 0 <==> n2 > 0)
            && SameValue(n, d, n1 * d2, d1 * n2) && SameValue(-n, -d, n1 * d2, d1 * n2)
            && (n2 > 0 ==> Normal(n, d))
            && (n2 < 0 ==> Normal(-n, -d) && Normal(n, -d) && SameValue(n, -d, -(n1 * d2), d1 * n2))
  {
    CoprimeSymmetric(n2, d2);
    CrossCancel(n1, d1, d2, n2);
    var g1, g2 := Gcd(n1, n2), Gcd(d2, d1);
    var s, t := Quot(d1, g2), Quot(n2, g1);
    var n, d := Quot(n1, g1) * Quot(d2, g2), s * t;
    Positive(s, g2);
    if n2 > 0 {
      Positive(t, g1);
      MulPositive(s, t);
    } else {
      NegateProduct(t, g1);
      Positive(-t, g1);
      MulPositive(s, -t);
      NegateProduct(t, s);
    }
    GcdNegated(n, d);
    GcdNegated(-n, d);
    NegateProduct(n, d1 * n2);
    NegateProduct(d, n1 * d2);
    NegateProduct(n1 * d2, d);
  }

  // A quotient in lowest terms that the type can hold is computed unless the type is two's complement
  // and either both numerators are its least value, whose gcd is too large, or the divisor is negative
  // and the quotient's numerator is the least value, which has no counterpart to turn the sign of.
  lemma {:induction false} DivisionDecided(ty: IntType, n1: int, d1: int, n2: int, d2: int, a: int, b: int)
    requires ty.Valid() && ty.Has(n1) && ty.Has(n2) && n1 != 0 && n2 != 0
    requires Normal(n1, d1) && Normal(n2, d2)
    requires Normal(a, b) && SameValue(a, b, n1 * d2, d1 * n2) && ty.Has(a) && ty.Has(b)
    ensures QuotientFitsIn(ty, n1, d1, n2, d2) <==>
            !(ty.TwosComplement() && ((n1 == ty.lo && n2 == ty.lo) || (n2 < 0 && a == ty.lo)))
  {
    NonZeroProduct(d1, n2);
    ReducedIs(ty, a, b, n1 * d2, d1 * n2);
    GcdNegated(a, b);
    NegateProduct(a, d1 * n2);
    NegateProduct(n1 * d2, b);
    ReducedIs(ty, -a, b, -(n1 * d2), d1 * n2);
    GcdOfLeast(ty, n1, n2);
  }

  // ----- sums and differences

  // Every value that the code computes on its way to a sum: the two terms over the least common
  // denominator, their sum, and the reduced denominator.
  ghost predicate SumStepsFit(ty: IntType, a: int, b: int, c: int, d: int)
    requires Normal(a, b) && Normal(c, d)
  {
    ReduceSum(a, b, c, d);
    var g := Gcd(b, d);
    var left, right := a * Quot(d, g), c * Quot(b, g);
    && ty.Has(left) && ty.Has(right) && ty.Has(left + right)
    && ty.Has(Quot(b, g) * Quot(d, Gcd(left + right, g)))
  }

  ghost predicate DifferenceStepsFit(ty: IntType, a: int, b: int, c: int, d: int)
    requires Normal(a, b) && Normal(c, d)
  {
    ReduceDifference(a, b, c, d);
    var g := Gcd(b, d);
    var left, right := a * Quot(d, g), c * Quot(b, g);
    && ty.Has(left) && ty.Has(right) && ty.Has(left - right)
    && ty.Has(Quot(b, g) * Quot(d, Gcd(left - right, g)))
  }

  // The terms have the signs of the numerators.
  lemma {:induction false} TermSigns(a: int, b: int, c: int, d: int)
    requires Normal(a, b) && Normal(c, d)
    ensures var g := Gcd(b, d);
            && g > 0
            && (SameSign(a, c) ==> SameSign(a * Quot(d, g), c * Quot(b, g)))
            && (SameSign(a, -c) ==> SameSign(a * Quot(d, g), -(c * Quot(b, g))))
            && (a > 0 ==> a * Quot(d, g) > 0) && (a < 0 ==> a * Quot(d, g) < 0)
            && (c > 0 ==> c * Quot(b, g) > 0) && (c < 0 ==> c * Quot(b, g) < 0)
  {
    QuotientsCoprime(b, d);
    Positive(Quot(b, Gcd(b, d)), Gcd(b, d));
    Positive(Quot(d, Gcd(b, d)), Gcd(b, d));
    SignOfProduct(a, Quot(d, Gcd(b, d)));
    SignOfProduct(c, Quot(b, Gcd(b, d)));
  }

  lemma {:induction false} SignOfProduct(x: int, k: int)
    requires k > 0
    ensures (x > 0 ==> x * k > 0) && (x < 0 ==> x * k < 0) && (x == 0 ==> x * k == 0)
  {
  }

  // The reduced numerator has room where the sum of the terms has.
  lemma {:induction false} ReducedNumerator(ty: IntType, n: int, h: int)
    requires ty.Valid() && h > 0
    ensures ty.Has(n) ==> ty.Has(Quot(n, h))
    ensures n == Quot(n, h) * h && Quot(n, h) >= 0 ==> n >= 0
  {
    QuotBounds(n, h);
    if Quot(n, h) > 0 { MulPositive(Quot(n, h), h); }
  }

  // The steps of a sum fit exactly when SumFitsIn holds.
  lemma {:induction false} SumSteps(ty: IntType, a: int, b: int, c: int, d: int)
    requires ty.Valid() && Normal(a, b) && Normal(c, d)
    ensures SumFitsIn(ty, a, b, c, d) <==> SumStepsFit(ty, a, b, c, d)
  {
    ReduceSum(a, b, c, d);
    TermSigns(a, b, c, d);
    var g := Gcd(b, d);
    var n := a * Quot(d, g) + c * Quot(b, g);
    var h := Gcd(n, g);
    NonZeroProduct(b, d);
    ReducedIs(ty, Quot(n, h), Quot(b, g) * Quot(d, h), a * d + c * b, b * d);
    ReducedNumerator(ty, n, h);
  }

  // Zero in lowest terms leaves the other term as it is.
  lemma {:induction false} ZeroTerm(a: int, b: int, c: int, d: int)
    requires Normal(a, b) && Normal(c, d) && a == 0
    ensures Gcd(b, d) == 1 && c * Quot(b, Gcd(b, d)) == c && a * Quot(d, Gcd(b, d)) == 0
  {
    GcdZero(b);
    CoprimeBy(1, d, 1, 0);
    QuotExact(1, 1, 1);
  }

  // The steps of a difference fit exactly when DifferenceFitsIn holds.
  lemma {:induction false} DifferenceSteps(ty: IntType, a: int, b: int, c: int, d: int)
    requires ty.Valid() && Normal(a, b) && Normal(c, d) && ty.Has(a) && ty.Has(c)
    ensures DifferenceFitsIn(ty, a, b, c, d) <==> DifferenceStepsFit(ty, a, b, c, d)
  {
    ReduceDifference(a, b, c, d);
    TermSigns(a, b, c, d);
    var g := Gcd(b, d);
    var n := a * Quot(d, g) - c * Quot(b, g);
    var h := Gcd(n, g);
    NonZeroProduct(b, d);
    ReducedIs(ty, Quot(n, h), Quot(b, g) * Quot(d, h), a * d - c * b, b * d);
    ReducedNumerator(ty, n, h);
    QuotientsCoprime(n, g);
    if a == 0 { ZeroTerm(a, b, c, d); }
  }

  // The values of a sum in the order of the code.
  lemma {:induction false} SumPlan(ty: IntType, a: int, b: int, c: int, d: int)
    requires ty.Valid() && Normal(a, b) && Normal(c, d) && ty.Has(a) && ty.Has(b) && ty.Has(c) && ty.Has(d)
    ensures var g := Gcd(b, d);
            && g > 0 && ty.Has(Quot(b, g)) && ty.Has(Quot(d, g))
            && var left, right := a * Quot(d, g), c * Quot(b, g);
            var n := left + right;
            var h := Gcd(n, g);
            && h > 0 && (ty.Has(n) ==> ty.Has(Quot(n, h)))
            && var x, y := Quot(n, h), Quot(b, g) * Quot(d, h);
            && Normal(x, y) && SameValue(x, y, a * d + c * b, b * d)
            && (SumFitsIn(ty, a, b, c, d) <==> ty.Has(left) && ty.Has(right) && ty.Has(n) && ty.Has(y))
  {
    SumSteps(ty, a, b, c, d);
    ReduceSum(a, b, c, d);
    QuotientFits(ty, b, d);
    var g := Gcd(b, d);
    var n := a * Quot(d, g) + c * Quot(b, g);
    ReducedNumerator(ty, n, Gcd(n, g));
  }

  // The values of a difference in the order of the code.
  lemma {:induction false} DifferencePlan(ty: IntType, a: int, b: int, c: int, d: int)
    requires ty.Valid() && Normal(a, b) && Normal(c, d) && ty.Has(a) && ty.Has(b) && ty.Has(c) && ty.Has(d)
    ensures var g := Gcd(b, d);
            && g > 0 && ty.Has(Quot(b, g)) && ty.Has(Quot(d, g))
            && var left, right := a * Quot(d, g), c * Quot(b, g);
            var n := left - right;
            var h := Gcd(n, g);
            && h > 0 && (ty.Has(n) ==> ty.Has(Quot(n, h)))
            && var x, y := Quot(n, h), Quot(b, g) * Quot(d, h);
            && Normal(x, y) && SameValue(x, y, a * d - c * b, b * d)
            && (DifferenceFitsIn(ty, a, b, c, d) <==> ty.Has(left) && ty.Has(right) && ty.Has(n) && ty.Has(y))
  {
    DifferenceSteps(ty, a, b, c, d);
    ReduceDifference(a, b, c, d);
    QuotientFits(ty, b, d);
    var g := Gcd(b, d);
    var n := a * Quot(d, g) - c * Quot(b, g);
    ReducedNumerator(ty, n, Gcd(n, g));
  }

  // With coprime denominators every fitting sum of numbers with the same sign is computed.
  lemma {:induction false} CoprimeDenominatorsAdd(ty: IntType, a: int, b: int, c: int, d: int)
    requires ty.Valid() && Normal(a, b) && Normal(c, d) && Coprime(b, d) && SameSign(a, c)
    ensures SumFitsIn(ty, a, b, c, d) <==> ReducedFits(ty, a * d + c * b, b * d)
  {
    ReduceSum(a, b, c, d);
    QuotExact(b, 1, b);
    QuotExact(d, 1, d);
    var n := a * d + c * b;
    GcdOne(n);
    QuotExact(n, 1, n);
    NonZeroProduct(b, d);
    ReducedIs(ty, n, b * d, n, b * d);
  }

  // With equal denominators every sum of numbers with opposite signs is computed.
  lemma {:induction false} EqualDenominatorsAdd(ty: IntType, a: int, b: int, c: int)
    requires ty.Valid() && Normal(a, b) && Normal(c, b) && ty.Has(a) && ty.Has(c) && ty.Has(b)
    requires SameSign(a, -c)
    ensures SumFitsIn(ty, a, b, c, b)
  {
    EqualDenominators(a, b, c);
    var h := Gcd(a + c, b);
    NonZeroProduct(b, b);
    QuotBounds(b, h);
    QuotBounds(a + c, h);
    ReducedIs(ty, Quot(a + c, h), Quot(b, h), a * b + c * b, b * b);
  }

  lemma {:induction false} EqualDenominators(a: int, b: int, c: int)
    requires Normal(a, b) && Normal(c, b)
    ensures Gcd(b, b) > 0 && a * Quot(b, Gcd(b, b)) == a && c * Quot(b, Gcd(b, b)) == c
    ensures var h := Gcd(a + c, b);
            h > 0 && Normal(Quot(a + c, h), Quot(b, h)) && SameValue(Quot(a + c, h), Quot(b, h), a * b + c * b, b * b)
  {
    GcdSelf(b);
    QuotExact(b, b, 1);
    ReduceSum(a, b, c, b);
  }

  // The greatest odd value over 2, added to itself, is that value, but the numerators are added before
  // anything is cancelled. A difference of opposite numbers does the same.
  lemma {:induction false} SumMayNotFit(ty: IntType)
    requires ty.Valid() && ty.Bounded? && ty.hi > 2
    ensures var x := if ty.hi % 2 == 1 then ty.hi else ty.hi - 1;
            && Normal(x, 2) && ty.Has(x) && ty.Has(2)
            && ReducedFits(ty, x * 2 + x * 2, 2 * 2) && !SumFitsIn(ty, x, 2, x, 2)
            && (ty.lo < 0 ==>
                  && Normal(-x, 2) && ty.Has(-x)
                  && ReducedFits(ty, x * 2 - -x * 2, 2 * 2) && !DifferenceFitsIn(ty, x, 2, -x, 2))
  {
    var x := if ty.hi % 2 == 1 then ty.hi else ty.hi - 1;
    CoprimeBy(x, 2, 1, -(x / 2));
    CoprimeBy(x, 1, 0, 1);
    GcdNegated(x, 2);
    ReducedIs(ty, x, 1, x * 2 + x * 2, 2 * 2);
    GcdSelf(2);
    QuotExact(2, 2, 1);
  }

  // With different signs a term over the common denominator may be too large: half of that value less a
  // quarter of it is a quarter of it, but the half is brought to quarters first.
  lemma {:induction false} OppositeTermsMayNotFit(ty: IntType)
    requires ty.Valid() && ty.Bounded? && ty.hi >= 4
    ensures var x := if ty.hi % 2 == 1 then ty.hi else ty.hi - 1;
            && Normal(x, 2) && Normal(x, 4) && Normal(-x, 4) && ty.Has(x) && ty.Has(4)
            && ReducedFits(ty, x * 4 - x * 2, 2 * 4) && !DifferenceFitsIn(ty, x, 2, x, 4)
            && ReducedFits(ty, x * 4 + -x * 2, 2 * 4) && !SumFitsIn(ty, x, 2, -x, 4)
  {
    var x := if ty.hi % 2 == 1 then ty.hi else ty.hi - 1;
    CoprimeBy(x, 2, 1, -(x / 2));
    CoprimeSymmetric(x, 2);
    CoprimeProductRight(x, 2, 2);
    GcdNegated(x, 4);
    ReducedIs(ty, x, 4, x * 4 - x * 2, 2 * 4);
    ReducedIs(ty, x, 4, x * 4 + -x * 2, 2 * 4);
    IsGcdBy(2, 2, 4, 1, 2, 1, 0);
    GcdUnique(2, 2, 4);
    QuotExact(4, 2, 2);
    QuotExact(2, 2, 1);
  }

  lemma {:induction false} NonZeroProduct(x: int, y: int)
    requires x != 0 && y != 0
    ensures x * y != 0
  {
  }

  lemma {:induction false} ReducedIs(ty: IntType, a: int, b: int, n: int, d: int)
    requires d != 0 && Normal(a, b) && SameValue(a, b, n, d)
    ensures ReducedFits(ty, n, d) <==> ty.Has(a) && ty.Has(b)
  {
    forall p: int, q: int | Normal(p, q) && SameValue(p, q, n, d) ensures p == a && q == b {
      SameAsReduced(p, q, a, b, n, d);
    }
  }

  // The only gcd that a type cannot hold is that of its least value with itself.
  lemma {:induction false} GcdOfLeast(ty: IntType, n1: int, n2: int)
    requires ty.Valid() && ty.Has(n1) && ty.Has(n2) && n1 != 0 && n2 != 0
    ensures ty.Has(Gcd(n1, n2)) <==> !(ty.TwosComplement() && n1 == ty.lo && n2 == ty.lo)
  {
    GcdPositive(n1, n2);
    GcdSelf(n1);
  }

  lemma {:induction false} MultipleOfLeast(ty: IntType, k: int)
    requires ty.Valid() && ty.TwosComplement() && k > 0
    ensures !ty.Has(-(ty.lo * k)) && !ty.Has(-(k * ty.lo))
  {
  }

  // The least value over -1, and -1 over the least value, have no quotient in a two's complement type.
  lemma {:induction false} LeastDividedByMinusOne(ty: IntType, d1: int, d2: int)
    requires ty.Valid() && ty.TwosComplement()
    requires Normal(ty.lo, d1) && Normal(-1, d2)
    ensures !QuotientFitsIn(ty, ty.lo, d1, -1, d2)
  {
    var lo, g1, g2 := ty.lo, Gcd(ty.lo, -1), Gcd(d2, d1);
    QuotientNormal(lo, d1, -1, d2);
    var n, d := Quot(lo, g1) * Quot(d2, g2), Quot(d1, g2) * Quot(-1, g1);
    CommonBound(lo, -1);
    QuotExact(lo, 1, lo);
    Positive(Quot(d2, g2), g2);
    MultipleOfLeast(ty, Quot(d2, g2));
    NonZeroProduct(d1, -1);
    ReducedIs(ty, -n, -d, lo * d2, d1 * -1);
  }

  lemma {:induction false} MinusOneDividedByLeast(ty: IntType, d1: int, d2: int)
    requires ty.Valid() && ty.TwosComplement()
    requires Normal(-1, d1) && Normal(ty.lo, d2)
    ensures !QuotientFitsIn(ty, -1, d1, ty.lo, d2)
  {
    var lo, g1, g2 := ty.lo, Gcd(-1, ty.lo), Gcd(d2, d1);
    QuotientNormal(-1, d1, lo, d2);
    var n, d := Quot(-1, g1) * Quot(d2, g2), Quot(d1, g2) * Quot(lo, g1);
    GcdSymmetric(-1, lo);
    CommonBound(lo, -1);
    QuotExact(lo, 1, lo);
    Positive(Quot(d1, g2), g2);
    MultipleOfLeast(ty, Quot(d1, g2));
    NonZeroProduct(d1, lo);
    ReducedIs(ty, -n, -d, -1 * d2, d1 * lo);
  }

  // When the quotient fits, integer::gcd is defined on the two numerators.
  lemma {:induction false} QuotientHasGcd(ty: IntType, n1: int, d1: int, n2: int, d2: int)
    requires ty.Valid() && Normal(n1, d1) && Normal(n2, d2) && n1 != 0 && n2 != 0
    requires QuotientFitsIn(ty, n1, d1, n2, d2)
    ensures GcdDefined(ty, n1, n2)
  {
    if ty.TwosComplement() {
      GcdSelf(ty.lo);
      if n1 == ty.lo && n2 == -1 { LeastDividedByMinusOne(ty, d1, d2); }
      if n1 == -1 && n2 == ty.lo { MinusOneDividedByLeast(ty, d1, d2); }
    }
  }

  // Every value that the code computes on its way to the quotient: the two parts multiplied out, and
  // those with their signs turned if the denominator comes out negative.
  ghost predicate QuotientStepsFit(ty: IntType, n1: int, d1: int, n2: int, d2: int)
    requires Gcd(n1, n2) > 0 && Gcd(d2, d1) > 0
  {
    var g1, g2 := Gcd(n1, n2), Gcd(d2, d1);
    var n, d := Quot(n1, g1) * Quot(d2, g2), Quot(d1, g2) * Quot(n2, g1);
    && GcdDefined(ty, n1, n2)
    && ty.Has(n) && ty.Has(d)
    && (d < 0 ==> ty.Has(-n) && ty.Has(-d))
  }

  // The two parts as multiplied out, and when the type can hold them before and after the turn.
  lemma {:induction false} QuotientParts(ty: IntType, n1: int, d1: int, n2: int, d2: int)
    requires Normal(n1, d1) && Normal(n2, d2) && n1 != 0 && n2 != 0
    ensures var g1, g2 := Gcd(n1, n2), Gcd(d2, d1);
            && g1 > 0 && g2 > 0
            && var n, d := Quot(n1, g1) * Quot(d2, g2), Quot(d1, g2) * Quot(n2, g1);
            && (QuotientFitsIn(ty, n1, d1, n2, d2) <==>
                ty.Has(g1) && ty.Has(n) && (if d < 0 then ty.Has(-n) && ty.Has(-d) else ty.Has(d)))
            && (d >= 0 ==> Normal(n, d) && SameValue(n, d, n1 * d2, d1 * n2))
            && (d < 0 ==> Normal(-n, -d) && SameValue(-n, -d, n1 * d2, d1 * n2))
  {
    QuotientNormal(n1, d1, n2, d2);
    var g1, g2 := Gcd(n1, n2), Gcd(d2, d1);
    var n, d := Quot(n1, g1) * Quot(d2, g2), Quot(d1, g2) * Quot(n2, g1);
    NonZeroProduct(d1, n2);
    if n2 > 0 {
      ReducedIs(ty, n, d, n1 * d2, d1 * n2);
    } else {
      ReducedIs(ty, -n, -d, n1 * d2, d1 * n2);
      ReducedIs(ty, n, -d, -(n1 * d2), d1 * n2);
    }
  }

  // They are values of the type exactly when QuotientFitsIn holds; the factors always are.
  lemma {:induction false} QuotientSteps(ty: IntType, n1: int, d1: int, n2: int, d2: int)
    requires ty.Valid() && ty.Has(n1) && ty.Has(d1) && ty.Has(n2) && ty.Has(d2)
    requires Normal(n1, d1) && Normal(n2, d2) && n1 != 0 && n2 != 0
    ensures var g1, g2 := Gcd(n1, n2), Gcd(d2, d1);
            && g1 > 0 && g2 > 0
            && (QuotientFitsIn(ty, n1, d1, n2, d2) <==> QuotientStepsFit(ty, n1, d1, n2, d2))
            && GcdDefined(ty, d2, d1)
            && (GcdDefined(ty, n1, n2) ==> ty.Has(g1) && ty.Has(Quot(n1, g1)) && ty.Has(Quot(n2, g1)))
            && ty.Has(g2) && ty.Has(Quot(d1, g2)) && ty.Has(Quot(d2, g2))
            && var n, d := Quot(n1, g1) * Quot(d2, g2), Quot(d1, g2) * Quot(n2, g1);
            && (d >= 0 ==> Normal(n, d) && SameValue(n, d, n1 * d2, d1 * n2))
            && (d < 0 ==> Normal(-n, -d) && SameValue(-n, -d, n1 * d2, d1 * n2))
  {
    if QuotientFitsIn(ty, n1, d1, n2, d2) { QuotientHasGcd(ty, n1, d1, n2, d2); }
    QuotientParts(ty, n1, d1, n2, d2);
    if GcdDefined(ty, n1, n2) {
      GcdFits(ty, n1, n2);
      CommonFits(ty, n1, n2);
    }
    GcdSymmetric(d2, d1);
    QuotientFits(ty, d1, d2);
  }

  // The steps for an integer divisor.
  lemma {:induction false} IntegerSteps(ty: IntType, n1: int, d1: int, i: int)
    requires ty.Valid() && ty.Has(n1) && ty.Has(d1) && ty.Has(i)
    requires Normal(n1, d1) && n1 != 0 && i != 0
    ensures var g := Gcd(n1, i);
            && g > 0
            && (GcdDefined(ty, n1, i) ==> ty.Has(Quot(n1, g)) && ty.Has(Quot(i, g)))
            && var n, d := Quot(n1, g), d1 * Quot(i, g);
            && (QuotientFitsIn(ty, n1, d1, i, 1) <==>
                GcdDefined(ty, n1, i) && ty.Has(n) && ty.Has(d) && (d < 0 ==> ty.Has(-n) && ty.Has(-d)))
            && (d >= 0 ==> Normal(n, d) && SameValue(n, d, n1, d1 * i))
            && (d < 0 ==> Normal(-n, -d) && SameValue(-n, -d, n1, d1 * i))
  {
    CoprimeBy(i, 1, 0, 1);
    CoprimeBy(1, d1, 1, 0);
    QuotientSteps(ty, n1, d1, i, 1);
    QuotExact(d1, 1, d1);
    QuotExact(1, 1, 1);
  }

  lemma {:induction false} CommonFits(ty: IntType, n1: int, n2: int)
    requires ty.Valid() && ty.Has(n1) && ty.Has(n2) && n2 != 0 && ty.Has(Gcd(n1, n2))
    ensures var g := Gcd(n1, n2);
            g > 0 && ty.Has(Quot(n1, g)) && ty.Has(Quot(n2, g))
  {
    GcdPositive(n1, n2);
    QuotBounds(n1, Gcd(n1, n2));
    QuotBounds(n2, Gcd(n1, n2));
  }

  lemma {:induction false} ProductNormal(n1: int, d1: int, n2: int, d2: int)
    requires Normal(n1, d1) && Normal(n2, d2)
    ensures var g1, g2 := Gcd(n1, d2), Gcd(n2, d1);
            && g1 > 0 && g2 > 0
            && Normal(Quot(n1, g1) * Quot(n2, g2), Quot(d1, g2) * Quot(d2, g1))
  {
    CrossCancel(n1, d1, n2, d2);
    var g1, g2 := Gcd(n1, d2), Gcd(n2, d1);
    Positive(Quot(d1, g2), g2);
    Positive(Quot(d2, g1), g1);
    MulPositive(Quot(d1, g2), Quot(d2, g1));
  }

  // Both parts of the product that the code computes are values of the type exactly when the reduced
  // product is one.
  lemma {:induction false} ProductSteps(ty: IntType, n1: int, d1: int, n2: int, d2: int)
    requires Normal(n1, d1) && Normal(n2, d2)
    ensures var g1, g2 := Gcd(n1, d2), Gcd(n2, d1);
            && g1 > 0 && g2 > 0
            && var n, d := Quot(n1, g1) * Quot(n2, g2), Quot(d1, g2) * Quot(d2, g1);
            && Normal(n, d) && SameValue(n, d, n1 * n2, d1 * d2)
            && (ReducedFits(ty, n1 * n2, d1 * d2) <==> ty.Has(n) && ty.Has(d))
  {
    CrossCancel(n1, d1, n2, d2);
    ProductNormal(n1, d1, n2, d2);
    var g1, g2 := Gcd(n1, d2), Gcd(n2, d1);
    NonZeroProduct(d1, d2);
    ReducedIs(ty, Quot(n1, g1) * Quot(n2, g2), Quot(d1, g2) * Quot(d2, g1), n1 * n2, d1 * d2);
  }

  // Dividing by the greatest common divisor with a positive number stays inside the type.
  lemma {:induction false} QuotientFits(ty: IntType, n: int, d: int)
    requires ty.Valid() && ty.Has(n) && ty.Has(d) && d > 0
    ensures var g := Gcd(n, d);
            g > 0 && ty.Has(g) && ty.Has(Quot(n, g)) && ty.Has(Quot(d, g))
  {
    GcdPositive(n, d);
    QuotBounds(n, Gcd(n, d));
    QuotBounds(d, Gcd(n, d));
  }
}
