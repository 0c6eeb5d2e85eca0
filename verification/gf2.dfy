/** Polynomials over GF(2) as coefficient lists: index i holds the coefficient of x^i. Two lists that
    differ only in trailing zeros stand for the same polynomial. */
module Gf2 {

  type Poly = seq<bool>

  function Coef(p: Poly, i: int): bool {
    0 <= i < |p| && p[i]
  }

  ghost predicate Same(p: Poly, q: Poly) {
    forall i: nat :: Coef(p, i) == Coef(q, i)
  }

  function Add(p: Poly, q: Poly): Poly {
    seq(if |p| < |q| then |q| else |p|, i => Coef(p, i) != Coef(q, i))
  }

  // p times x^k
  function TimesX(p: Poly, k: nat): Poly {
    seq(k, _ => false) + p
  }

  function Mul(p: Poly, g: Poly): Poly {
    if p == [] then [] else Add(if p[0] then g else [], TimesX(Mul(p[1..], g), 1))
  }

  // a and b differ by a multiple of g.
  ghost predicate Congruent(a: Poly, b: Poly, g: Poly) {
    exists q: Poly :: Same(Add(a, b), Mul(q, g))
  }

  lemma {:induction false} CoefAdd(p: Poly, q: Poly, i: int)
    ensures Coef(Add(p, q), i) == (Coef(p, i) != Coef(q, i))
  {
  }

  // Multiplication by c + x*q, coefficient by coefficient.
  lemma {:induction false} CoefMulCons(c: bool, q: Poly, g: Poly, i: int)
    ensures Coef(Mul([c] + q, g), i) == ((c && Coef(g, i)) != Coef(Mul(q, g), i - 1))
  {
  }

  lemma {:induction false} TimesXOneMore(p: Poly, k: nat)
    requires k > 0
    ensures TimesX(p, k) == [false] + TimesX(p, k - 1)
  {
  }

  lemma {:induction false} MulTimesX(p: Poly, g: Poly, k: nat, i: int)
    ensures Coef(Mul(TimesX(p, k), g), i) == Coef(Mul(p, g), i - k)
  {
    if k == 0 {
      assert TimesX(p, 0) == p;
    } else {
      MulTimesX(p, g, k - 1, i - 1);
      TimesXOneMore(p, k);
      CoefMulCons(false, TimesX(p, k - 1), g, i);
    }
  }

  // Multiplying a difference by x and adding c times g does the same to the quotient.
  ghost predicate GrowsBy(a: Poly, r: Poly, c: bool, g: Poly, a': Poly, r': Poly) {
    forall i: nat :: Coef(Add(a', r'), i) == (Coef(Add(a, r), i - 1) != (c && Coef(g, i)))
  }

  lemma {:induction false} QuotientGrows(a: Poly, r: Poly, c: bool, g: Poly, a': Poly, r': Poly)
    requires Congruent(a, r, g) && GrowsBy(a, r, c, g, a', r')
    ensures Congruent(a', r', g)
  {
    var q: Poly :| Same(Add(a, r), Mul(q, g));
    forall i: nat ensures Coef(Add(a', r'), i) == Coef(Mul([c] + q, g), i) {
      CoefMulCons(c, q, g, i);
      if i > 0 { assert Coef(Add(a, r), i - 1) == Coef(Mul(q, g), i - 1); }
    }
    assert Same(Add(a', r'), Mul([c] + q, g));
  }

  lemma {:induction false} MulZero(p: Poly, g: Poly)
    requires Same(p, [])
    ensures Same(Mul(p, g), [])
  {
    if p != [] {
      assert p == [p[0]] + p[1..];
      forall i: nat ensures !Coef(p[1..], i) { assert Coef(p, i + 1) == Coef([], i + 1); }
      MulZero(p[1..], g);
      forall i: nat ensures !Coef(Mul(p, g), i) {
        assert Coef(p, 0) == Coef([], 0);
        CoefMulCons(p[0], p[1..], g, i);
        if i > 0 { assert Coef(Mul(p[1..], g), i - 1) == Coef([], i - 1); }
      }
    }
  }

  function Head(p: Poly): bool { Coef(p, 0) }

  function Tail(p: Poly): Poly { if p == [] then [] else p[1..] }

  // Multiplication splits off the lowest coefficient, whatever the length of the list.
  lemma {:induction false} CoefMulSplit(p: Poly, g: Poly, i: nat)
    ensures Coef(Mul(p, g), i) == ((Head(p) && Coef(g, i)) != Coef(Mul(Tail(p), g), i - 1))
  {
  }

  lemma {:induction false} MulAdd(p: Poly, q: Poly, g: Poly)
    ensures Same(Mul(Add(p, q), g), Add(Mul(p, g), Mul(q, g)))
    decreases |p| + |q|
  {
    var s := Add(p, q);
    if p != [] || q != [] {
      var tails := Add(Tail(p), Tail(q));
      assert Tail(s) == tails;
      MulAdd(Tail(p), Tail(q), g);
      forall i: nat ensures Coef(Mul(s, g), i) == Coef(Add(Mul(p, g), Mul(q, g)), i) {
        CoefAdd(Mul(p, g), Mul(q, g), i);
        CoefMulSplit(s, g, i);
        CoefMulSplit(p, g, i);
        CoefMulSplit(q, g, i);
        if i > 0 {
          CoefAdd(Mul(Tail(p), g), Mul(Tail(q), g), i - 1);
          assert Coef(Mul(tails, g), i - 1) == Coef(Add(Mul(Tail(p), g), Mul(Tail(q), g)), i - 1);
        }
      }
    }
  }

  lemma {:induction false} ZeroByTail(q: Poly)
    requires !Head(q) && Same(Tail(q), [])
    ensures Same(q, [])
  {
    forall i: nat ensures !Coef(q, i) {
      if i > 0 { assert Coef(Tail(q), i - 1) == Coef([], i - 1); }
    }
  }

  // A non-zero multiple of a polynomial of degree n has a term of degree n or more.
  lemma {:induction false} MultipleHasHighTerm(q: Poly, g: Poly, n: nat)
    requires |g| == n + 1 && g[n]
    requires !Same(q, [])
    ensures exists i: nat :: n <= i && Coef(Mul(q, g), i)
  {
    var t := Tail(q);
    if Same(t, []) {
      MulZero(t, g);
      if !Head(q) { ZeroByTail(q); }
      CoefMulSplit(q, g, n);
      if n > 0 { assert Coef(Mul(t, g), n - 1) == Coef([], n - 1); }
      assert Coef(Mul(q, g), n);
    } else {
      MultipleHasHighTerm(t, g, n);
      var i: nat :| n <= i && Coef(Mul(t, g), i);
      CoefMulSplit(q, g, i + 1);
      assert Coef(Mul(q, g), i + 1);
    }
  }

  // Remainders are unique: among the polynomials of degree below that of g, a class has one member.
  lemma {:induction false} RemainderUnique(a: Poly, r: Poly, s: Poly, g: Poly)
    requires |r| == |s| && |g| == |r| + 1 && g[|r|]
    requires Congruent(a, r, g) && Congruent(a, s, g)
    ensures r == s
  {
    var p: Poly :| Same(Add(a, r), Mul(p, g));
    var q: Poly :| Same(Add(a, s), Mul(q, g));
    var d, m := Add(p, q), Mul(Add(p, q), g);
    MulAdd(p, q, g);
    forall i: nat ensures Coef(m, i) == (Coef(r, i) != Coef(s, i)) {
      CoefAdd(a, r, i);
      CoefAdd(a, s, i);
      assert Coef(Add(a, r), i) == Coef(Mul(p, g), i);
      assert Coef(Add(a, s), i) == Coef(Mul(q, g), i);
      CoefAdd(Mul(p, g), Mul(q, g), i);
    }
    if !Same(d, []) {
      MultipleHasHighTerm(d, g, |r|);
      assert false;
    }
    MulZero(d, g);
    forall i: nat | i < |r| ensures r[i] == s[i] {
      assert Coef(m, i) == Coef([], i);
    }
  }
}
