/** The augmented-message form: message bits enter at the bottom of the remainder. */
module CrcAugmented {
  import opened Words
  import opened CrcRemainder
  import opened CrcOptimalModule
  import opened Gf2
  import opened CrcDivision

  function Bottom(n: nat, bit: bool): (r: Word)
    ensures |r| == n
  {
    seq(n, i => i == 0 && bit)
  }

  // The next augmented-message bit is shifted in, and the polynomial subtracted if a one was shifted out.
  function AugStep(poly: Word, rem: Word, bit: bool): (r: Word)
    requires |poly| == |rem| >= 1
    ensures |r| == |rem|
  {
    Xor(Step(poly, rem, false), Bottom(|rem|, bit))
  }

  function AugRun(poly: Word, rem: Word, bits: seq<bool>): (r: Word)
    requires |poly| == |rem| >= 1
    ensures |r| == |rem|
  {
    if bits == [] then rem
    else AugStep(poly, AugRun(poly, rem, bits[..|bits| - 1]), bits[|bits| - 1])
  }

  lemma {:induction false} AugRunConcat(poly: Word, rem: Word, a: seq<bool>, b: seq<bool>)
    requires |poly| == |rem| >= 1
    ensures AugRun(poly, rem, a + b) == AugRun(poly, AugRun(poly, rem, a), b)
  {
    if b == [] {
      assert a + b == a;
    } else {
      AugRunConcat(poly, rem, a, b[..|b| - 1]);
      assert (a + b)[..|a + b| - 1] == a + b[..|b| - 1];
    }
  }

  // rem * x^n + message
  function AugDividend(rem: Word, bits: seq<bool>): Poly {
    Add(TimesX(rem, |bits|), Reverse(bits))
  }

  lemma {:induction false} CoefAugDividend(rem: Word, bits: seq<bool>, i: int)
    ensures Coef(AugDividend(rem, bits), i) == (Coef(rem, i - |bits|) != Coef(Reverse(bits), i))
  {
  }

  lemma {:induction false} AugDividendGrows(rem: Word, bits: seq<bool>, i: int)
    requires |bits| >= 1
    ensures Coef(AugDividend(rem, bits), i)
         == (Coef(AugDividend(rem, bits[..|bits| - 1]), i - 1) != (i == 0 && bits[|bits| - 1]))
  {
  }

  lemma {:induction false} CoefAugStep(poly: Word, rem: Word, bit: bool, i: int)
    requires |poly| == |rem| >= 1
    ensures Coef(AugStep(poly, rem, bit), i)
         == ((Coef(rem, i - 1) != (i == 0 && bit)) != (rem[|rem| - 1] && Coef(Divisor(poly), i)))
  {
  }

  lemma {:induction false} AugDividendAndStep(poly: Word, rem: Word, bits: seq<bool>, r0: Word)
    requires |poly| == |rem| == |r0| >= 1 && |bits| >= 1
    ensures var n := |bits| - 1;
            GrowsBy(AugDividend(rem, bits[..n]), r0, r0[|rem| - 1], Divisor(poly),
                    AugDividend(rem, bits), AugStep(poly, r0, bits[n]))
  {
    var n := |bits| - 1;
    var a, out := AugDividend(rem, bits), AugStep(poly, r0, bits[n]);
    forall i: nat ensures Coef(Add(a, out), i) == (Coef(Add(AugDividend(rem, bits[..n]), r0), i - 1)
                                                   != (r0[|rem| - 1] && Coef(Divisor(poly), i)))
    {
      CoefAdd(a, out, i);
      CoefAdd(AugDividend(rem, bits[..n]), r0, i - 1);
      AugDividendGrows(rem, bits, i);
      CoefAugStep(poly, r0, bits[n], i);
    }
  }

  lemma {:induction false} AugRunIsCongruent(poly: Word, rem: Word, bits: seq<bool>)
    requires |poly| == |rem| >= 1
    ensures Congruent(AugDividend(rem, bits), AugRun(poly, rem, bits), Divisor(poly))
  {
    if bits == [] {
      assert AugDividend(rem, []) == rem == Dividend(rem, []);
      StartIsCongruent(rem, Divisor(poly));
    } else {
      var n := |bits| - 1;
      var r0 := AugRun(poly, rem, bits[..n]);
      AugRunIsCongruent(poly, rem, bits[..n]);
      AugDividendAndStep(poly, rem, bits, r0);
      QuotientGrows(AugDividend(rem, bits[..n]), r0, r0[|rem| - 1], Divisor(poly),
                    AugDividend(rem, bits), AugStep(poly, r0, bits[n]));
    }
  }

  // Appending Bits zero bits makes the augmented form compute the plain remainder of the message.
  // A non-zero start counts as the plain start it turns into over Bits zero bits.
  lemma {:induction false} ZeroesMakeItPlain(poly: Word, rem: Word, bits: seq<bool>)
    requires |poly| == |rem| >= 1
    ensures AugRun(poly, rem, bits + Zero(|rem|)) == Run(poly, AugRun(poly, rem, Zero(|rem|)), bits)
  {
    var n, g := |rem|, Divisor(poly);
    var start, z := AugRun(poly, rem, Zero(n)), bits + Zero(n);
    var plain := Run(poly, start, bits);
    AugRunIsCongruent(poly, rem, Zero(n));
    AugRunIsCongruent(poly, rem, z);
    RunIsCongruent(poly, start, bits);
    // start*x^k + message*x^n differs from rem*x^(n+k) + message*x^n by x^k times a multiple of g
    var p: Poly :| Same(Add(AugDividend(rem, Zero(n)), start), Mul(p, g));
    var q: Poly :| Same(Add(Dividend(start, bits), plain), Mul(q, g));
    var both := Add(TimesX(p, |bits|), q);
    MulAdd(TimesX(p, |bits|), q, g);
    forall i: nat ensures Coef(Add(AugDividend(rem, z), plain), i) == Coef(Mul(both, g), i) {
      CoefShiftedStart(rem, bits, start, plain, p, q, g, i);
      CoefAdd(Mul(TimesX(p, |bits|), g), Mul(q, g), i);
    }
    assert Same(Add(AugDividend(rem, z), plain), Mul(both, g));
    RemainderUnique(AugDividend(rem, z), AugRun(poly, rem, z), plain, g);
  }

  lemma {:induction false} CoefShiftedStart(rem: Word, bits: seq<bool>, start: Word, plain: Word, p: Poly, q: Poly,
                                            g: Poly, i: nat)
    requires |rem| == |start| == |plain|
    requires Same(Add(AugDividend(rem, Zero(|rem|)), start), Mul(p, g))
    requires Same(Add(Dividend(start, bits), plain), Mul(q, g))
    ensures Coef(Add(AugDividend(rem, bits + Zero(|rem|)), plain), i)
         == (Coef(Mul(TimesX(p, |bits|), g), i) != Coef(Mul(q, g), i))
  {
    CoefOfAugmented(rem, bits, plain, i);
    CoefOfPlain(start, bits, plain, q, g, i);
    CoefOfShift(rem, start, p, g, |bits|, i);
  }

  lemma {:induction false} CoefOfAugmented(rem: Word, bits: seq<bool>, plain: Word, i: nat)
    requires |rem| == |plain|
    ensures Coef(Add(AugDividend(rem, bits + Zero(|rem|)), plain), i)
         == ((Coef(rem, i - |bits| - |rem|) != Coef(Reverse(bits), i - |rem|)) != Coef(plain, i))
  {
    var z := bits + Zero(|rem|);
    CoefAdd(AugDividend(rem, z), plain, i);
    CoefAugDividend(rem, z, i);
    ReverseTail(bits, Zero(|rem|), i);
  }

  lemma {:induction false} CoefOfPlain(start: Word, bits: seq<bool>, plain: Word, q: Poly, g: Poly, i: nat)
    requires Same(Add(Dividend(start, bits), plain), Mul(q, g))
    ensures Coef(Mul(q, g), i)
         == ((Coef(start, i - |bits|) != Coef(Reverse(bits), i - |start|)) != Coef(plain, i))
  {
    CoefAdd(Dividend(start, bits), plain, i);
    CoefDividend(start, bits, i);
    assert Coef(Add(Dividend(start, bits), plain), i) == Coef(Mul(q, g), i);
  }

  lemma {:induction false} CoefOfShift(rem: Word, start: Word, p: Poly, g: Poly, k: nat, i: nat)
    requires |rem| == |start| && Same(Add(AugDividend(rem, Zero(|rem|)), start), Mul(p, g))
    ensures Coef(Mul(TimesX(p, k), g), i) == (Coef(rem, i - k - |rem|) != Coef(start, i - k))
  {
    MulTimesX(p, g, k, i);
    CoefOfStart(rem, start, i - k);
    if i >= k { assert Coef(Add(AugDividend(rem, Zero(|rem|)), start), i - k) == Coef(Mul(p, g), i - k); }
  }

  lemma {:induction false} CoefOfStart(rem: Word, start: Word, i: int)
    requires |rem| == |start|
    ensures Coef(Add(AugDividend(rem, Zero(|rem|)), start), i) == (Coef(rem, i - |rem|) != Coef(start, i))
  {
  }

  lemma {:induction false} ZeroStaysZero(poly: Word, k: nat)
    requires |poly| >= 1
    ensures AugRun(poly, Zero(|poly|), Zero(k)) == Zero(|poly|)
  {
    if k > 0 {
      ZeroStaysZero(poly, k - 1);
      assert Zero(k)[..k - 1] == Zero(k - 1);
      var out := AugStep(poly, Zero(|poly|), false);
      assert forall i :: 0 <= i < |poly| ==> out[i] == Zero(|poly|)[i];
    }
  }

  // Replacing the zero bits by a word t, top bit first, adds t to the result; so the result is zero
  // exactly when t is the remainder that the zero bits gave.
  lemma {:induction false} CheckWord(poly: Word, rem: Word, bits: seq<bool>, t: Word)
    requires |poly| == |rem| == |t| >= 1
    ensures var c := AugRun(poly, rem, bits + Zero(|rem|));
            AugRun(poly, rem, bits + Reverse(t)) == Xor(c, t)
            && (AugRun(poly, rem, bits + Reverse(t)) == Zero(|rem|) <==> t == c)
  {
    var n, g := |rem|, Divisor(poly);
    var z, y := bits + Zero(n), bits + Reverse(t);
    var c := AugRun(poly, rem, z);
    AugRunIsCongruent(poly, rem, z);
    AugRunIsCongruent(poly, rem, y);
    var q: Poly :| Same(Add(AugDividend(rem, z), c), Mul(q, g));
    forall i: nat ensures Coef(Add(AugDividend(rem, y), Xor(c, t)), i) == Coef(Mul(q, g), i) {
      CoefAdd(AugDividend(rem, y), Xor(c, t), i);
      CoefAdd(AugDividend(rem, z), c, i);
      CoefAugDividend(rem, y, i);
      CoefAugDividend(rem, z, i);
      assert Coef(Add(AugDividend(rem, z), c), i) == Coef(Mul(q, g), i);
      CoefXor(c, t, i);
      ReverseTail(bits, t, i);
      ReverseTail(bits, Zero(n), i);
    }
    assert Same(Add(AugDividend(rem, y), Xor(c, t)), Mul(q, g));
    RemainderUnique(AugDividend(rem, y), AugRun(poly, rem, y), Xor(c, t), g);
    XorIsZero(c, t);
  }

  lemma {:induction false} CoefXor(a: Word, b: Word, i: int)
    requires |a| == |b|
    ensures Coef(Xor(a, b), i) == (Coef(a, i) != Coef(b, i))
  {
  }

  lemma {:induction false} ReverseTail(bits: seq<bool>, t: Word, i: int)
    ensures Coef(Reverse(bits + Reverse(t)), i) == if i < |t| then Coef(t, i) else Coef(Reverse(bits), i - |t|)
    ensures Coef(Reverse(bits + Zero(|t|)), i) == if i < |t| then false else Coef(Reverse(bits), i - |t|)
  {
  }

  lemma {:induction false} XorIsZero(a: Word, b: Word)
    requires |a| == |b|
    ensures Xor(a, b) == Zero(|a|) <==> a == b
  {
    if Xor(a, b) == Zero(|a|) {
      forall i | 0 <= i < |a| ensures a[i] == b[i] {
        assert Xor(a, b)[i] == Zero(|a|)[i];
      }
    } else {
      XorCancel(a, a);
    }
  }
}
