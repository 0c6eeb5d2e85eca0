/** The remainder a CRC computer holds is the remainder of polynomial division over GF(2). */
module CrcDivision {
  import opened Words
  import opened CrcRemainder
  import opened Gf2

  // The divisor: the polynomial handed to the computer lacks its leading term x^Bits.
  function Divisor(poly: Word): (g: Poly)
    ensures |g| == |poly| + 1 && g[|poly|]
  {
    poly + [true]
  }

  // rem * x^n + message * x^Bits, for a message of n bits whose first bit is its leading coefficient.
  function Dividend(rem: Word, bits: seq<bool>): Poly {
    Add(TimesX(rem, |bits|), TimesX(Reverse(bits), |rem|))
  }

  lemma {:induction false} CoefDividend(rem: Word, bits: seq<bool>, i: int)
    ensures Coef(Dividend(rem, bits), i) == (Coef(rem, i - |bits|) != Coef(Reverse(bits), i - |rem|))
  {
  }

  // One more message bit multiplies the dividend by x and enters at x^Bits.
  lemma {:induction false} DividendGrows(rem: Word, bits: seq<bool>, i: int)
    requires |rem| >= 1 && |bits| >= 1
    ensures Coef(Dividend(rem, bits), i)
         == (Coef(Dividend(rem, bits[..|bits| - 1]), i - 1) != (i == |rem| && bits[|bits| - 1]))
  {
  }

  // One step multiplies the remainder by x, adds the bit at x^Bits and takes away the divisor if
  // that leaves a term of degree Bits.
  lemma {:induction false} CoefStep(poly: Word, rem: Word, bit: bool, i: int)
    requires |poly| == |rem| >= 1
    ensures Coef(Step(poly, rem, bit), i)
         == ((Coef(rem, i - 1) != (i == |rem| && bit)) != (rem[|rem| - 1] != bit && Coef(Divisor(poly), i)))
  {
  }

  lemma {:induction false} DividendAndStep(poly: Word, rem: Word, bits: seq<bool>, r0: Word)
    requires |poly| == |rem| == |r0| >= 1 && |bits| >= 1
    ensures var n := |bits| - 1;
            GrowsBy(Dividend(rem, bits[..n]), r0, r0[|rem| - 1] != bits[n], Divisor(poly),
                    Dividend(rem, bits), Step(poly, r0, bits[n]))
  {
    var n := |bits| - 1;
    var a, out := Dividend(rem, bits), Step(poly, r0, bits[n]);
    forall i: nat ensures Coef(Add(a, out), i) == (Coef(Add(Dividend(rem, bits[..n]), r0), i - 1)
                                                   != (r0[|rem| - 1] != bits[n] && Coef(Divisor(poly), i)))
    {
      CoefAdd(a, out, i);
      CoefAdd(Dividend(rem, bits[..n]), r0, i - 1);
      DividendGrows(rem, bits, i);
      CoefStep(poly, r0, bits[n], i);
    }
  }

  // Before any bit the dividend is the start itself.
  lemma {:induction false} StartIsCongruent(rem: Word, g: Poly)
    ensures Congruent(Dividend(rem, []), rem, g)
  {
    var a := Dividend(rem, []);
    forall i: nat ensures Coef(Add(a, rem), i) == Coef(Mul([], g), i) {
      CoefDividend(rem, [], i);
      CoefAdd(a, rem, i);
    }
    assert Same(Add(a, rem), Mul([], g));
  }

  // After any message, from any initial remainder, the register is congruent to the dividend.
  lemma {:induction false} RunIsCongruent(poly: Word, rem: Word, bits: seq<bool>)
    requires |poly| == |rem| >= 1
    ensures Congruent(Dividend(rem, bits), Run(poly, rem, bits), Divisor(poly))
  {
    if bits == [] {
      StartIsCongruent(rem, Divisor(poly));
    } else {
      var n := |bits| - 1;
      var r0 := Run(poly, rem, bits[..n]);
      RunIsCongruent(poly, rem, bits[..n]);
      DividendAndStep(poly, rem, bits, r0);
      QuotientGrows(Dividend(rem, bits[..n]), r0, r0[|rem| - 1] != bits[n], Divisor(poly),
                    Dividend(rem, bits), Step(poly, r0, bits[n]));
    }
  }

  // ... and it is the only word of its width that is.
  lemma {:induction false} RunIsTheRemainder(poly: Word, rem: Word, bits: seq<bool>, r: Word)
    requires |poly| == |rem| == |r| >= 1
    ensures r == Run(poly, rem, bits) <==> Congruent(Dividend(rem, bits), r, Divisor(poly))
  {
    RunIsCongruent(poly, rem, bits);
    if Congruent(Dividend(rem, bits), r, Divisor(poly)) {
      RemainderUnique(Dividend(rem, bits), r, Run(poly, rem, bits), Divisor(poly));
    }
  }
}
