/** Up to which width a CRC notices every error burst. */
module CrcErrors {
  import opened Words
  import opened CrcRemainder
  import opened Gf2
  import opened CrcDivision

  // Undoes one step, for a polynomial whose lowest coefficient is one.
  function Unstep(poly: Word, rem: Word, bit: bool): (r: Word)
    requires |poly| == |rem| >= 1
    ensures |r| == |rem|
  {
    Shr(Xor(rem, if rem[0] then poly else Zero(|rem|)), 1)[|rem| - 1 := rem[0] != bit]
  }

  ghost predicate StepInjective(poly: Word)
    requires |poly| >= 1
  {
    forall r: Word, s: Word, bit: bool ::
      |r| == |poly| && |s| == |poly| && Step(poly, r, bit) == Step(poly, s, bit) ==> r == s
  }

  lemma {:induction false} StepUnstep(poly: Word, rem: Word, bit: bool)
    requires |poly| == |rem| >= 1 && poly[0]
    ensures Step(poly, Unstep(poly, rem, bit), bit) == rem
    ensures Unstep(poly, Step(poly, rem, bit), bit) == rem
  {
  }

  // The remainder that a step by zero forgets when the polynomial is even.
  function Lost(poly: Word): (r: Word)
    requires |poly| >= 1
    ensures |r| == |poly| && r[|poly| - 1]
  {
    Shr(poly, 1)[|poly| - 1 := true]
  }

  lemma {:induction false} LostStepsToZero(poly: Word)
    requires |poly| >= 1 && !poly[0]
    ensures Step(poly, Lost(poly), false) == Zero(|poly|) == Step(poly, Zero(|poly|), false)
  {
  }

  // One bit step loses no information exactly when the polynomial is odd.
  lemma {:induction false} StepInjectiveIffOdd(poly: Word)
    requires |poly| >= 1
    ensures StepInjective(poly) <==> poly[0]
  {
    if poly[0] {
      forall r: Word, s: Word, bit: bool
        | |r| == |poly| && |s| == |poly| && Step(poly, r, bit) == Step(poly, s, bit)
        ensures r == s
      {
        StepUnstep(poly, r, bit);
        StepUnstep(poly, s, bit);
      }
    } else {
      LostStepsToZero(poly);
      assert Lost(poly)[|poly| - 1] != Zero(|poly|)[|poly| - 1];
    }
  }

  // The word whose top bits are the given ones, first bit on top.
  function IntoTop(n: nat, bits: seq<bool>): (r: Word)
    ensures |r| == n
  {
    seq(n, i requires 0 <= i < n => n - 1 - i < |bits| && bits[n - 1 - i])
  }

  // A message no longer than the register might as well be added to its top before zeros are fed.
  lemma {:induction false} RunFromTop(poly: Word, rem: Word, bits: seq<bool>)
    requires |poly| == |rem| >= 1 && |bits| <= |rem|
    ensures Run(poly, rem, bits) == Run(poly, Xor(rem, IntoTop(|rem|, bits)), Zero(|bits|))
  {
    var n, k, top := |rem|, |bits|, IntoTop(|rem|, bits);
    assert Top(top, k) == bits by { assert forall i :: 0 <= i < k ==> Top(top, k)[i] == bits[i]; }
    RunOwnTopShifts(poly, top, k);
    assert Shl(top, k) == Zero(n) by { assert forall i :: 0 <= i < n ==> Shl(top, k)[i] == Zero(n)[i]; }
    RunLinear(poly, rem, top, bits, bits);
    XorCancel(bits, bits);
    XorZero(Run(poly, rem, bits));
  }

  // The number of coefficients that are zero below the lowest one that is not.
  function TrailingZeros(w: Word): (r: nat)
    ensures r <= |w| && (r < |w| ==> w[r])
    ensures forall i :: 0 <= i < r ==> !w[i]
  {
    if w == [] || w[0] then 0 else 1 + TrailingZeros(w[1..])
  }

  lemma {:induction false} NonZeroAt(a: Word, i: nat)
    requires i < |a| && a[i]
    ensures a != Zero(|a|)
  {
    assert a[i] != Zero(|a|)[i];
  }

  ghost predicate LowBitsZero(w: Word, k: nat) {
    k <= |w| && forall i :: 0 <= i < k ==> !w[i]
  }

  // A step by zero keeps those low bits zero, and the bit above them is the one that was shifted out.
  lemma {:induction false} NonZeroSteps(poly: Word, rem: Word)
    requires |poly| == |rem| >= 1 && TrailingZeros(poly) < |poly|
    requires LowBitsZero(rem, TrailingZeros(poly)) && rem != Zero(|rem|)
    ensures LowBitsZero(Step(poly, rem, false), TrailingZeros(poly)) && Step(poly, rem, false) != Zero(|rem|)
  {
    var n, v, out := |rem|, TrailingZeros(poly), Step(poly, rem, false);
    var i :| 0 <= i < n && rem[i] != Zero(n)[i];
    if rem[n - 1] { assert out[v] != Zero(n)[v]; } else { assert out[i + 1] != Zero(n)[i + 1]; }
  }

  lemma {:induction false} NonZeroRuns(poly: Word, rem: Word, k: nat)
    requires |poly| == |rem| >= 1 && TrailingZeros(poly) < |poly|
    requires LowBitsZero(rem, TrailingZeros(poly)) && rem != Zero(|rem|)
    ensures var out := Run(poly, rem, Zero(k));
            LowBitsZero(out, TrailingZeros(poly)) && out != Zero(|rem|)
  {
    if k > 0 {
      NonZeroRuns(poly, rem, k - 1);
      assert Zero(k)[..k - 1] == Zero(k - 1);
      NonZeroSteps(poly, Run(poly, rem, Zero(k - 1)));
    }
  }

  lemma {:induction false} ZeroRunsToZero(poly: Word, k: nat)
    requires |poly| >= 1
    ensures Run(poly, Zero(|poly|), Zero(k)) == Zero(|poly|)
  {
    if k > 0 {
      ZeroRunsToZero(poly, k - 1);
      assert Zero(k)[..k - 1] == Zero(k - 1);
      XorZero(Shl(Zero(|poly|), 1));
      assert forall i :: 0 <= i < |poly| ==> Shl(Zero(|poly|), 1)[i] == Zero(|poly|)[i];
    }
  }

  // A burst fed to zero leaves something behind.
  lemma {:induction false} BurstFromZero(poly: Word, burst: seq<bool>)
    requires |poly| >= 1 && |burst| + TrailingZeros(poly) <= |poly| && burst != Zero(|burst|)
    ensures var out := Run(poly, Zero(|poly|), burst);
            LowBitsZero(out, TrailingZeros(poly)) && out != Zero(|poly|)
  {
    var n, top := |poly|, IntoTop(|poly|, burst);
    RunFromTop(poly, Zero(n), burst);
    XorZero(top);
    var i :| 0 <= i < |burst| && burst[i] != Zero(|burst|)[i];
    NonZeroAt(top, n - 1 - i);
    NonZeroRuns(poly, top, |burst|);
  }

  // Zeros before and behind it change nothing about that.
  lemma {:induction false} BurstLeavesATrace(poly: Word, before: nat, burst: seq<bool>, after: nat)
    requires |poly| >= 1 && |burst| + TrailingZeros(poly) <= |poly| && burst != Zero(|burst|)
    ensures Run(poly, Zero(|poly|), Zero(before) + burst + Zero(after)) != Zero(|poly|)
  {
    RunConcat(poly, Zero(|poly|), Zero(before) + burst, Zero(after));
    RunConcat(poly, Zero(|poly|), Zero(before), burst);
    ZeroRunsToZero(poly, before);
    BurstFromZero(poly, burst);
    NonZeroRuns(poly, Run(poly, Zero(|poly|), burst), after);
  }

  ghost predicate DifferOnlyWithin(a: seq<bool>, b: seq<bool>, from: nat, width: nat)
    requires |a| == |b|
  {
    forall i :: 0 <= i < |a| && a[i] != b[i] ==> from <= i < from + width
  }

  lemma {:induction false} SliceBetweenZeros(d: seq<bool>, before: nat, end: nat)
    requires before <= end <= |d|
    requires forall i :: 0 <= i < |d| && d[i] ==> before <= i < end
    ensures d == Zero(before) + d[before..end] + Zero(|d| - end)
  {
  }

  lemma {:induction false} BurstOf(d: seq<bool>, from: nat, width: nat, i: nat) returns (burst: seq<bool>, after: nat)
    requires i < |d| && d[i]
    requires forall j :: 0 <= j < |d| && d[j] ==> from <= j < from + width
    ensures d == Zero(from) + burst + Zero(after)
    ensures |burst| <= width && burst != Zero(|burst|)
  {
    var end := if from + width < |d| then from + width else |d|;
    SliceBetweenZeros(d, from, end);
    burst, after := d[from..end], |d| - end;
    NonZeroAt(burst, i - from);
  }

  // The difference of two such messages is a burst in the midst of zeros.
  lemma {:induction false} DifferenceIsABurst(a: seq<bool>, b: seq<bool>, from: nat, width: nat)
    returns (burst: seq<bool>, after: nat)
    requires |a| == |b| && a != b && DifferOnlyWithin(a, b, from, width)
    ensures Xor(a, b) == Zero(from) + burst + Zero(after)
    ensures |burst| <= width && burst != Zero(|burst|)
  {
    var i :| 0 <= i < |a| && a[i] != b[i];
    burst, after := BurstOf(Xor(a, b), from, width, i);
  }

  lemma {:induction false} BurstChangesRemainder(poly: Word, rem: Word, a: seq<bool>, b: seq<bool>, from: nat,
                                                 width: nat)
    requires |poly| == |rem| >= 1 && width + TrailingZeros(poly) <= |poly|
    requires |a| == |b| && a != b && DifferOnlyWithin(a, b, from, width)
    ensures Run(poly, rem, a) != Run(poly, rem, b)
  {
    var burst, after := DifferenceIsABurst(a, b, from, width);
    BurstLeavesATrace(poly, from, burst, after);
    RunLinear(poly, rem, rem, a, b);
    XorCancel(rem, rem);
    XorCancel(Run(poly, rem, a), rem);
  }

  // Every pair of equal-length messages that differ, but only inside some window of the given width,
  // has two different checksums.
  ghost predicate DetectsBursts(p: Params, width: nat)
    requires p.Valid()
  {
    forall a: seq<Byte>, b: seq<Byte>, from: nat ::
      |a| == |b| && a != b
      && DifferOnlyWithin(MessageBits(p.reflectIn, a), MessageBits(p.reflectIn, b), from, width)
      ==> Checksum(p, a) != Checksum(p, b)
  }

  lemma {:induction false} MessageBitsInjective(reflectIn: bool, a: seq<Byte>, b: seq<Byte>)
    requires |a| == |b| && MessageBits(reflectIn, a) == MessageBits(reflectIn, b)
    ensures a == b
  {
    BytesOfMessageBits(reflectIn, a);
    BytesOfMessageBits(reflectIn, b);
  }

  lemma {:induction false} OutputInjective(p: Params, r: Word, s: Word)
    requires p.Valid() && |r| == |s| == |p.poly|
    requires Output(p, r) == Output(p, s)
    ensures r == s
  {
    var x, y := if p.reflectRem then Reverse(r) else r, if p.reflectRem then Reverse(s) else s;
    forall i | 0 <= i < |x| ensures x[i] == y[i] {
      assert Output(p, r)[i] == Output(p, s)[i];
    }
    assert x == y;
    ReverseInvolution(r);
    ReverseInvolution(s);
  }

  // The divisor itself, without its trailing zeros, sent from its leading coefficient down.
  function DivisorBurst(poly: Word): (r: seq<bool>)
    ensures |r| == |poly| - TrailingZeros(poly) + 1 && r[0]
  {
    Reverse(Divisor(poly)[TrailingZeros(poly)..])
  }

  lemma {:induction false} CoefDivisorBurst(poly: Word, i: nat)
    requires |poly| >= 1
    ensures Coef(Dividend(Zero(|poly|), DivisorBurst(poly)), i)
         == Coef(Divisor(poly), i - (|poly| - TrailingZeros(poly)))
  {
    var n, v := |poly|, TrailingZeros(poly);
    CoefDividend(Zero(n), DivisorBurst(poly), i);
    ReverseInvolution(Divisor(poly)[v..]);
  }

  // It is a multiple of the divisor and leaves nothing.
  lemma {:induction false} DivisorBurstLeavesNothing(poly: Word)
    requires |poly| >= 1
    ensures Run(poly, Zero(|poly|), DivisorBurst(poly)) == Zero(|poly|)
  {
    var n, k, g := |poly|, |poly| - TrailingZeros(poly), Divisor(poly);
    var a, q := Dividend(Zero(n), DivisorBurst(poly)), TimesX([true], k);
    forall i: nat ensures Coef(Add(a, Zero(n)), i) == Coef(Mul(q, g), i) {
      CoefAdd(a, Zero(n), i);
      CoefDivisorBurst(poly, i);
      MulTimesX([true], g, k, i);
      CoefMulCons(true, [], g, i - k);
    }
    assert Same(Add(a, Zero(n)), Mul(q, g));
    RunIsTheRemainder(poly, Zero(n), DivisorBurst(poly), Zero(n));
  }

  // So it makes no difference in front of zeros, whatever the start.
  lemma {:induction false} DivisorBurstIsSilent(poly: Word, rem: Word, after: nat)
    requires |poly| == |rem| >= 1
    ensures var burst := DivisorBurst(poly) + Zero(after);
            Run(poly, rem, burst) == Run(poly, rem, Zero(|burst|))
  {
    var n, burst := |poly|, DivisorBurst(poly) + Zero(after);
    DivisorBurstLeavesNothing(poly);
    RunConcat(poly, Zero(n), DivisorBurst(poly), Zero(after));
    ZeroRunsToZero(poly, after);
    RunLinear(poly, rem, Zero(n), Zero(|burst|), burst);
    XorZero(rem);
    XorZero(burst);
    XorZero(Run(poly, rem, Zero(|burst|)));
  }

  // Two runs of bits that leave the same are two messages with the same checksum.
  lemma {:induction false} SilentDifference(p: Params, x: seq<bool>, y: seq<bool>, width: nat)
    requires p.Valid() && |x| == |y| && |x| % 8 == 0
    requires x != y && DifferOnlyWithin(x, y, 0, width)
    requires Run(p.poly, p.init, x) == Run(p.poly, p.init, y)
    ensures !DetectsBursts(p, width)
  {
    var a, b := BytesOfBits(p.reflectIn, x), BytesOfBits(p.reflectIn, y);
    BitsOfBytes(p.reflectIn, x);
    BitsOfBytes(p.reflectIn, y);
    assert Checksum(p, a) == Checksum(p, b);
  }

  lemma {:induction false} FrontOnly(front: seq<bool>, after: nat, width: nat)
    requires 0 < |front| <= width && front[0]
    ensures var x := front + Zero(after);
            x != Zero(|x|) && DifferOnlyWithin(x, Zero(|x|), 0, width)
  {
    NonZeroAt(front + Zero(after), 0);
  }

  lemma {:induction false} WiderBurstMissed(p: Params, width: nat)
    requires p.Valid() && width + TrailingZeros(p.poly) > |p.poly|
    ensures !DetectsBursts(p, width)
  {
    var size := 8 * (|p.poly| + 1);
    var burst := DivisorBurst(p.poly);
    var after := size - |burst|;
    FrontOnly(burst, after, width);
    DivisorBurstIsSilent(p.poly, p.init, after);
    SilentDifference(p, burst + Zero(after), Zero(size), width);
  }

  // The exact width: that of the register less the trailing zeros of the truncated polynomial.
  lemma {:induction false} DetectsBurstsUpTo(p: Params, width: nat)
    requires p.Valid()
    ensures DetectsBursts(p, width) <==> width + TrailingZeros(p.poly) <= |p.poly|
  {
    if width + TrailingZeros(p.poly) <= |p.poly| {
      forall a: seq<Byte>, b: seq<Byte>, from: nat
        | |a| == |b| && a != b
          && DifferOnlyWithin(MessageBits(p.reflectIn, a), MessageBits(p.reflectIn, b), from, width)
        ensures Checksum(p, a) != Checksum(p, b)
      {
        var x, y := MessageBits(p.reflectIn, a), MessageBits(p.reflectIn, b);
        if x == y { MessageBitsInjective(p.reflectIn, a, b); }
        BurstChangesRemainder(p.poly, p.init, x, y, from, width);
        if Checksum(p, a) == Checksum(p, b) {
          OutputInjective(p, Run(p.poly, p.init, x), Run(p.poly, p.init, y));
        }
      }
    } else {
      WiderBurstMissed(p, width);
    }
  }

  // Bursts as wide as the register are all noticed exactly when the polynomial is odd.
  lemma {:induction false} DetectsBurstsIffOdd(p: Params)
    requires p.Valid()
    ensures DetectsBursts(p, |p.poly|) <==> p.poly[0]
  {
    DetectsBurstsUpTo(p, |p.poly|);
  }

  // The computers that come with names, by the width and value of their truncated polynomial.
  datatype Named = Crc16 | CrcCcitt | CrcXmodem | Crc32 {
    function Width(): nat { if Crc32? then 32 else 16 }

    function TruncPoly(): nat {
      match this
      case Crc16 => 0x8005
      case CrcCcitt => 0x1021
      case CrcXmodem => 0x8408
      case Crc32 => 0x04C11DB7
    }
  }

  lemma {:induction false} Parity(n: nat, b: bool, rest: nat)
    requires n == (if b then 1 else 0) + 2 * rest
    ensures n % 2 == 1 <==> b
  {
  }

  lemma {:induction false} LowestBit(w: Word)
    requires |w| >= 1
    ensures w[0] <==> ToNat(w) % 2 == 1
  {
    Parity(ToNat(w), w[0], ToNat(w[1..]));
  }

  // The trailing zeros of a word count the factors of two in its value.
  lemma {:induction false} TrailingZerosOfValue(w: Word, k: nat, odd: nat)
    requires ToNat(w) == Pow2(k) * odd && odd % 2 == 1
    ensures TrailingZeros(w) == k
  {
    assert w != [];
    LowestBit(w);
    if k > 0 {
      assert Pow2(k) * odd == 2 * (Pow2(k - 1) * odd);
      TrailingZerosOfValue(w[1..], k - 1, odd);
    }
  }

  lemma {:induction false} NamedTrailingZeros(n: Named, poly: Word)
    requires |poly| == n.Width() && ToNat(poly) == n.TruncPoly()
    ensures TrailingZeros(poly) == if n == CrcXmodem then 3 else 0
  {
    if n == CrcXmodem {
      assert Pow2(3) == 8;
      TrailingZerosOfValue(poly, 3, 0x1081);
    } else {
      TrailingZerosOfValue(poly, 0, n.TruncPoly());
    }
  }

  // All of them notice every burst as wide as their register, except the one with an even polynomial.
  lemma {:induction false} NamedParameterSets(n: Named, p: Params, width: nat)
    requires p.Valid() && |p.poly| == n.Width() && ToNat(p.poly) == n.TruncPoly()
    ensures DetectsBursts(p, width) <==> width <= if n == CrcXmodem then 13 else n.Width()
  {
    NamedTrailingZeros(n, p.poly);
    DetectsBurstsUpTo(p, width);
  }
}
