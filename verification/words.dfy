/** Unsigned machine words as fixed-width bit sequences; index 0 is the least significant bit. */
module Words {

  type Word = seq<bool>

  const CHAR_BIT: nat := 8

  type Byte = w: Word | |w| == CHAR_BIT witness Zero(8)

  function Zero(width: nat): (r: Word)
    ensures |r| == width
  {
    seq(width, _ => false)
  }

  // 1 << bit, in a word of the given width.
  function OneHot(width: nat, bit: nat): (r: Word)
    ensures |r| == width
  {
    seq(width, i => i == bit)
  }

  function Xor(a: Word, b: Word): (r: Word)
    requires |a| == |b|
    ensures |r| == |a|
  {
    seq(|a|, i requires 0 <= i < |a| => a[i] != b[i])
  }

  function And(a: Word, b: Word): (r: Word)
    requires |a| == |b|
    ensures |r| == |a|
  {
    seq(|a|, i requires 0 <= i < |a| => a[i] && b[i])
  }

  function Or(a: Word, b: Word): (r: Word)
    requires |a| == |b|
    ensures |r| == |a|
  {
    seq(|a|, i requires 0 <= i < |a| => a[i] || b[i])
  }

  // Shifts keep the width: bits pushed over either end are lost.
  function Shl(a: Word, k: nat): (r: Word)
    ensures |r| == |a|
  {
    seq(|a|, i requires 0 <= i < |a| => k <= i && a[i - k])
  }

  function Shr(a: Word, k: nat): (r: Word)
    ensures |r| == |a|
  {
    seq(|a|, i requires 0 <= i < |a| => i + k < |a| && a[i + k])
  }

  // Conversion to another width: truncation or zero extension.
  function Resize(a: Word, width: nat): (r: Word)
    ensures |r| == width
  {
    seq(width, i requires 0 <= i => i < |a| && a[i])
  }

  // The mask with the given number of low bits set.
  function LowMask(width: nat, bits: nat): (r: Word)
    ensures |r| == width
  {
    seq(width, i => i < bits)
  }

  function Reverse(a: Word): (r: Word)
    ensures |r| == |a|
  {
    seq(|a|, i requires 0 <= i < |a| => a[|a| - 1 - i])
  }

  function ToNat(a: Word): nat
  {
    if |a| == 0 then 0 else (if a[0] then 1 else 0) + 2 * ToNat(a[1..])
  }

  function FromNat(n: nat, width: nat): (r: Word)
    ensures |r| == width
  {
    if width == 0 then [] else [n % 2 == 1] + FromNat(n / 2, width - 1)
  }

  function Pow2(k: nat): (r: nat)
    ensures r > 0
  {
    if k == 0 then 1 else 2 * Pow2(k - 1)
  }

  lemma {:induction false} ToNatBound(a: Word)
    ensures ToNat(a) < Pow2(|a|)
  {
    if |a| > 0 { ToNatBound(a[1..]); }
  }

  lemma {:induction false} FromNatToNat(a: Word)
    ensures FromNat(ToNat(a), |a|) == a
  {
    if |a| > 0 {
      FromNatToNat(a[1..]);
      assert ToNat(a) / 2 == ToNat(a[1..]);
    }
  }

  lemma {:induction false} ToNatFromNat(n: nat, width: nat)
    requires n < Pow2(width)
    ensures ToNat(FromNat(n, width)) == n
  {
    if width > 0 {
      ToNatFromNat(n / 2, width - 1);
      assert FromNat(n, width)[1..] == FromNat(n / 2, width - 1);
    }
  }

  lemma {:induction false} ByteRange(b: Byte)
    ensures ToNat(b) < 256
  {
    ToNatBound(b);
    assert Pow2(8) == 256;
  }

  lemma {:induction false} ReverseInvolution(a: Word)
    ensures Reverse(Reverse(a)) == a
  {
  }

  lemma {:induction false} LowZero(width: nat, bits: nat)
    requires bits <= width
    ensures Zero(width)[..bits] == Zero(bits)
  {
  }

  lemma {:induction false} XorZero(a: Word)
    ensures Xor(a, Zero(|a|)) == a == Xor(Zero(|a|), a)
  {
  }

  lemma {:induction false} XorCancel(a: Word, b: Word)
    requires |a| == |b|
    ensures Xor(a, Xor(b, a)) == b && Xor(a, a) == Zero(|a|)
  {
  }

  lemma {:induction false} ResizeLow(a: Word, width: nat)
    requires |a| <= width
    ensures Resize(a, width)[..|a|] == a
    ensures forall i :: |a| <= i < width ==> !Resize(a, width)[i]
  {
  }

  lemma {:induction false} ResizeZero(bits: nat, width: nat)
    ensures Resize(Zero(bits), width) == Zero(width)
  {
  }

  lemma {:induction false} XorAssoc(a: Word, b: Word, c: Word)
    requires |a| == |b| == |c|
    ensures Xor(Xor(a, b), c) == Xor(a, Xor(b, c))
  {
  }

  lemma {:induction false} TestBit(a: Word, bit: nat)
    requires bit < |a|
    ensures And(a, OneHot(|a|, bit)) != Zero(|a|) <==> a[bit]
  {
    var m := And(a, OneHot(|a|, bit));
    assert m[bit] == a[bit];
    if a[bit] {
      assert m[bit] != Zero(|a|)[bit];
    } else {
      assert forall i :: 0 <= i < |a| ==> m[i] == Zero(|a|)[i];
    }
  }

  // The test `a & (1 << bit)`.
  method IsSet(a: Word, bit: nat) returns (r: bool)
    requires bit < |a|
    ensures r == a[bit]
  {
    TestBit(a, bit);
    r := And(a, OneHot(|a|, bit)) != Zero(|a|);
  }

  lemma {:induction false} OrOneHot(a: Word, bit: nat)
    requires bit < |a|
    ensures Or(a, Shl(OneHot(|a|, 0), bit)) == a[bit := true]
  {
  }

  lemma {:induction false} ShrOneMore(a: Word, i: nat)
    ensures Shr(Shr(a, i), 1) == Shr(a, i + 1)
  {
  }

  // The mirror image of the low `bits` bits, as far as the lowest i of them have been placed.
  ghost predicate MirroredUpTo(x: Word, bits: nat, i: nat, r: Word)
    requires i <= bits <= |x|
  {
    && |r| == |x|
    && forall j :: 0 <= j < |x| ==> r[j] == (bits - i <= j < bits && x[bits - 1 - j])
  }

  lemma {:induction false} MirroredAll(x: Word, bits: nat, r: Word)
    requires bits <= |x| && MirroredUpTo(x, bits, bits, r)
    ensures r == Resize(Reverse(x[..bits]), |x|)
  {
  }

  /** Mirrors the low `bits` bits of a word; the bits above them come out as zero. */
  method Reflect(x: Word, bits: nat) returns (reflection: Word)
    requires bits <= |x|
    ensures reflection == Resize(Reverse(x[..bits]), |x|)
  {
    var v := x;
    reflection := Zero(|x|);
    for i := 0 to bits
      invariant v == Shr(x, i)
      invariant MirroredUpTo(x, bits, i, reflection)
    {
      var lowest := IsSet(v, 0);
      if lowest {
        OrOneHot(reflection, bits - 1 - i);
        reflection := Or(reflection, Shl(OneHot(|x|, 0), bits - 1 - i));
      }
      ShrOneMore(x, i);
      v := Shr(v, 1);
    }
    MirroredAll(x, bits, reflection);
  }
}
