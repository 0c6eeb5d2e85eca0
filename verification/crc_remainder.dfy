/** What a CRC register of `n` bits holds, independent of how a program computes it. */
module CrcRemainder {
  import opened Words

  // One step of polynomial division: the incoming bit meets the top bit of the remainder, and the
  // truncated polynomial is subtracted when they differ.
  function Step(poly: Word, rem: Word, bit: bool): (r: Word)
    requires |poly| == |rem| >= 1
    ensures |r| == |rem|
  {
    Xor(Shl(rem, 1), if rem[|rem| - 1] != bit then poly else Zero(|rem|))
  }

  // The remainder after a whole message, first bit first.
  function Run(poly: Word, rem: Word, bits: seq<bool>): (r: Word)
    requires |poly| == |rem| >= 1
    ensures |r| == |rem|
  {
    if bits == [] then rem
    else Step(poly, Run(poly, rem, bits[..|bits| - 1]), bits[|bits| - 1])
  }

  // The bits of one byte in processing order: top bit first, or bottom bit first when input is reflected.
  function ByteBits(reflectIn: bool, b: Byte): (r: seq<bool>)
    ensures |r| == 8
  {
    if reflectIn then b else Reverse(b)
  }

  function MessageBits(reflectIn: bool, data: seq<Byte>): (r: seq<bool>)
    ensures |r| == 8 * |data|
  {
    if data == [] then []
    else MessageBits(reflectIn, data[..|data| - 1]) + ByteBits(reflectIn, data[|data| - 1])
  }

  datatype Params = Params(poly: Word, init: Word, finalXor: Word, reflectIn: bool, reflectRem: bool) {
    ghost predicate Valid() {
      |poly| == |init| == |finalXor| >= 1
    }
  }

  function Output(p: Params, rem: Word): (r: Word)
    requires p.Valid() && |rem| == |p.poly|
    ensures |r| == |rem|
  {
    Xor(if p.reflectRem then Reverse(rem) else rem, p.finalXor)
  }

  function Checksum(p: Params, data: seq<Byte>): (r: Word)
    requires p.Valid()
    ensures |r| == |p.poly|
  {
    Output(p, Run(p.poly, p.init, MessageBits(p.reflectIn, data)))
  }

  lemma {:induction false} RunConcat(poly: Word, rem: Word, a: seq<bool>, b: seq<bool>)
    requires |poly| == |rem| >= 1
    ensures Run(poly, rem, a + b) == Run(poly, Run(poly, rem, a), b)
  {
    if b == [] {
      assert a + b == a;
    } else {
      RunConcat(poly, rem, a, b[..|b| - 1]);
      assert (a + b)[..|a + b| - 1] == a + b[..|b| - 1];
    }
  }

  lemma {:induction false} RunOneMoreBit(poly: Word, rem: Word, bits: seq<bool>, i: nat)
    requires |poly| == |rem| >= 1
    requires 1 <= i <= |bits|
    ensures Run(poly, rem, bits[..i]) == Step(poly, Run(poly, rem, bits[..i - 1]), bits[i - 1])
  {
    assert bits[..i][..i - 1] == bits[..i - 1];
  }

  lemma {:induction false} MessageBitsConcat(reflectIn: bool, a: seq<Byte>, b: seq<Byte>)
    ensures MessageBits(reflectIn, a + b) == MessageBits(reflectIn, a) + MessageBits(reflectIn, b)
  {
    if b == [] {
      assert a + b == a;
    } else {
      var k := |b| - 1;
      MessageBitsConcat(reflectIn, a, b[..k]);
      assert (a + b)[..|a + b| - 1] == a + b[..k];
      ConcatAssoc(MessageBits(reflectIn, a), MessageBits(reflectIn, b[..k]), ByteBits(reflectIn, b[k]));
    }
  }

  lemma {:induction false} ConcatAssoc(a: seq<bool>, b: seq<bool>, c: seq<bool>)
    ensures (a + b) + c == a + (b + c)
  {
  }

  // Feeding a message in two pieces, the second starting from what the first left.
  lemma {:induction false} RunOfSplitMessage(poly: Word, rem: Word, reflectIn: bool, a: seq<Byte>, b: seq<Byte>)
    requires |poly| == |rem| >= 1
    ensures Run(poly, rem, MessageBits(reflectIn, a + b))
         == Run(poly, Run(poly, rem, MessageBits(reflectIn, a)), MessageBits(reflectIn, b))
  {
    MessageBitsConcat(reflectIn, a, b);
    RunConcat(poly, rem, MessageBits(reflectIn, a), MessageBits(reflectIn, b));
  }

  // The bytes that carry a given run of bits in processing order.
  function BytesOfBits(reflectIn: bool, bits: seq<bool>): (r: seq<Byte>)
    requires |bits| % 8 == 0
    ensures |r| == |bits| / 8
  {
    if bits == [] then []
    else [if reflectIn then bits[..8] else Reverse(bits[..8])] + BytesOfBits(reflectIn, bits[8..])
  }

  lemma {:induction false} SingleByte(reflectIn: bool, b: Byte)
    ensures MessageBits(reflectIn, [b]) == ByteBits(reflectIn, b)
  {
    assert [b][..0] == [];
  }

  lemma {:induction false} BitsOfBytes(reflectIn: bool, bits: seq<bool>)
    requires |bits| % 8 == 0
    ensures MessageBits(reflectIn, BytesOfBits(reflectIn, bits)) == bits
  {
    if bits != [] {
      var b: Byte := if reflectIn then bits[..8] else Reverse(bits[..8]);
      BitsOfBytes(reflectIn, bits[8..]);
      MessageBitsConcat(reflectIn, [b], BytesOfBits(reflectIn, bits[8..]));
      SingleByte(reflectIn, b);
      ReverseInvolution(bits[..8]);
    }
  }

  lemma {:induction false} BytesOfMessageBits(reflectIn: bool, data: seq<Byte>)
    ensures BytesOfBits(reflectIn, MessageBits(reflectIn, data)) == data
  {
    if data != [] {
      var first, rest := ByteBits(reflectIn, data[0]), MessageBits(reflectIn, data[1..]);
      assert data == [data[0]] + data[1..];
      MessageBitsConcat(reflectIn, [data[0]], data[1..]);
      SingleByte(reflectIn, data[0]);
      assert (first + rest)[..8] == first && (first + rest)[8..] == rest;
      ReverseInvolution(data[0]);
      BytesOfMessageBits(reflectIn, data[1..]);
    }
  }

  lemma {:induction false} RunOneMoreByte(poly: Word, rem: Word, reflectIn: bool, data: seq<Byte>, i: nat)
    requires |poly| == |rem| >= 1
    requires i < |data|
    ensures Run(poly, rem, MessageBits(reflectIn, data[..i + 1]))
         == Run(poly, Run(poly, rem, MessageBits(reflectIn, data[..i])), ByteBits(reflectIn, data[i]))
  {
    assert data[..i + 1][..i] == data[..i];
    RunConcat(poly, rem, MessageBits(reflectIn, data[..i]), ByteBits(reflectIn, data[i]));
  }

  lemma {:induction false} StepLinear(poly: Word, r: Word, s: Word, b: bool, c: bool)
    requires |poly| == |r| == |s| >= 1
    ensures Step(poly, Xor(r, s), b != c) == Xor(Step(poly, r, b), Step(poly, s, c))
  {
  }

  // Division is linear over GF(2) in the remainder and the message together.
  lemma {:induction false} RunLinear(poly: Word, r: Word, s: Word, a: seq<bool>, b: seq<bool>)
    requires |poly| == |r| == |s| >= 1
    requires |a| == |b|
    ensures Run(poly, Xor(r, s), Xor(a, b)) == Xor(Run(poly, r, a), Run(poly, s, b))
  {
    if a != [] {
      var k := |a| - 1;
      RunLinear(poly, r, s, a[..k], b[..k]);
      assert Xor(a, b)[..k] == Xor(a[..k], b[..k]);
      StepLinear(poly, Run(poly, r, a[..k]), Run(poly, s, b[..k]), a[k], b[k]);
    }
  }

  // The step as programs take it, on words that may be wider than the register: the high bits are
  // never cleared, and never reach the low `bits` ones.
  lemma {:induction false} WideStep(bits: nat, poly: Word, rem: Word, bit: bool)
    requires 1 <= bits <= |rem| == |poly|
    ensures var met := Xor(rem, if bit then OneHot(|rem|, bits - 1) else Zero(|rem|));
            var shifted := Shl(met, 1);
            (if met[bits - 1] then Xor(shifted, poly) else shifted)[..bits] == Step(poly[..bits], rem[..bits], bit)
  {
  }

  // The next k feedback bits of a remainder: its top k bits, top first, zero once it runs out.
  function Top(rem: Word, k: nat): (r: seq<bool>)
    ensures |r| == k
  {
    seq(k, i requires 0 <= i => i < |rem| && rem[|rem| - 1 - i])
  }

  // A message that repeats the remainder's own top bits cancels every division step.
  lemma {:induction false} RunOwnTopShifts(poly: Word, rem: Word, k: nat)
    requires |poly| == |rem| >= 1
    ensures Run(poly, rem, Top(rem, k)) == Shl(rem, k)
  {
    if k == 0 {
      assert Shl(rem, 0) == rem;
    } else {
      RunOwnTopShifts(poly, rem, k - 1);
      assert Top(rem, k)[..k - 1] == Top(rem, k - 1);
      assert Step(poly, Shl(rem, k - 1), Top(rem, k)[k - 1]) == Shl(rem, k);
    }
  }

  // The identity behind table lookup: k steps at once are a shift plus the division, started from
  // zero, of the k message bits combined with the top k bits of the remainder. It holds for every
  // k, also when k exceeds the width.
  lemma {:induction false} RunByShiftAndLookup(poly: Word, rem: Word, bits: seq<bool>)
    requires |poly| == |rem| >= 1
    ensures Run(poly, rem, bits)
         == Xor(Shl(rem, |bits|), Run(poly, Zero(|rem|), Xor(bits, Top(rem, |bits|))))
  {
    var k, z := |bits|, Zero(|rem|);
    var t := Top(rem, k);
    XorZero(rem);
    XorCancel(t, bits);
    RunLinear(poly, rem, z, t, Xor(bits, t));
    RunOwnTopShifts(poly, rem, k);
  }
}
