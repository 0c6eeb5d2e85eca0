/** What a checksum is: its bits one by one, and the residue that it leaves behind its own message. */
module CrcResidue {
  import opened Words
  import opened CrcRemainder
  import opened CrcErrors

  // The message bits one by one: bottom bit first when input is reflected, else top bit first.
  lemma {:induction false} MessageBitAt(reflectIn: bool, data: seq<Byte>, k: nat, j: nat)
    requires k < |data| && j < 8
    ensures MessageBits(reflectIn, data)[8 * k + j] == data[k][if reflectIn then j else 7 - j]
  {
    var n := |data| - 1;
    if k < n { MessageBitAt(reflectIn, data[..n], k, j); }
  }

  lemma {:induction false} OutputBit(p: Params, rem: Word, i: nat)
    requires p.Valid() && |rem| == |p.poly| && i < |rem|
    ensures Output(p, rem)[i] == (rem[if p.reflectRem then |rem| - 1 - i else i] != p.finalXor[i])
  {
  }

  // The bits of a checksum: those of the remainder, mirrored if asked, each combined with the final value's.
  lemma {:induction false} ChecksumBit(p: Params, data: seq<Byte>, i: nat)
    requires p.Valid() && i < |p.poly|
    ensures var rem := Run(p.poly, p.init, MessageBits(p.reflectIn, data));
            Checksum(p, data)[i] == (rem[if p.reflectRem then |rem| - 1 - i else i] != p.finalXor[i])
  {
    OutputBit(p, Run(p.poly, p.init, MessageBits(p.reflectIn, data)), i);
  }

  // The bytes of a word, low byte first when reflected, else high byte first.
  function WordBytes(reflected: bool, w: Word): (r: seq<Byte>)
    requires |w| % 8 == 0
    ensures |r| == |w| / 8
    ensures forall k :: 0 <= k < |r| ==>
                          r[k] == if reflected then w[8 * k..8 * k + 8] else w[|w| - 8 * k - 8..|w| - 8 * k]
  {
    seq(|w| / 8, k requires 0 <= k < |w| / 8 =>
      var b: Byte := if reflected then w[8 * k..8 * k + 8] else w[|w| - 8 * k - 8..|w| - 8 * k];
      b)
  }

  lemma {:induction false} BitOfByte(reflected: bool, w: Word, k: nat, j: nat)
    requires |w| % 8 == 0 && k < |w| / 8 && j < 8
    ensures WordBytes(reflected, w)[k][if reflected then j else 7 - j]
         == w[if reflected then 8 * k + j else |w| - 1 - (8 * k + j)]
  {
    var b := WordBytes(reflected, w)[k];
    if reflected {
      assert b == w[8 * k..8 * k + 8];
    } else {
      assert b == w[|w| - 8 * k - 8..|w| - 8 * k];
    }
  }

  lemma {:induction false} BitOfWordBytes(reflected: bool, w: Word, i: nat)
    requires |w| % 8 == 0 && i < |w|
    ensures MessageBits(reflected, WordBytes(reflected, w))[i] == w[if reflected then i else |w| - 1 - i]
  {
    var k, j := i / 8, i % 8;
    MessageBitAt(reflected, WordBytes(reflected, w), k, j);
    BitOfByte(reflected, w, k, j);
  }

  lemma {:induction false} MirroredIf(reflected: bool, w: Word, bits: Word)
    requires |bits| == |w|
    requires forall i :: 0 <= i < |w| ==> bits[i] == w[if reflected then i else |w| - 1 - i]
    ensures bits == if reflected then w else Reverse(w)
  {
    if !reflected { assert forall i :: 0 <= i < |w| ==> bits[i] == Reverse(w)[i]; }
  }

  lemma {:induction false} BitsOfWordBytes(reflected: bool, w: Word)
    requires |w| % 8 == 0
    ensures MessageBits(reflected, WordBytes(reflected, w)) == if reflected then w else Reverse(w)
  {
    forall i | 0 <= i < |w|
      ensures MessageBits(reflected, WordBytes(reflected, w))[i] == w[if reflected then i else |w| - 1 - i]
    {
      BitOfWordBytes(reflected, w, i);
    }
    MirroredIf(reflected, w, MessageBits(reflected, WordBytes(reflected, w)));
  }

  // What is left behind a message and its own checksum, whatever the message and the start.
  function Residue(p: Params): (r: Word)
    requires p.Valid()
    ensures |r| == |p.poly|
  {
    Run(p.poly, Zero(|p.poly|), if p.reflectIn then p.finalXor else Reverse(p.finalXor))
  }

  // A register fed with its own top bits, changed by x, is what x alone leaves.
  lemma {:induction false} RunOwnTopChanged(poly: Word, rem: Word, x: seq<bool>)
    requires |poly| == |rem| == |x| >= 1
    ensures Run(poly, rem, Xor(Reverse(rem), x)) == Run(poly, Zero(|rem|), x)
  {
    var n := |rem|;
    assert Top(rem, n) == Reverse(rem);
    RunOwnTopShifts(poly, rem, n);
    assert Shl(rem, n) == Zero(n);
    RunLinear(poly, rem, Zero(n), Reverse(rem), x);
    XorZero(rem);
    XorZero(Run(poly, Zero(n), x));
  }

  // The bits of the checksum as they follow the message.
  lemma {:induction false} ChecksumAsSent(p: Params, rem: Word)
    requires p.Valid() && |rem| == |p.poly| && p.reflectIn == p.reflectRem
    ensures var c := Output(p, rem);
            (if p.reflectIn then c else Reverse(c))
            == Xor(Reverse(rem), if p.reflectIn then p.finalXor else Reverse(p.finalXor))
  {
  }

  // The residue law: a message followed by the bytes of its checksum.
  lemma {:induction false} ChecksumLeavesResidue(p: Params, data: seq<Byte>)
    requires p.Valid() && |p.poly| % 8 == 0 && p.reflectIn == p.reflectRem
    ensures Run(p.poly, p.init, MessageBits(p.reflectIn, data + WordBytes(p.reflectIn, Checksum(p, data))))
         == Residue(p)
  {
    var rem := Run(p.poly, p.init, MessageBits(p.reflectIn, data));
    var c := Checksum(p, data);
    RunOfSplitMessage(p.poly, p.init, p.reflectIn, data, WordBytes(p.reflectIn, c));
    BitsOfWordBytes(p.reflectIn, c);
    ChecksumAsSent(p, rem);
    RunOwnTopChanged(p.poly, rem, if p.reflectIn then p.finalXor else Reverse(p.finalXor));
  }

  // With an odd polynomial no other word in that place leaves it.
  lemma {:induction false} OnlyChecksumLeavesResidue(p: Params, data: seq<Byte>, t: Word)
    requires p.Valid() && |p.poly| % 8 == 0 && p.reflectIn == p.reflectRem && p.poly[0] && |t| == |p.poly|
    ensures Run(p.poly, p.init, MessageBits(p.reflectIn, data + WordBytes(p.reflectIn, t))) == Residue(p)
       <==> t == Checksum(p, data)
  {
    ChecksumLeavesResidue(p, data);
    var rem := Run(p.poly, p.init, MessageBits(p.reflectIn, data));
    var c := Checksum(p, data);
    var x, y := if p.reflectIn then t else Reverse(t), if p.reflectIn then c else Reverse(c);
    RunOfSplitMessage(p.poly, p.init, p.reflectIn, data, WordBytes(p.reflectIn, t));
    RunOfSplitMessage(p.poly, p.init, p.reflectIn, data, WordBytes(p.reflectIn, c));
    BitsOfWordBytes(p.reflectIn, t);
    BitsOfWordBytes(p.reflectIn, c);
    ReverseInvolution(t);
    ReverseInvolution(c);
    if x != y { BurstChangesRemainder(p.poly, rem, x, y, 0, |p.poly|); }
  }
}
