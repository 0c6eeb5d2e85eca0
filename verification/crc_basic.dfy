/** The bit-serial CRC computer, with its parameters held at run time. */
module CrcBasicModule {
  import opened Words
  import opened CrcRemainder

  // The low i bits of a byte sit at the top of the word.
  ghost predicate OnTop(byte: Byte, i: nat, bits: Word) {
    i <= CHAR_BIT == |bits| && bits[CHAR_BIT - i..] == byte[..i]
  }

  lemma {:induction false} MovedToTop(byte: Byte, count: nat)
    requires count <= CHAR_BIT
    ensures OnTop(byte, count, Shl(byte, CHAR_BIT - count))
  {
  }

  // The top bit is then the next one to feed, and a shift brings up the one after it.
  lemma {:induction false} NextBit(byte: Byte, count: nat, i: nat, bits: Word)
    requires 1 <= i <= count <= CHAR_BIT && OnTop(byte, i, bits)
    ensures bits[CHAR_BIT - 1] == Reverse(byte[..count])[count - i]
    ensures OnTop(byte, i - 1, Shl(bits, 1))
  {
    assert bits[CHAR_BIT - 1] == bits[CHAR_BIT - i..][i - 1];
    forall j | 0 <= j < i - 1 ensures Shl(bits, 1)[CHAR_BIT - i + 1 + j] == byte[j] {
      assert bits[CHAR_BIT - i..][j] == byte[..i][j];
    }
  }

  class CrcBasic {
    const bitCount: nat
    const width: nat   // of value_type, the word that holds a remainder; bits from bitCount up are never cleared
    var register: Word
    var poly: Word
    var initial: Word
    var finalXor: Word
    var reflectIn: bool
    var reflectRem: bool

    ghost predicate Valid()
      reads this
    {
      && 1 <= bitCount <= width
      && |register| == |poly| == |initial| == |finalXor| == width
    }

    // The register proper: what is left once the unused high bits are ignored.
    ghost function Remainder(): (r: Word)
      requires Valid()
      reads this
      ensures |r| == bitCount
    {
      register[..bitCount]
    }

    ghost function Parameters(): (p: Params)
      requires Valid()
      reads this
      ensures p.Valid() && |p.poly| == bitCount
    {
      Params(poly[..bitCount], initial[..bitCount], finalXor[..bitCount], reflectIn, reflectRem)
    }

    constructor (bits: nat, truncatedPolynomial: Word, initialRemainder: Word, finalXorValue: Word,
                 reflectInput: bool, reflectRemainder: bool)
      requires 1 <= bits <= |truncatedPolynomial|
      requires |truncatedPolynomial| == |initialRemainder| == |finalXorValue|
      ensures Valid() && bitCount == bits && width == |truncatedPolynomial|
      ensures Parameters() == Params(truncatedPolynomial[..bits], initialRemainder[..bits], finalXorValue[..bits],
                                     reflectInput, reflectRemainder)
      ensures Remainder() == Parameters().init
    {
      bitCount, width := bits, |truncatedPolynomial|;
      register, poly, initial, finalXor := initialRemainder, truncatedPolynomial, initialRemainder, finalXorValue;
      reflectIn, reflectRem := reflectInput, reflectRemainder;
    }

    method GetInterimRemainder() returns (r: Word)
      requires Valid()
      ensures r == Resize(Remainder(), width)
    {
      r := And(register, LowMask(width, bitCount));
    }

    method ResetTo(newRem: Word)
      requires Valid() && |newRem| == width
      modifies this`register
      ensures Valid() && Remainder() == newRem[..bitCount]
    {
      register := newRem;
    }

    method Reset()
      requires Valid()
      modifies this`register
      ensures Valid() && Remainder() == Parameters().init
    {
      ResetTo(initial);
    }

    method ProcessBit(bit: bool)
      requires Valid()
      modifies this`register
      ensures Valid() && Remainder() == Step(Parameters().poly, old(Remainder()), bit)
    {
      var highBitMask := OneHot(width, bitCount - 1);
      WideStep(bitCount, poly, register, bit);
      register := Xor(register, if bit then highBitMask else Zero(width));
      var doPolyDiv := IsSet(register, bitCount - 1);
      register := Shl(register, 1);
      if doPolyDiv {
        register := Xor(register, poly);
      }
    }

    // Feeds the low `count` bits of a byte, the highest of them first.
    method ProcessBits(byte: Byte, count: nat)
      requires Valid() && count <= CHAR_BIT
      modifies this`register
      ensures Valid()
      ensures Remainder() == Run(Parameters().poly, old(Remainder()), Reverse(byte[..count]))
    {
      var bits: Word := Shl(byte, CHAR_BIT - count);
      MovedToTop(byte, count);
      ghost var fed, poly, start := Reverse(byte[..count]), Parameters().poly, Remainder();
      var i := count;
      while i > 0
        invariant Valid() && Parameters().poly == poly && 0 <= i <= count
        invariant OnTop(byte, i, bits)
        invariant Remainder() == Run(poly, start, fed[..count - i])
      {
        NextBit(byte, count, i, bits);
        var highBit := IsSet(bits, CHAR_BIT - 1);
        ProcessBit(highBit);
        RunOneMoreBit(poly, start, fed, count - i + 1);
        bits := Shl(bits, 1);
        i := i - 1;
      }
      assert fed[..count] == fed;
    }

    method ProcessByte(byte: Byte)
      requires Valid()
      modifies this`register
      ensures Valid()
      ensures Remainder() == Run(Parameters().poly, old(Remainder()), ByteBits(reflectIn, byte))
    {
      var b := byte;
      if reflectIn {
        b := Reflect(byte, CHAR_BIT);
        assert byte[..CHAR_BIT] == byte && b == Reverse(byte);
        ReverseInvolution(byte);
      }
      assert b[..CHAR_BIT] == b;
      ProcessBits(b, CHAR_BIT);
    }

    method ProcessBlock(data: seq<Byte>)
      requires Valid()
      modifies this`register
      ensures Valid()
      ensures Remainder() == Run(Parameters().poly, old(Remainder()), MessageBits(reflectIn, data))
    {
      var p := 0;
      while p < |data|
        invariant Valid() && p <= |data|
        invariant Remainder() == Run(Parameters().poly, old(Remainder()), MessageBits(reflectIn, data[..p]))
      {
        ProcessByte(data[p]);
        RunOneMoreByte(Parameters().poly, old(Remainder()), reflectIn, data, p);
        p := p + 1;
      }
      assert data[..p] == data;
    }

    method Checksum() returns (r: Word)
      requires Valid()
      ensures r == Resize(Output(Parameters(), Remainder()), width)
    {
      var rem := register;
      if reflectRem {
        rem := Reflect(register, bitCount);
      }
      r := And(Xor(rem, finalXor), LowMask(width, bitCount));
    }
  }
}
