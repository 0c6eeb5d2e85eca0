/** The table-driven computer built on CrcTable, and the function that runs it over a buffer. */
module CrcComputer {
  import opened Words
  import opened CrcRemainder
  import opened CrcOptimalModule

  // Aligns the top bit of the remainder with the top bit of a byte.
  function AlignMsb(bits: nat, rem: Word): Byte {
    if bits > CHAR_BIT then Resize(Shr(rem, bits - CHAR_BIT), CHAR_BIT)
    else Resize(Shl(rem, CHAR_BIT - bits), CHAR_BIT)
  }

  // crc_helper<Bits, DoReflect>::index
  function Index(bits: nat, doReflect: bool, rem: Word, x: Byte): Byte {
    Xor(x, if doReflect then Resize(rem, CHAR_BIT) else AlignMsb(bits, rem))
  }

  // crc_helper<Bits, DoReflect>::shift
  function ShiftOut(doReflect: bool, rem: Word): (r: Word)
    ensures |r| == |rem|
  {
    if doReflect then Shr(rem, CHAR_BIT) else Shl(rem, CHAR_BIT)
  }

  lemma {:induction false} IndexIsTop(bits: nat, rem: Word, x: Byte)
    requires 1 <= bits <= |rem| && CHAR_BIT <= |rem|
    ensures Reverse(Index(bits, false, rem, x)) == Xor(Reverse(x), Top(rem[..bits], 8))
  {
  }

  lemma {:induction false} ReflectedIndexIsTop(rem: Word, width: nat, x: Byte)
    requires |rem| >= 1 && |rem| <= width && CHAR_BIT <= width
    ensures Index(|rem|, true, Resize(Reverse(rem), width), x) == Xor(x, Top(rem, 8))
  {
  }

  // One table step on an unreflected register whose high bits may hold anything.
  lemma {:induction false} LookupStep(t: CrcTable, bits: nat, rem: Word, x: Byte, entry: Word)
    requires t.Shaped() && bits == t.bitCount && |rem| == t.width && !t.reflected
    requires t.Holds(entry, Index(bits, false, rem, x))
    ensures Xor(ShiftOut(false, rem), entry)[..bits] == Run(t.truncPoly[..bits], rem[..bits], Reverse(x))
  {
    var poly, low := t.truncPoly[..bits], rem[..bits];
    var looked := Entry(poly, Index(bits, false, rem, x));
    IndexIsTop(bits, rem, x);
    RunByShiftAndLookup(poly, low, Reverse(x));
    var out := Xor(ShiftOut(false, rem), entry);
    assert entry[..bits] == looked;
    assert forall i :: 0 <= i < bits ==> entry[i] == looked[i];
    assert forall i :: 0 <= i < bits ==> out[..bits][i] == Xor(Shl(low, 8), looked)[i];
  }

  // One table step on a reflected register, which is kept mirrored and free of high bits.
  lemma {:induction false} ReflectedLookupStep(t: CrcTable, rem: Word, x: Byte, entry: Word)
    requires t.Shaped() && |rem| == t.bitCount && t.reflected
    requires t.Holds(entry, Index(t.bitCount, true, Resize(Reverse(rem), t.width), x))
    ensures Xor(ShiftOut(true, Resize(Reverse(rem), t.width)), entry)
         == Resize(Reverse(Run(t.truncPoly[..t.bitCount], rem, x)), t.width)
  {
    var poly, stored := t.truncPoly[..t.bitCount], Resize(Reverse(rem), t.width);
    var index := Index(t.bitCount, true, stored, x);
    var looked := Entry(poly, Reverse(index));
    ReverseInvolution(index);
    ReflectedIndexIsTop(rem, t.width, x);
    RunByShiftAndLookup(poly, rem, x);
    ReflectedCombine(rem, looked, t.width);
  }

  lemma {:induction false} ReflectedCombine(rem: Word, looked: Word, width: nat)
    requires |rem| == |looked| <= width
    ensures Xor(Shr(Resize(Reverse(rem), width), 8), Resize(Reverse(looked), width))
         == Resize(Reverse(Xor(Shl(rem, 8), looked)), width)
  {
  }

  // A mirrored register is free of high bits and mirrors back.
  lemma {:induction false} Unmirrored(rem: Word, width: nat)
    requires |rem| <= width
    ensures var stored := Resize(Reverse(rem), width);
            stored == Resize(stored[..|rem|], width) && Reverse(stored[..|rem|]) == rem
  {
  }

  class CrcOptimal {
    const table: CrcTable
    const bitCount: nat
    const width: nat
    const truncPoly: Word
    const initRem: Word
    const finalXor: Word
    const reflectIn: bool
    const reflectRem: bool
    var register: Word

    ghost predicate Valid()
      reads this, table, table.entries
    {
      && table.Valid() && table.didInit
      && bitCount == table.bitCount && width == table.width
      && truncPoly == table.truncPoly && reflectIn == table.reflected
      && |initRem| == |finalXor| == |register| == width
      && (reflectIn ==> register == Resize(register[..bitCount], width))
    }

    // The register as the bit-serial computer would hold it: the stored word is mirrored when input is reflected.
    ghost function Remainder(): (r: Word)
      requires Valid()
      reads this, table, table.entries
      ensures |r| == bitCount
    {
      if reflectIn then Reverse(register[..bitCount]) else register[..bitCount]
    }

    ghost function Parameters(): (p: Params)
      requires Valid()
      reads this, table, table.entries
      ensures p.Valid() && |p.poly| == bitCount
    {
      Params(truncPoly[..bitCount], initRem[..bitCount], finalXor[..bitCount], reflectIn, reflectRem)
    }

    constructor (t: CrcTable, init: Word, final: Word, reflectOut: bool, start: Word)
      requires t.Valid() && |init| == |final| == |start| == t.width
      modifies t`didInit, t.entries
      ensures Valid() && table == t && initRem == init
      ensures old(t.didInit) ==> t.entries[..] == old(t.entries[..])
      ensures Parameters() == Params(t.truncPoly[..t.bitCount], init[..t.bitCount], final[..t.bitCount],
                                     t.reflected, reflectOut)
      ensures Remainder() == start[..t.bitCount]
    {
      table, bitCount, width, truncPoly, reflectIn := t, t.bitCount, t.width, t.truncPoly, t.reflected;
      initRem, finalXor, reflectRem := init, final, reflectOut;
      var r := t.PossiblyReflect(start);
      register := r;
      new;
      t.InitTable();
      StoredForm(start);
    }

    // What helper_type::reflect leaves in the register stands for the word it was given.
    lemma {:induction false} StoredForm(x: Word)
      requires |x| == width && 1 <= bitCount <= width
      ensures var m := Resize(Reverse(x[..bitCount]), width);
              m == Resize(m[..bitCount], width) && Reverse(m[..bitCount]) == x[..bitCount]
    {
    }

    method GetInterimRemainder() returns (r: Word)
      requires Valid()
      ensures r == Resize(Remainder(), width)
    {
      r := table.PossiblyReflect(register);
      r := And(r, LowMask(width, bitCount));
    }

    method Reset(newRem: Word)
      requires Valid() && |newRem| == width
      modifies this`register
      ensures Valid() && Remainder() == newRem[..bitCount]
    {
      var r := table.PossiblyReflect(newRem);
      register := r;
      StoredForm(newRem);
    }

    method ProcessByte(byte: Byte)
      requires Valid()
      modifies this`register
      ensures Valid()
      ensures Remainder() == Run(Parameters().poly, old(Remainder()), ByteBits(reflectIn, byte))
    {
      ProcessBlock([byte]);
      assert [byte][..0] == [];
      assert MessageBits(reflectIn, [byte]) == ByteBits(reflectIn, byte);
    }

    method ProcessBlock(data: seq<Byte>)
      requires Valid()
      modifies this`register
      ensures Valid()
      ensures Remainder() == Run(Parameters().poly, old(Remainder()), MessageBits(reflectIn, data))
    {
      ghost var poly, start := Parameters().poly, Remainder();
      var p := 0;
      while p < |data|
        invariant Valid() && p <= |data|
        invariant Remainder() == Run(poly, start, MessageBits(reflectIn, data[..p]))
      {
        ghost var before := Remainder();
        var byteIndex := Index(bitCount, reflectIn, register, data[p]);
        ByteRange(byteIndex);
        var entry := table.entries[ToNat(byteIndex)];
        assert table.Holds(entry, byteIndex);
        TableStep(register, data[p], entry);
        register := ShiftOut(reflectIn, register);
        register := Xor(register, entry);
        RunOneMoreByte(poly, start, reflectIn, data, p);
        p := p + 1;
      }
      assert data[..p] == data;
    }

    // Either form of the register takes the eight steps of a byte at once.
    lemma {:induction false} TableStep(rem: Word, x: Byte, entry: Word)
      requires Valid() && rem == register && table.Holds(entry, Index(bitCount, reflectIn, rem, x))
      ensures var out := Xor(ShiftOut(reflectIn, rem), entry);
              var next := Run(Parameters().poly, Remainder(), ByteBits(reflectIn, x));
              if reflectIn then out == Resize(out[..bitCount], width) && Reverse(out[..bitCount]) == next
              else out[..bitCount] == next
    {
      if reflectIn {
        ReverseInvolution(rem[..bitCount]);
        ReflectedLookupStep(table, Remainder(), x, entry);
        Unmirrored(Run(Parameters().poly, Remainder(), x), width);
      } else {
        LookupStep(table, bitCount, rem, x, entry);
      }
    }

    method Checksum() returns (r: Word)
      requires Valid()
      ensures r == Resize(Output(Parameters(), Remainder()), width)
    {
      var rem := register;
      if reflectRem != reflectIn {
        rem := Reflect(register, bitCount);
      }
      ReverseInvolution(register[..bitCount]);
      r := And(Xor(rem, finalXor), LowMask(width, bitCount));
    }
  }
}
