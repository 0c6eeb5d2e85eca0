/** The function template augmented_crc, over bytes and the lookup table. */
module CrcAugmentedBuffer {
  import opened Words
  import opened CrcRemainder
  import opened CrcOptimalModule
  import opened CrcAugmented

  // As long as they all fit below the top of the register, message bits can be added at the end.
  lemma {:induction false} AugRunByRun(poly: Word, rem: Word, bits: seq<bool>)
    requires |poly| == |rem| >= 1
    requires |bits| <= |rem|
    ensures AugRun(poly, rem, bits) == Xor(Run(poly, rem, Zero(|bits|)), Resize(Reverse(bits), |rem|))
  {
    var n, k := |rem|, |bits|;
    if bits == [] {
      assert Reverse(bits) == Zero(0);
      ResizeZero(0, n);
      XorZero(rem);
    } else {
      var run := Run(poly, rem, Zero(k - 1));
      AugRunByRun(poly, rem, bits[..k - 1]);
      assert Zero(k)[..k - 1] == Zero(k - 1);
      AugStepBelow(poly, run, bits);
    }
  }

  lemma {:induction false} AugStepBelow(poly: Word, run: Word, bits: seq<bool>)
    requires |poly| == |run| && 1 <= |bits| <= |run|
    ensures AugStep(poly, Xor(run, Resize(Reverse(bits[..|bits| - 1]), |run|)), bits[|bits| - 1])
         == Xor(Step(poly, run, false), Resize(Reverse(bits), |run|))
  {
    var n, k := |run|, |bits| - 1;
    var low := Resize(Reverse(bits[..k]), n);
    StepLinear(poly, run, low, false, false);
    LowStep(poly, low);
    ShiftIn(bits, n);
    XorAssoc(Step(poly, run, false), Shl(low, 1), Bottom(n, bits[k]));
  }

  lemma {:induction false} LowStep(poly: Word, low: Word)
    requires |poly| == |low| >= 1 && !low[|low| - 1]
    ensures Step(poly, low, false) == Shl(low, 1)
  {
  }

  lemma {:induction false} ShiftIn(bits: seq<bool>, n: nat)
    requires 1 <= |bits| <= n
    ensures Xor(Shl(Resize(Reverse(bits[..|bits| - 1]), n), 1), Bottom(n, bits[|bits| - 1])) == Resize(Reverse(bits), n)
  {
  }

  // The table step of the loop, on words wider than the register.
  lemma {:induction false} AugmentedTableStep(t: CrcTable, rem: Word, x: Byte, entry: Word)
    requires t.Shaped() && !t.reflected && CHAR_BIT <= t.bitCount && |rem| == t.width
    requires t.Holds(entry, Resize(Shr(rem, t.bitCount - CHAR_BIT), CHAR_BIT))
    ensures Xor(Or(Shl(rem, CHAR_BIT), Resize(x, t.width)), entry)[..t.bitCount]
         == AugRun(t.truncPoly[..t.bitCount], rem[..t.bitCount], Reverse(x))
  {
    var n, poly, low := t.bitCount, t.truncPoly[..t.bitCount], rem[..t.bitCount];
    var index: Byte := Resize(Shr(rem, n - CHAR_BIT), CHAR_BIT);
    assert Reverse(index) == Xor(Zero(8), Top(low, 8)) by {
      assert forall i :: 0 <= i < 8 ==> Reverse(index)[i] == Xor(Zero(8), Top(low, 8))[i];
    }
    RunByShiftAndLookup(poly, low, Zero(8));
    AugRunByRun(poly, low, Reverse(x));
    ReverseInvolution(x);
    AugmentedCombine(rem, n, x, entry, Entry(poly, index));
  }

  lemma {:induction false} AugmentedCombine(rem: Word, n: nat, x: Byte, entry: Word, looked: Word)
    requires 8 <= n <= |rem| == |entry| && |looked| == n && entry[..n] == looked
    ensures Xor(Or(Shl(rem, 8), Resize(x, |rem|)), entry)[..n]
         == Xor(Xor(Shl(rem[..n], 8), looked), Resize(x, n))
  {
  }

  method AugmentedCrc(table: CrcTable, data: seq<Byte>, initialRemainder: Word) returns (r: Word)
    requires table.Valid() && !table.reflected
    requires CHAR_BIT <= table.bitCount && |initialRemainder| == table.width
    modifies table`didInit, table.entries
    ensures table.Valid()
    ensures var n := table.bitCount;
            r == Resize(AugRun(table.truncPoly[..n], initialRemainder[..n], MessageBits(false, data)), table.width)
  {
    var rem := initialRemainder;
    ghost var poly, start := table.truncPoly[..table.bitCount], initialRemainder[..table.bitCount];
    table.InitTable();
    var p := 0;
    while p < |data|
      invariant p <= |data| && |rem| == table.width && table.Valid() && table.didInit
      invariant rem[..table.bitCount] == AugRun(poly, start, MessageBits(false, data[..p]))
    {
      var byteIndex: Byte := Resize(Shr(rem, table.bitCount - CHAR_BIT), CHAR_BIT);
      ByteRange(byteIndex);
      var entry := table.entries[ToNat(byteIndex)];
      assert table.Holds(entry, byteIndex);
      AugmentedTableStep(table, rem, data[p], entry);
      rem := Shl(rem, CHAR_BIT);
      rem := Or(rem, Resize(data[p], table.width));
      rem := Xor(rem, entry);
      assert data[..p + 1][..p] == data[..p];
      AugRunConcat(poly, start, MessageBits(false, data[..p]), Reverse(data[p]));
      p := p + 1;
    }
    assert data[..p] == data;
    r := And(rem, LowMask(table.width, table.bitCount));
    assert forall i :: 0 <= i < table.width ==> r[i] == Resize(rem[..table.bitCount], table.width)[i];
  }

  // The bytes of a word whose width is a multiple of eight, high byte first.
  function BytesOf(w: Word): (r: seq<Byte>)
    requires |w| % 8 == 0
    ensures |r| == |w| / 8
  {
    BytesOfBits(false, Reverse(w))
  }

  // A message followed by the bytes of a word.
  lemma {:induction false} AppendedWord(poly: Word, start: Word, data: seq<Byte>, t: Word)
    requires |poly| == |start| >= 1 && |t| % 8 == 0
    ensures AugRun(poly, start, MessageBits(false, data + BytesOf(t)))
         == AugRun(poly, start, MessageBits(false, data) + Reverse(t))
  {
    MessageBitsConcat(false, data, BytesOf(t));
    BitsOfBytes(false, Reverse(t));
  }

  // Room for the remainder, filled with zero bytes: the augmented form gives the plain remainder.
  lemma {:induction false} ZeroBytesMakeItPlain(poly: Word, start: Word, data: seq<Byte>)
    requires |poly| == |start| >= 1 && |poly| % 8 == 0
    ensures var n := |poly|;
            var c := AugRun(poly, start, MessageBits(false, data + BytesOf(Zero(n))));
            && c == Run(poly, AugRun(poly, start, Zero(n)), MessageBits(false, data))
            && (start == Zero(n) ==> c == Run(poly, Zero(n), MessageBits(false, data)))
  {
    var n := |poly|;
    AppendedWord(poly, start, data, Zero(n));
    assert Reverse(Zero(n)) == Zero(n);
    ZeroesMakeItPlain(poly, start, MessageBits(false, data));
    ZeroStaysZero(poly, n);
  }

  // That remainder in place of the zero bytes, and no other word, makes the augmented form give zero.
  lemma {:induction false} RemainderInPlace(poly: Word, start: Word, data: seq<Byte>, t: Word)
    requires |poly| == |start| == |t| >= 1 && |poly| % 8 == 0
    ensures AugRun(poly, start, MessageBits(false, data + BytesOf(t))) == Zero(|poly|)
       <==> t == AugRun(poly, start, MessageBits(false, data + BytesOf(Zero(|poly|))))
  {
    var n := |poly|;
    AppendedWord(poly, start, data, t);
    AppendedWord(poly, start, data, Zero(n));
    assert Reverse(Zero(n)) == Zero(n);
    CheckWord(poly, start, MessageBits(false, data), t);
  }

  // The round trip that the augmented form is for: append the remainder, and the check comes out zero.
  method AppendRemainder(table: CrcTable, data: seq<Byte>, initialRemainder: Word)
    returns (remainder: Word, check: Word)
    requires table.Valid() && !table.reflected
    requires table.bitCount % 8 == 0 && |initialRemainder| == table.width
    modifies table`didInit, table.entries
    ensures var n, poly := table.bitCount, table.truncPoly[..table.bitCount];
            remainder == Resize(Run(poly, AugRun(poly, initialRemainder[..n], Zero(n)), MessageBits(false, data)),
                                table.width)
    ensures check == Zero(table.width)
  {
    ghost var n, poly, start := table.bitCount, table.truncPoly[..table.bitCount], initialRemainder[..table.bitCount];
    remainder := AugmentedCrc(table, data + BytesOf(Zero(table.bitCount)), initialRemainder);
    ZeroBytesMakeItPlain(poly, start, data);
    ghost var c := AugRun(poly, start, MessageBits(false, data + BytesOf(Zero(n))));
    ResizeLow(c, table.width);
    check := AugmentedCrc(table, data + BytesOf(remainder[..table.bitCount]), initialRemainder);
    RemainderInPlace(poly, start, data, c);
    ResizeZero(n, table.width);
  }
}
