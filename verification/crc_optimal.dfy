/** The table-driven CRC computer. Its parameters are compile-time constants, here const fields. */
module CrcOptimalModule {
  import opened Words
  import opened CrcRemainder

  // What the table holds for a byte: eight steps of division started from zero, top bit first.
  function Entry(poly: Word, b: Byte): (r: Word)
    requires |poly| >= 1
    ensures |r| == |poly|
  {
    Run(poly, Zero(|poly|), Reverse(b))
  }

  // A one-bit mask over a byte, shifted right: it visits every bit and only then becomes zero.
  lemma {:induction false} MaskMoves(k: nat)
    requires k < 8
    ensures OneHot(8, 7 - k) != Zero(8)
    ensures Shr(OneHot(8, 7 - k), 1) == if k < 7 then OneHot(8, 6 - k) else Zero(8)
  {
    assert OneHot(8, 7 - k)[7 - k] != Zero(8)[7 - k];
    var next := if k < 7 then OneHot(8, 6 - k) else Zero(8);
    assert forall i :: 0 <= i < 8 ==> Shr(OneHot(8, 7 - k), 1)[i] == next[i];
  }

  /** The lookup table shared by all computers with the same width, polynomial and input reflection. */
  class CrcTable {
    const bitCount: nat
    const width: nat
    const truncPoly: Word
    const reflected: bool
    const entries: array<Word>
    var didInit: bool

    ghost predicate Shaped() {
      && 1 <= bitCount <= width && CHAR_BIT <= width
      && |truncPoly| == width
      && entries.Length == 256
    }

    ghost predicate Holds(w: Word, b: Byte)
      requires Shaped()
    {
      && |w| == width
      && (if reflected then w == Resize(Reverse(Entry(truncPoly[..bitCount], Reverse(b))), width)
          else w[..bitCount] == Entry(truncPoly[..bitCount], b))
    }

    ghost predicate Filled()
      requires Shaped()
      reads entries
    {
      forall b: Byte :: (ByteRange(b); Holds(entries[ToNat(b)], b))
    }

    ghost predicate Valid()
      reads this, entries
    {
      Shaped() && (didInit ==> Filled())
    }

    constructor (count: nat, polynomial: Word, reflect: bool)
      requires 1 <= count <= |polynomial| && CHAR_BIT <= |polynomial|
      ensures Valid() && fresh(entries)
      ensures bitCount == count && width == |polynomial| && truncPoly == polynomial && reflected == reflect
    {
      bitCount, width, truncPoly, reflected := count, |polynomial|, polynomial, reflect;
      entries := new Word[256](_ => Zero(|polynomial|));
      didInit := false;
    }

    // Where the entry for a dividend goes.
    function Slot(dividend: nat): (r: nat)
      ensures r < 256
    {
      var b: Byte := FromNat(dividend, 8);
      ByteRange(b); ByteRange(Reverse(b));
      ToNat(if reflected then Reverse(b) else b)
    }

    // The table index that a dividend is stored under determines the dividend, and none is missed.
    lemma {:induction false} SlotOf(b: Byte)
      ensures var dividend := ToNat(if reflected then Reverse(b) else b);
              dividend < 256 && Slot(dividend) == ToNat(b)
    {
      var source: Byte := if reflected then Reverse(b) else b;
      ByteRange(source);
      FromNatToNat(source);
      ReverseInvolution(b);
    }

    lemma {:induction false} SlotInjective(d: nat, e: nat)
      requires d < 256 && e < 256 && Slot(d) == Slot(e)
      ensures d == e
    {
      assert Pow2(8) == 256;
      var b: Byte, c: Byte := FromNat(d, 8), FromNat(e, 8);
      ToNatFromNat(d, 8);
      ToNatFromNat(e, 8);
      FromNatToNat(if reflected then Reverse(b) else b);
      FromNatToNat(if reflected then Reverse(c) else c);
      ReverseInvolution(b);
      ReverseInvolution(c);
    }

    // One bit of the dividend, combined with the top of the remainder before it is shifted out.
    method DivideBit(rem: Word, bit: bool) returns (remainder: Word)
      requires Shaped() && |rem| == width
      ensures |remainder| == width && remainder[..bitCount] == Step(truncPoly[..bitCount], rem[..bitCount], bit)
    {
      var fastHiBit := OneHot(width, bitCount - 1);
      WideStep(bitCount, truncPoly, rem, bit);
      XorZero(rem);
      remainder := rem;
      if bit {
        remainder := Xor(remainder, fastHiBit);
      }
      var fits := IsSet(remainder, bitCount - 1);
      if fits {
        remainder := Shl(remainder, 1);
        remainder := Xor(remainder, truncPoly);
      } else {
        remainder := Shl(remainder, 1);
      }
    }

    // Divides one byte, started from zero.
    method Divide(dividend: Byte) returns (remainder: Word)
      requires Shaped()
      ensures |remainder| == width && remainder[..bitCount] == Entry(truncPoly[..bitCount], dividend)
    {
      ghost var poly, fed := truncPoly[..bitCount], Reverse(dividend);
      remainder := Zero(width);
      LowZero(width, bitCount);
      var mask := OneHot(CHAR_BIT, CHAR_BIT - 1);
      ghost var k := 0;
      while mask != Zero(CHAR_BIT)
        invariant k <= 8 && |remainder| == width
        invariant mask == if k < 8 then OneHot(CHAR_BIT, CHAR_BIT - 1 - k) else Zero(CHAR_BIT)
        invariant remainder[..bitCount] == Run(poly, Zero(bitCount), fed[..k])
        decreases 8 - k
      {
        MaskMoves(k);
        TestBit(dividend, CHAR_BIT - 1 - k);
        remainder := DivideBit(remainder, And(dividend, mask) != Zero(CHAR_BIT));
        RunOneMoreBit(poly, Zero(bitCount), fed, k + 1);
        mask := Shr(mask, 1);
        k := k + 1;
      }
      assert k == 8 by {
        if k < 8 { MaskMoves(k); }
      }
      assert fed[..8] == fed;
    }

    // crc_helper<Bits, Reflect>::reflect
    method PossiblyReflect(x: Word) returns (r: Word)
      requires Shaped() && |x| == width
      ensures r == if reflected then Resize(Reverse(x[..bitCount]), width) else x
    {
      r := x;
      if reflected { r := Reflect(x, bitCount); }
    }

    // crc_helper<CHAR_BIT, Reflect>::reflect, used as an index
    method EntryIndex(dividend: Byte) returns (r: nat)
      ensures r == ToNat(if reflected then Reverse(dividend) else dividend)
    {
      var b := dividend;
      if reflected {
        b := Reflect(dividend, CHAR_BIT);
        assert dividend[..CHAR_BIT] == dividend && b == Reverse(dividend);
      }
      r := ToNat(b);
    }

    // Computes the entry for one dividend and puts it into its slot.
    method Store(dividend: nat)
      requires Shaped() && dividend < 256 && StoredBelow(dividend)
      modifies entries
      ensures StoredBelow(dividend + 1)
    {
      var b: Byte := FromNat(dividend, 8);
      var remainder := Divide(b);
      var index := EntryIndex(b);
      var entry := PossiblyReflect(remainder);
      ReverseInvolution(b);
      assert index == Slot(dividend);
      entries[index] := entry;
      forall d: nat | d <= dividend ensures Stored(d) {
        if d < dividend {
          assert old(Stored(d));
          if Slot(d) == index { SlotInjective(d, dividend); }
        }
      }
    }

    // Computes the table on the first call only.
    method InitTable()
      requires Valid()
      modifies this`didInit, entries
      ensures Valid() && didInit
      ensures old(didInit) ==> entries[..] == old(entries[..])
    {
      if didInit { return; }
      var dividend, more := 0, true;
      while more
        invariant dividend < 256 && (dividend == 0 || more)
        invariant StoredBelow(if more then dividend else 256)
        decreases more, 256 - dividend
      {
        Store(dividend);
        dividend := (dividend + 1) % 256;
        more := dividend != 0;
      }
      AllStored();
      didInit := true;
    }

    ghost predicate StoredBelow(n: nat)
      requires Shaped()
      reads entries
    {
      forall d: nat :: d < n ==> Stored(d)
    }

    ghost predicate Stored(d: nat)
      requires Shaped()
      reads entries
    {
      var b: Byte := FromNat(d, 8);
      Holds(entries[Slot(d)], if reflected then Reverse(b) else b)
    }

    lemma {:induction false} AllStored()
      requires Shaped()
      requires StoredBelow(256)
      ensures Filled()
    {
      forall b: Byte
        ensures (ByteRange(b); Holds(entries[ToNat(b)], b))
      {
        var source: Byte := if reflected then Reverse(b) else b;
        ByteRange(b);
        SlotOf(b);
        FromNatToNat(source);
        ReverseInvolution(b);
        assert Stored(ToNat(source));
      }
    }
  }
}
