/** Whole runs of both computers: they agree, and a run can be cut and resumed anywhere. */
module CrcAgreement {
  import opened Words
  import opened CrcRemainder
  import opened CrcBasicModule
  import opened CrcOptimalModule
  import opened CrcComputer

  // One set of parameters, as the two computers receive it: in words of different widths, with
  // arbitrary bits above the ones that count.
  datatype Setting = Setting(bits: nat, poly: Word, init: Word, finalXor: Word, reflectIn: bool, reflectRem: bool) {
    ghost predicate Valid() {
      1 <= bits <= |poly| == |init| == |finalXor|
    }

    ghost function Low(): (p: Params)
      requires Valid()
      ensures p.Valid() && |p.poly| == bits
    {
      Params(poly[..bits], init[..bits], finalXor[..bits], reflectIn, reflectRem)
    }
  }

  // The table-driven result is the bit-serial one, for the checksum and for the interim remainder.
  method BothComputers(slow: Setting, fast: Setting, data: seq<Byte>)
    returns (slowSum: Word, slowRem: Word, fastSum: Word, fastRem: Word)
    requires slow.Valid() && fast.Valid() && CHAR_BIT <= |fast.poly|
    requires slow.Low() == fast.Low()
    ensures |slowSum| == |slowRem| == |slow.poly| && |fastSum| == |fastRem| == |fast.poly|
    ensures slowSum[..slow.bits] == fastSum[..slow.bits] == Checksum(slow.Low(), data)
    ensures slowRem[..slow.bits] == fastRem[..slow.bits]
         == Run(slow.Low().poly, slow.Low().init, MessageBits(slow.reflectIn, data))
    ensures forall i :: slow.bits <= i < |slowSum| ==> !slowSum[i] && !slowRem[i]
    ensures forall i :: slow.bits <= i < |fastSum| ==> !fastSum[i] && !fastRem[i]
  {
    var basic := new CrcBasic(slow.bits, slow.poly, slow.init, slow.finalXor, slow.reflectIn, slow.reflectRem);
    basic.ProcessBlock(data);
    slowSum := basic.Checksum();
    slowRem := basic.GetInterimRemainder();
    ResizeLow(Checksum(slow.Low(), data), |slow.poly|);
    ResizeLow(basic.Remainder(), |slow.poly|);

    var table := new CrcTable(fast.bits, fast.poly, fast.reflectIn);
    var optimal := new CrcOptimal(table, fast.init, fast.finalXor, fast.reflectRem, fast.init);
    optimal.ProcessBlock(data);
    fastSum := optimal.Checksum();
    fastRem := optimal.GetInterimRemainder();
    ResizeLow(Checksum(slow.Low(), data), |fast.poly|);
    ResizeLow(optimal.Remainder(), |fast.poly|);
  }

  // The function template crc.
  method Crc(table: CrcTable, s: Setting, data: seq<Byte>) returns (sum: Word)
    requires s.Valid() && table.Valid()
    requires s.bits == table.bitCount && s.poly == table.truncPoly && s.reflectIn == table.reflected
    requires |s.poly| == table.width
    modifies table`didInit, table.entries
    ensures table.Valid() && sum == Resize(Checksum(s.Low(), data), table.width)
  {
    var computer := new CrcOptimal(table, s.init, s.finalXor, s.reflectRem, s.init);
    computer.ProcessBlock(data);
    sum := computer.Checksum();
  }

  // Saving the interim remainder of one computer and starting another from it, or resetting the
  // same one to it, continues the run.
  method Resume(s: Setting, first: seq<Byte>, second: seq<Byte>) returns (byNew: Word, byReset: Word)
    requires s.Valid() && CHAR_BIT <= |s.poly|
    ensures byNew == byReset == Resize(Checksum(s.Low(), first + second), |s.poly|)
  {
    var table := new CrcTable(s.bits, s.poly, s.reflectIn);
    var computer := new CrcOptimal(table, s.init, s.finalXor, s.reflectRem, s.init);
    computer.ProcessBlock(first);
    var interim := computer.GetInterimRemainder();
    ResizeLow(computer.Remainder(), |s.poly|);
    RunOfSplitMessage(s.Low().poly, s.Low().init, s.reflectIn, first, second);

    var other := new CrcOptimal(table, s.init, s.finalXor, s.reflectRem, interim);
    other.ProcessBlock(second);
    byNew := other.Checksum();

    other.Reset(interim);
    other.ProcessBlock(second);
    byReset := other.Checksum();
  }
}
