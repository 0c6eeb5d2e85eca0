/** Shapes and row-major offsets of N-dimensional blobs. */
module BlobModule {
  import opened NumberTheory

  // A failed CHECK ends the process.
  datatype Checked = Value(value: int) | Died

  // The volume of the axes in a list.
  function Volume(shape: seq<int>): int {
    if shape == [] then 1 else shape[0] * Volume(shape[1..])
  }

  // The row-major offset of an index vector: the first index moves in steps of the volume behind it.
  function RowMajor(shape: seq<int>, indices: seq<int>): int
    requires |indices| == |shape|
  {
    if shape == [] then 0 else indices[0] * Volume(shape[1..]) + RowMajor(shape[1..], indices[1..])
  }

  ghost predicate InRange(shape: seq<int>, indices: seq<int>) {
    && |indices| <= |shape|
    && forall i :: 0 <= i < |indices| ==> 0 <= indices[i] < shape[i]
  }

  ghost predicate Full(shape: seq<int>, indices: seq<int>) {
    InRange(shape, indices) && |indices| == |shape|
  }

  // A prefix of indices filled up with zeros.
  function Padded(indices: seq<int>, n: nat): (r: seq<int>)
    requires |indices| <= n
    ensures |r| == n
  {
    indices + seq(n - |indices|, _ => 0)
  }

  // The axis that an index names, counted from the end when negative.
  function Canonical(n: int, index: int): Checked {
    if -n <= index < n then Value(if index < 0 then index + n else index) else Died
  }

  // A shape of up to four axes filled up with ones, behind it or in front of it.
  function FourDims(shape: seq<int>): (r: seq<int>)
    requires |shape| <= 4
    ensures |r| == 4 && r[..|shape|] == shape && forall i :: |shape| <= i < 4 ==> r[i] == 1
    ensures forall i :: 0 <= i < 4 ==> r[i] == Dim(shape, i)
  {
    shape + seq(4 - |shape|, _ => 1)
  }

  function FourDimsInFront(shape: seq<int>): (r: seq<int>)
    requires |shape| <= 4
    ensures |r| == 4 && r[4 - |shape|..] == shape && forall i :: 0 <= i < 4 - |shape| ==> r[i] == 1
  {
    seq(4 - |shape|, _ => 1) + shape
  }

  class Blob {
    var shape: seq<int>

    constructor (dims: seq<int>)
      ensures shape == dims
    {
      shape := dims;
    }

    method CanonicalAxisIndex(axisIndex: int) returns (r: Checked)
      ensures r == Canonical(|shape|, axisIndex)
      ensures r == Died <==> !(-|shape| <= axisIndex < |shape|)
      ensures r.Value? ==> 0 <= r.value < |shape| && (r.value - axisIndex) % |shape| == 0
    {
      if !(axisIndex >= -|shape|) { return Died; }
      if !(axisIndex < |shape|) { return Died; }
      if axisIndex < 0 {
        assert (|shape|) % |shape| == 0;
        return Value(axisIndex + |shape|);
      }
      r := Value(axisIndex);
    }

    // shape(index)
    method Shape(index: int) returns (r: Checked)
      ensures r == match Canonical(|shape|, index) case Value(a) => Value(shape[a]) case Died => Died
      ensures r == Died <==> !(-|shape| <= index < |shape|)
    {
      r := CanonicalAxisIndex(index);
      if r.Value? { r := Value(shape[r.value]); }
    }

    method Count(startAxis: int, endAxis: int) returns (r: Checked)
      ensures r == if 0 <= startAxis <= endAxis <= |shape| then Value(Volume(shape[startAxis..endAxis])) else Died
    {
      if !(startAxis <= endAxis) { return Died; }
      if !(startAxis >= 0) { return Died; }
      if !(endAxis >= 0) { return Died; }
      if !(startAxis <= |shape|) { return Died; }
      if !(endAxis <= |shape|) { return Died; }
      var count := 1;
      var i := startAxis;
      while i < endAxis
        invariant startAxis <= i <= endAxis
        invariant count == Volume(shape[startAxis..][..i - startAxis])
      {
        var dim := Shape(i);
        VolumeSnoc(shape[startAxis..][..i - startAxis], shape[i]);
        TakeOneMore(shape[startAxis..], i - startAxis);
        count := count * dim.value;
        i := i + 1;
      }
      assert shape[startAxis..][..i - startAxis] == shape[startAxis..endAxis];
      r := Value(count);
    }

    // The legacy axes counted from the front are those of the shape with ones behind it; counted from
    // the end, with ones in front of it.
    method LegacyShape(index: int) returns (r: Checked)
      ensures r == Died <==> |shape| > 4 || !(-4 <= index < 4)
      ensures r != Died && index >= 0 ==> r == Value(FourDims(shape)[index])
      ensures r != Died && index < 0 ==> r == Value(FourDimsInFront(shape)[index + 4])
    {
      if !(|shape| <= 4) { return Died; }
      if !(index < 4) { return Died; }
      if !(index >= -4) { return Died; }
      if index >= |shape| || index < -|shape| {
        return Value(1);
      }
      r := Shape(index);
    }

    // offset(indices): dies on a bad index, else the offset of the indices filled up with zeros.
    method Offset(indices: seq<int>) returns (r: Checked)
      ensures r == if InRange(shape, indices) then Value(RowMajor(shape, Padded(indices, |shape|))) else Died
      ensures r != Died <==>
              |indices| <= |shape| && forall i :: 0 <= i < |indices| ==> 0 <= indices[i] < shape[i]
    {
      if !(|indices| <= |shape|) { return Died; }
      var offset := 0;
      var i := 0;
      ghost var full := Padded(indices, |shape|);
      while i < |shape|
        invariant 0 <= i <= |shape|
        invariant InRange(shape, indices[..if i < |indices| then i else |indices|])
        invariant offset == RowMajor(shape[..i], full[..i])
      {
        var dim := Shape(i);
        RowMajorSnoc(shape[..i], shape[i], full[..i], full[i]);
        TakeOneMore(shape, i);
        TakeOneMore(full, i);
        offset := offset * dim.value;
        if |indices| > i {
          if !(indices[i] >= 0) { return Died; }
          if !(indices[i] < dim.value) { return Died; }
          offset := offset + indices[i];
        }
        i := i + 1;
      }
      assert indices[..|indices|] == indices && shape[..i] == shape && full[..i] == full;
      r := Value(offset);
    }

    // offset(n, c, h, w)
    method Offset4(n: int, c: int, h: int, w: int) returns (r: Checked)
      ensures r == FourOffset(shape, n, c, h, w)
      ensures r != Died <==>
              && |shape| <= 4 && 0 <= n
              && n <= FourDims(shape)[0] && c <= FourDims(shape)[1]
              && h <= FourDims(shape)[2] && w <= FourDims(shape)[3]
              && FourDims(shape)[1] >= 0 && FourDims(shape)[2] >= 0 && FourDims(shape)[3] >= 0
    {
      if !(n >= 0) { return Died; }
      var num := LegacyShape(0);
      if num.Died? || !(n <= num.value) { return Died; }
      var channels, height, width;
      channels := LegacyShape(1);
      if channels.Died? || !(channels.value >= 0) { return Died; }
      if !(c <= channels.value) { return Died; }
      height := LegacyShape(2);
      if height.Died? || !(height.value >= 0) { return Died; }
      if !(h <= height.value) { return Died; }
      width := LegacyShape(3);
      if width.Died? || !(width.value >= 0) { return Died; }
      if !(w <= width.value) { return Died; }
      r := Value(((n * channels.value + c) * height.value + h) * width.value + w);
    }
  }

  function Dim(shape: seq<int>, i: nat): int {
    if i < |shape| then shape[i] else 1
  }

  // The four-argument form checks its first argument from below only, and all of them loosely from above.
  function FourOffset(shape: seq<int>, n: int, c: int, h: int, w: int): Checked {
    if |shape| <= 4 && 0 <= n <= Dim(shape, 0)
       && 0 <= Dim(shape, 1) && c <= Dim(shape, 1)
       && 0 <= Dim(shape, 2) && h <= Dim(shape, 2)
       && 0 <= Dim(shape, 3) && w <= Dim(shape, 3)
    then Value(((n * Dim(shape, 1) + c) * Dim(shape, 2) + h) * Dim(shape, 3) + w)
    else Died
  }

  // ----- volumes and offsets of concatenated axis lists

  lemma {:induction false} TakeOneMore(s: seq<int>, i: nat)
    requires i < |s|
    ensures s[..i + 1] == s[..i] + [s[i]]
  {
  }

  lemma {:induction false} VolumeConcat(a: seq<int>, b: seq<int>)
    ensures Volume(a + b) == Volume(a) * Volume(b)
  {
    if a == [] {
      assert a + b == b;
    } else {
      assert (a + b)[1..] == a[1..] + b;
      VolumeConcat(a[1..], b);
      Associate(a[0], Volume(a[1..]), Volume(b));
    }
  }

  lemma {:induction false} VolumeSnoc(a: seq<int>, x: int)
    ensures Volume(a + [x]) == Volume(a) * x
  {
    VolumeConcat(a, [x]);
    assert [x][1..] == [];
    assert Volume([x]) == x * Volume([]) == x;
  }

  // The offset of a longer vector: the offset of its front in blocks of the volume behind.
  lemma {:induction false} RowMajorConcat(a: seq<int>, b: seq<int>, i: seq<int>, j: seq<int>)
    requires |i| == |a| && |j| == |b|
    ensures RowMajor(a + b, i + j) == RowMajor(a, i) * Volume(b) + RowMajor(b, j)
  {
    if a == [] {
      assert a + b == b && i + j == j;
    } else {
      assert (a + b)[1..] == a[1..] + b && (i + j)[1..] == i[1..] + j;
      RowMajorConcat(a[1..], b, i[1..], j);
      VolumeConcat(a[1..], b);
      StepOut(i[0], Volume(a[1..]), Volume(b), RowMajor(a[1..], i[1..]), RowMajor(b, j));
    }
  }

  lemma {:induction false} StepOut(x: int, v: int, w: int, r: int, t: int)
    ensures x * (v * w) + (r * w + t) == (x * v + r) * w + t
  {
  }

  lemma {:induction false} RowMajorSnoc(a: seq<int>, x: int, i: seq<int>, k: int)
    requires |i| == |a|
    ensures RowMajor(a + [x], i + [k]) == RowMajor(a, i) * x + k
  {
    RowMajorConcat(a, [x], i, [k]);
    assert [x][1..] == [] && [k][1..] == [];
    assert Volume([x]) == x * Volume([]) == x;
    assert RowMajor([x], [k]) == k * Volume([]) + RowMajor([], []) == k;
  }

  ghost predicate Positive(shape: seq<int>) {
    forall i :: 0 <= i < |shape| ==> shape[i] > 0
  }

  lemma {:induction false} VolumePositive(shape: seq<int>)
    requires Positive(shape)
    ensures Volume(shape) > 0
  {
    if shape != [] {
      VolumePositive(shape[1..]);
      MulPositive(shape[0], Volume(shape[1..]));
    }
  }

  lemma {:induction false} WithinBlocks(x: int, n: int, v: int, r: int)
    requires 0 <= x < n && 0 <= r < v
    ensures 0 <= x * v + r < n * v
  {
    MulMonotone(v, 0, x);
    MulMonotone(v, x + 1, n);
    Distribute(v, x, 1);
  }

  // Offsets of full in-range vectors are offsets into the blob.
  lemma {:induction false} OffsetInBounds(shape: seq<int>, indices: seq<int>)
    requires Full(shape, indices)
    ensures 0 <= RowMajor(shape, indices) < Volume(shape)
  {
    if shape != [] {
      var v := Volume(shape[1..]);
      OffsetInBounds(shape[1..], indices[1..]);
      WithinBlocks(indices[0], shape[0], v, RowMajor(shape[1..], indices[1..]));
    }
  }

  // The index vector at an offset.
  function Unravel(shape: seq<int>, offset: int): (r: seq<int>)
    requires Positive(shape)
    ensures |r| == |shape|
  {
    if shape == [] then []
    else
      (VolumePositive(shape[1..]);
       var v := Volume(shape[1..]);
       [offset / v] + Unravel(shape[1..], offset % v))
  }

  lemma {:induction false} UnravelOffset(shape: seq<int>, offset: int)
    requires Positive(shape) && 0 <= offset < Volume(shape)
    ensures Full(shape, Unravel(shape, offset)) && RowMajor(shape, Unravel(shape, offset)) == offset
  {
    if shape != [] {
      VolumePositive(shape[1..]);
      var v := Volume(shape[1..]);
      var q, rest := offset / v, Unravel(shape[1..], offset % v);
      UnravelOffset(shape[1..], offset % v);
      QuotientInRange(offset, v, shape[0]);
      assert Unravel(shape, offset) == [q] + rest && ([q] + rest)[1..] == rest;
    }
  }

  lemma {:induction false} QuotientInRange(offset: int, v: int, n: int)
    requires v > 0 && 0 <= offset < n * v
    ensures 0 <= offset / v < n && offset == offset / v * v + offset % v
  {
  }

  lemma {:induction false} OffsetUnravel(shape: seq<int>, indices: seq<int>)
    requires Positive(shape) && Full(shape, indices)
    ensures Unravel(shape, RowMajor(shape, indices)) == indices
  {
    if shape != [] {
      VolumePositive(shape[1..]);
      var v, r := Volume(shape[1..]), RowMajor(shape[1..], indices[1..]);
      OffsetInBounds(shape[1..], indices[1..]);
      OffsetUnravel(shape[1..], indices[1..]);
      DivModOf(indices[0], v, r);
      assert indices == [indices[0]] + indices[1..];
    }
  }

  lemma {:induction false} DivModOf(q: int, v: int, r: int)
    requires v > 0 && 0 <= r < v
    ensures (q * v + r) / v == q && (q * v + r) % v == r
  {
    var x := q * v + r;
    var p := x / v;
    assert x == p * v + x % v;
    Distribute(v, q - p, p);
    if p < q { MulMonotone(v, 1, q - p); }
    if p > q { MulMonotone(v, 1, p - q); Distribute(v, p - q, q); }
  }

  lemma {:induction false} VolumeNotZero(shape: seq<int>)
    requires (forall i :: 0 <= i < |shape| ==> shape[i] >= 0) && Volume(shape) != 0
    ensures Positive(shape)
  {
    if shape != [] {
      if Volume(shape[1..]) != 0 { VolumeNotZero(shape[1..]); }
    }
  }

  ghost predicate HasIndices(shape: seq<int>, offset: int) {
    exists i: seq<int> :: Full(shape, i) && RowMajor(shape, i) == offset
  }

  // On any dimensions, offset is one-to-one from the full in-range vectors onto [0, count).
  lemma {:induction false} OffsetBijection(shape: seq<int>)
    requires forall i :: 0 <= i < |shape| ==> shape[i] >= 0
    ensures forall i: seq<int> :: Full(shape, i) ==> 0 <= RowMajor(shape, i) < Volume(shape)
    ensures forall i: seq<int>, j: seq<int> ::
              Full(shape, i) && Full(shape, j) && RowMajor(shape, i) == RowMajor(shape, j) ==> i == j
    ensures forall k :: 0 <= k < Volume(shape) ==> HasIndices(shape, k)
  {
    forall i: seq<int> | Full(shape, i)
      ensures 0 <= RowMajor(shape, i) < Volume(shape)
      ensures Positive(shape) && Unravel(shape, RowMajor(shape, i)) == i
    {
      OffsetInBounds(shape, i);
      OffsetUnravel(shape, i);
    }
    forall k | 0 <= k < Volume(shape)
      ensures HasIndices(shape, k)
    {
      VolumeNotZero(shape);
      UnravelOffset(shape, k);
    }
  }

  lemma {:induction false} ZeroOffset(shape: seq<int>)
    ensures RowMajor(shape, Padded([], |shape|)) == 0
  {
    if shape != [] {
      assert Padded([], |shape|)[1..] == Padded([], |shape| - 1);
      ZeroOffset(shape[1..]);
    }
  }

  // A prefix of k indices names a contiguous block of count(k) offsets: those of its extensions.
  lemma {:induction false} PrefixBlock(shape: seq<int>, prefix: seq<int>, rest: seq<int>)
    requires Full(shape, prefix + rest)
    ensures var start := RowMajor(shape, Padded(prefix, |shape|));
            var behind := shape[|prefix|..];
            RowMajor(shape, prefix + rest) == start + RowMajor(behind, rest)
            && start <= RowMajor(shape, prefix + rest) < start + Volume(behind)
  {
    var k := |prefix|;
    var front, behind := shape[..k], shape[k..];
    assert shape == front + behind;
    RowMajorConcat(front, behind, prefix, rest);
    RowMajorConcat(front, behind, prefix, Padded([], |behind|));
    assert Padded(prefix, |shape|) == prefix + Padded([], |behind|);
    ZeroOffset(behind);
    forall i | 0 <= i < |rest| ensures 0 <= rest[i] < behind[i] {
      assert (prefix + rest)[k + i] == rest[i];
    }
    OffsetInBounds(behind, rest);
  }

  ghost predicate HasExtension(shape: seq<int>, prefix: seq<int>, offset: int) {
    exists rest: seq<int> :: Full(shape, prefix + rest) && RowMajor(shape, prefix + rest) == offset
  }

  // ... and they fill it.
  lemma {:induction false} PrefixBlockFilled(shape: seq<int>, prefix: seq<int>, offset: int)
    requires InRange(shape, prefix) && forall i :: |prefix| <= i < |shape| ==> shape[i] >= 0
    ensures var start := RowMajor(shape, Padded(prefix, |shape|));
            HasExtension(shape, prefix, offset)
            <==> start <= offset < start + Volume(shape[|prefix|..])
  {
    var start, behind := RowMajor(shape, Padded(prefix, |shape|)), shape[|prefix|..];
    forall rest: seq<int> | Full(shape, prefix + rest)
      ensures start <= RowMajor(shape, prefix + rest) < start + Volume(behind)
    {
      PrefixBlock(shape, prefix, rest);
    }
    if start <= offset < start + Volume(behind) {
      OffsetBijection(behind);
      assert HasIndices(behind, offset - start);
      var rest: seq<int> :| Full(behind, rest) && RowMajor(behind, rest) == offset - start;
      PrefixBlock(shape, prefix, rest);
    }
  }

  // Up to four axes the two forms agree on indices that are in range on all four.
  lemma {:induction false} FourOffsetAgrees(shape: seq<int>, n: int, c: int, h: int, w: int)
    requires |shape| <= 4 && Full(FourDims(shape), [n, c, h, w])
    ensures var indices := [n, c, h, w][..|shape|];
            InRange(shape, indices) && FourOffset(shape, n, c, h, w) == Value(RowMajor(shape, indices))
  {
    var dims, indices := FourDims(shape), [n, c, h, w];
    assert 0 <= indices[0] < dims[0] && 0 <= indices[1] < dims[1];
    assert 0 <= indices[2] < dims[2] && 0 <= indices[3] < dims[3];
    FourAxes(dims, indices);
    PaddedAxes(shape, indices);
  }

  lemma {:induction false} PaddedAxes(shape: seq<int>, indices: seq<int>)
    requires |shape| <= 4 && Full(FourDims(shape), indices)
    ensures RowMajor(FourDims(shape), indices) == RowMajor(shape, indices[..|shape|])
  {
    var k, ones := |shape|, seq(4 - |shape|, _ => 1);
    assert indices == indices[..k] + indices[k..];
    RowMajorConcat(shape, ones, indices[..k], indices[k..]);
    forall i | 0 <= i < 4 - k ensures indices[k..][i] == 0 {
      assert 0 <= indices[k + i] < FourDims(shape)[k + i];
    }
    OnesOnly(ones, indices[k..]);
  }

  // Axes of size one add nothing.
  lemma {:induction false} OnesOnly(shape: seq<int>, indices: seq<int>)
    requires |indices| == |shape|
    requires forall i :: 0 <= i < |shape| ==> shape[i] == 1 && indices[i] == 0
    ensures Volume(shape) == 1 && RowMajor(shape, indices) == 0
  {
    if shape != [] { OnesOnly(shape[1..], indices[1..]); }
  }

  lemma {:induction false} FourAxes(d: seq<int>, i: seq<int>)
    requires |d| == |i| == 4
    ensures RowMajor(d, i) == ((i[0] * d[1] + i[1]) * d[2] + i[2]) * d[3] + i[3]
  {
    assert d[..1] == [] + [d[0]] && i[..1] == [] + [i[0]];
    RowMajorSnoc([], d[0], [], i[0]);
    assert d[..2] == d[..1] + [d[1]] && i[..2] == i[..1] + [i[1]];
    RowMajorSnoc(d[..1], d[1], i[..1], i[1]);
    assert d[..3] == d[..2] + [d[2]] && i[..3] == i[..2] + [i[2]];
    RowMajorSnoc(d[..2], d[2], i[..2], i[2]);
    assert d == d[..3] + [d[3]] && i == i[..3] + [i[3]];
    RowMajorSnoc(d[..3], d[3], i[..3], i[3]);
  }

  lemma {:induction false} VolumeOfFour(d: seq<int>)
    requires |d| == 4
    ensures Volume(d) == ((d[0] * d[1]) * d[2]) * d[3]
  {
    assert d[..1] == [] + [d[0]];
    VolumeSnoc([], d[0]);
    assert d[..2] == d[..1] + [d[1]];
    VolumeSnoc(d[..1], d[1]);
    assert d[..3] == d[..2] + [d[2]];
    VolumeSnoc(d[..2], d[2]);
    assert d == d[..3] + [d[3]];
    VolumeSnoc(d[..3], d[3]);
  }

  lemma {:induction false} FourVolume(shape: seq<int>)
    requires |shape| <= 4
    ensures Volume(FourDims(shape)) == Volume(shape)
         == ((Dim(shape, 0) * Dim(shape, 1)) * Dim(shape, 2)) * Dim(shape, 3)
  {
    var ones := seq(4 - |shape|, _ => 1);
    VolumeConcat(shape, ones);
    OnesOnly(ones, seq(4 - |shape|, _ => 0));
    VolumeOfFour(FourDims(shape));
  }

  // Its upper checks let one past the last index through: the offset of that on the first axis is the
  // count itself.
  lemma {:induction false} FourOffsetTakesTheCount(shape: seq<int>)
    requires |shape| <= 4 && Positive(shape)
    ensures FourOffset(shape, Dim(shape, 0), 0, 0, 0) == Value(Volume(shape))
  {
    FourVolume(shape);
  }

  // Three of its indices have no lower check, so that any negative channel gives a negative offset.
  lemma {:induction false} FourOffsetGoesNegative(shape: seq<int>, c: int)
    requires |shape| <= 4 && Positive(shape) && c < 0
    ensures var r := FourOffset(shape, 0, c, 0, 0);
            r.Value? && r.value < 0
  {
    MulPositive(-c, Dim(shape, 2));
    MulPositive(-c * Dim(shape, 2), Dim(shape, 3));
    assert c * Dim(shape, 2) == -(-c * Dim(shape, 2));
    assert (c * Dim(shape, 2)) * Dim(shape, 3) == -((-c * Dim(shape, 2)) * Dim(shape, 3));
  }

  // The call is accepted and its offset is that of the element with the given indices.
  ghost predicate AddressesElement(shape: seq<int>, n: int, c: int, h: int, w: int)
    requires |shape| <= 4 && Positive(FourDims(shape))
  {
    var r := FourOffset(shape, n, c, h, w);
    r.Value? && 0 <= r.value < Volume(shape) && Unravel(FourDims(shape), r.value) == [n, c, h, w]
  }

  // That is so exactly when all four indices are in range.
  lemma {:induction false} FourOffsetAddresses(shape: seq<int>, n: int, c: int, h: int, w: int)
    requires |shape| <= 4 && Positive(FourDims(shape))
    ensures AddressesElement(shape, n, c, h, w) <==> Full(FourDims(shape), [n, c, h, w])
  {
    var dims := FourDims(shape);
    FourVolume(shape);
    if Full(dims, [n, c, h, w]) {
      FourOffsetAgrees(shape, n, c, h, w);
      PaddedAxes(shape, [n, c, h, w]);
      OffsetInBounds(dims, [n, c, h, w]);
      OffsetUnravel(dims, [n, c, h, w]);
    } else {
      var r := FourOffset(shape, n, c, h, w);
      if r.Value? && 0 <= r.value < Volume(shape) { UnravelOffset(dims, r.value); }
    }
  }
}
