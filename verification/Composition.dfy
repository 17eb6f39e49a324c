/** What a composed datatype means: packing the section through it is packing a contiguous copy of the
    section through the user's datatype.  And when the code as written gets there. */
module Composition {
  import opened CInt
  import opened Section
  import opened Layout
  import opened Typemaps
  import opened MpiState
  import opened MpiLibrary
  import opened CfiUtil
  import opened Indexed

  /** The two address lists can be read and hold the same data. */
  predicate SameData(mem: Memory, addresses: seq<int>, copy: Memory, copyAddresses: seq<int>) {
    Readable(mem, addresses) && Readable(copy, copyAddresses) && Load(mem, addresses) == Load(copy, copyAddresses)
  }

  /** `copy` holds the elements of the section one after the other from address `at` on. */
  predicate IsCopyOf(mem: Memory, base: int, dims: seq<Dim>, elemLen: nat, copy: Memory, at: int) {
    forall m :: 0 <= m < Product(dims) ==> ElementCopied(mem, base, dims, elemLen, copy, at, m)
  }

  predicate ElementCopied(mem: Memory, base: int, dims: seq<Dim>, elemLen: nat, copy: Memory, at: int, m: int) {
    SameData(mem, Range(base + Disp(dims, m), elemLen), copy, Range(at + m * elemLen, elemLen))
  }

  predicate Aligned(iov: Typemap, elemLen: int)
    requires elemLen > 0
  {
    forall i :: 0 <= i < |iov| ==> iov[i].disp % elemLen == 0 && iov[i].size % elemLen == 0
  }

  lemma SameDataConcat(mem: Memory, a: seq<int>, b: seq<int>, copy: Memory, c: seq<int>, d: seq<int>)
    requires SameData(mem, a, copy, c) && SameData(mem, b, copy, d)
    ensures SameData(mem, a + b, copy, c + d)
  {
    assert |Load(mem, a)| == |Load(copy, c)| && |Load(mem, b)| == |Load(copy, d)|;
    forall k | 0 <= k < |a + b| ensures (a + b)[k] in mem && (c + d)[k] in copy && mem[(a + b)[k]] == copy[(c + d)[k]] {
      if k < |a| {
        assert Load(mem, a)[k] == Load(copy, c)[k];
      } else {
        assert Load(mem, b)[k - |a|] == Load(copy, d)[k - |a|];
      }
    }
  }

  lemma SameDataEmpty(mem: Memory, copy: Memory)
    ensures SameData(mem, [], copy, [])
  {
  }

  lemma RangeSplit(from: int, a: nat, b: nat)
    ensures Range(from, a + b) == Range(from, a) + Range(from + a, b)
  {
  }

  lemma AddressesOfOne(disp: int, size: nat, base: int)
    ensures Addresses([Entry(disp, size)], base) == Range(base + disp, size)
  {
    assert [Entry(disp, size)][..0] == [];
    assert Addresses([], base) == [];
  }

  /** Where the copy holds elements `first` to `first + n - 1`. */
  function CopyRange(at: int, elemLen: nat, first: int, n: nat): seq<int> {
    if n == 0 then [] else CopyRange(at, elemLen, first, n - 1) + Range(at + (first + n - 1) * elemLen, elemLen)
  }

  lemma {:induction false} CopyRangeIsRange(at: int, elemLen: nat, first: int, n: nat)
    ensures CopyRange(at, elemLen, first, n) == Range(at + first * elemLen, n * elemLen)
  {
    if n > 0 {
      CopyRangeIsRange(at, elemLen, first, n - 1);
      var from, len := at + first * elemLen, (n - 1) * elemLen;
      assert len + elemLen == n * elemLen;
      assert from + len == at + (first + n - 1) * elemLen;
      RangeSplit(from, len, elemLen);
    }
  }

  /** One segment: n consecutive elements of the section are n consecutive elements of the copy. */
  lemma {:induction false} SegmentMeaning(mem: Memory, base: int, dims: seq<Dim>, elemLen: nat, copy: Memory, at: int,
                                          first: int, n: nat)
    requires elemLen > 0 && IsCopyOf(mem, base, dims, elemLen, copy, at)
    requires SegmentInside(first, n, Product(dims))
    ensures SameData(mem, Addresses(SegmentElements(dims, elemLen, first, n), base),
                     copy, CopyRange(at, elemLen, first, n))
  {
    hide Product, Disp, SameData;
    SameDataEmpty(mem, copy);
    if n > 0 {
      var m := first + n - 1;
      var before, last := SegmentElements(dims, elemLen, first, n - 1), [Entry(Disp(dims, m), elemLen)];
      SegmentMeaning(mem, base, dims, elemLen, copy, at, first, n - 1);
      assert SegmentElements(dims, elemLen, first, n) == before + last;
      AddressesConcat(before, last, base);
      AddressesOfOne(Disp(dims, m), elemLen, base);
      var here, there := Range(base + Disp(dims, m), elemLen), Range(at + m * elemLen, elemLen);
      assert ElementCopied(mem, base, dims, elemLen, copy, at, m);
      SameDataConcat(mem, Addresses(before, base), here, copy, CopyRange(at, elemLen, first, n - 1), there);
    }
  }

  lemma WholeExact(bytes: nat, elemLen: nat)
    requires elemLen > 0 && bytes % elemLen == 0
    ensures Whole(bytes, elemLen) * elemLen == bytes
  {
    Split(bytes, elemLen);
  }

  /** In an aligned segment, whole elements are all of its bytes. */
  lemma AlignedSegment(segment: Entry, elemLen: nat, shift: int, at: int)
    requires elemLen > 0 && segment.disp % elemLen == 0 && segment.size % elemLen == 0
    ensures CopyRange(at, elemLen, TruncDiv(segment.disp, elemLen) + shift, Whole(segment.size, elemLen))
         == Range(at + (segment.disp + shift * elemLen), segment.size)
  {
    hide *;
    TruncDivExact(segment.disp, elemLen);
    WholeExact(segment.size, elemLen);
    Distribute(TruncDiv(segment.disp, elemLen), shift, elemLen);
    CopyRangeIsRange(at, elemLen, TruncDiv(segment.disp, elemLen) + shift, Whole(segment.size, elemLen));
  }

  lemma CopyElementsLast(dims: seq<Dim>, elemLen: int, size: nat, iov: Typemap, shift: int)
    requires elemLen > 0
    ensures |iov| == 0 ==> CopyElements(dims, elemLen, size, iov, shift) == []
    ensures |iov| > 0 ==>
              var n := |iov| - 1;
              CopyElements(dims, elemLen, size, iov, shift)
              == CopyElements(dims, elemLen, size, iov[..n], shift)
                 + SegmentElements(dims, size, TruncDiv(iov[n].disp, elemLen) + shift, Whole(iov[n].size, elemLen))
  {
    hide TruncDiv, Whole, SegmentElements;
  }

  lemma ShiftedLast(iov: Typemap, delta: int, at: int)
    ensures |iov| == 0 ==> Addresses(Shift(iov, delta), at) == []
    ensures |iov| > 0 ==>
              var n := |iov| - 1;
              Addresses(Shift(iov, delta), at)
              == Addresses(Shift(iov[..n], delta), at) + Range(at + (iov[n].disp + delta), iov[n].size)
  {
    if |iov| > 0 {
      var n, copied := |iov| - 1, Shift(iov, delta);
      assert copied[..n] == Shift(iov[..n], delta) && copied[n] == Entry(iov[n].disp + delta, iov[n].size);
    }
  }

  lemma NoAddresses(base: int)
    ensures Addresses([], base) == []
  {
  }

  lemma AlignedParts(iov: Typemap, elemLen: nat, shift: int, total: int)
    requires elemLen > 0 && |iov| > 0 && Aligned(iov, elemLen) && ShiftInside(elemLen, iov, shift, total)
    ensures var n := |iov| - 1;
            && Aligned(iov[..n], elemLen) && ShiftInside(elemLen, iov[..n], shift, total)
            && iov[n].disp % elemLen == 0 && iov[n].size % elemLen == 0
            && SegmentInside(TruncDiv(iov[n].disp, elemLen) + shift, Whole(iov[n].size, elemLen), total)
  {
    hide SegmentInside, TruncDiv, Whole;
  }

  lemma {:induction false} CopyMeaning(mem: Memory, base: int, dims: seq<Dim>, elemLen: nat, copy: Memory, at: int,
                                       iov: Typemap, shift: int)
    requires elemLen > 0 && IsCopyOf(mem, base, dims, elemLen, copy, at)
    requires Aligned(iov, elemLen) && ShiftInside(elemLen, iov, shift, Product(dims))
    ensures SameData(mem, Addresses(CopyElements(dims, elemLen, elemLen, iov, shift), base),
                     copy, Addresses(Shift(iov, shift * elemLen), at))
  {
    hide *;
    var delta := shift * elemLen;
    CopyElementsLast(dims, elemLen, elemLen, iov, shift);
    ShiftedLast(iov, delta, at);
    NoAddresses(base);
    SameDataEmpty(mem, copy);
    if |iov| > 0 {
      var n := |iov| - 1;
      AlignedParts(iov, elemLen, shift, Product(dims));
      var first, len := TruncDiv(iov[n].disp, elemLen) + shift, Whole(iov[n].size, elemLen);
      CopyMeaning(mem, base, dims, elemLen, copy, at, iov[..n], shift);
      SegmentMeaning(mem, base, dims, elemLen, copy, at, first, len);
      AlignedSegment(iov[n], elemLen, shift, at);
      var before := CopyElements(dims, elemLen, elemLen, iov[..n], shift);
      var segment := SegmentElements(dims, elemLen, first, len);
      AddressesConcat(before, segment, base);
      SameDataConcat(mem, Addresses(before, base), Addresses(segment, base),
                     copy, Addresses(Shift(iov[..n], delta), at), Range(at + (iov[n].disp + delta), iov[n].size));
    }
  }

  /** Composition preserves meaning, once the step between copies is counted in elements. */
  lemma {:induction false} ComposeMeaning(mem: Memory, base: int, dims: seq<Dim>, elemLen: nat, copy: Memory, at: int,
                                          iov: Typemap, count: nat, step: int)
    requires elemLen > 0 && IsCopyOf(mem, base, dims, elemLen, copy, at)
    requires Aligned(iov, elemLen) && Inside(elemLen, iov, count, step, Product(dims))
    ensures SameData(mem, Addresses(Compose(dims, elemLen, elemLen, iov, count, step), base),
                     copy, Addresses(Block(count, iov, step * elemLen, 0), at))
  {
    hide Product, Disp, CopyElements, SameData;
    SameDataEmpty(mem, copy);
    if count > 0 {
      var j := count - 1;
      ComposeMeaning(mem, base, dims, elemLen, copy, at, iov, j, step);
      assert CopyInside(elemLen, iov, j, step, Product(dims));
      CopyMeaning(mem, base, dims, elemLen, copy, at, iov, j * step);
      MulAssoc(j, step, elemLen);
      var before := Compose(dims, elemLen, elemLen, iov, j, step);
      var last := CopyElements(dims, elemLen, elemLen, iov, j * step);
      AddressesConcat(before, last, base);
      AddressesConcat(Block(j, iov, step * elemLen, 0), Shift(iov, j * (step * elemLen)), at);
      SameDataConcat(mem, Addresses(before, base), Addresses(last, base),
                     copy, Addresses(Block(j, iov, step * elemLen, 0), at),
                     Addresses(Shift(iov, j * (step * elemLen)), at));
    }
  }

  // ---------------------------------------------------------------------------------------------
  // Segments and entries describe the same bytes
  // ---------------------------------------------------------------------------------------------

  lemma {:induction false} AddressesShift(t: Typemap, delta: int, base: int)
    ensures Addresses(Shift(t, delta), base) == Addresses(t, base + delta)
  {
    if |t| > 0 {
      var n := |t| - 1;
      assert Shift(t, delta)[..n] == Shift(t[..n], delta);
      AddressesShift(t[..n], delta, base);
    }
  }

  lemma {:induction false} AddressesFrom(t: Typemap, base: int)
    ensures |Addresses(t, base)| == |Addresses(t, 0)|
    ensures forall k :: 0 <= k < |Addresses(t, base)| ==> Addresses(t, base)[k] == Addresses(t, 0)[k] + base
  {
    if |t| > 0 {
      AddressesFrom(t[..|t| - 1], base);
    }
  }

  lemma SameBytesAnywhere(s: Typemap, t: Typemap, base: int)
    requires Addresses(s, 0) == Addresses(t, 0)
    ensures Addresses(s, base) == Addresses(t, base)
  {
    AddressesFrom(s, base);
    AddressesFrom(t, base);
  }

  lemma BlockLast(n: nat, t: Typemap, extent: int)
    ensures Block(0, t, extent, 0) == []
    ensures n > 0 ==> Block(n, t, extent, 0) == Block(n - 1, t, extent, 0) + Shift(t, (n - 1) * extent)
  {
    hide Shift;
    assert 0 + (n - 1) * extent == (n - 1) * extent;
  }

  lemma {:induction false} BlockOfSameBytes(s: Typemap, t: Typemap, n: nat, extent: int, base: int)
    requires Addresses(s, 0) == Addresses(t, 0)
    ensures Addresses(Block(n, s, extent, 0), base) == Addresses(Block(n, t, extent, 0), base)
  {
    hide *;
    BlockLast(n, s, extent);
    BlockLast(n, t, extent);
    if n > 0 {
      var delta := (n - 1) * extent;
      BlockOfSameBytes(s, t, n - 1, extent, base);
      AddressesConcat(Block(n - 1, s, extent, 0), Shift(s, delta), base);
      AddressesConcat(Block(n - 1, t, extent, 0), Shift(t, delta), base);
      AddressesShift(s, delta, base);
      AddressesShift(t, delta, base);
      SameBytesAnywhere(s, t, base + delta);
    }
  }

  lemma {:induction false} BlockLength(n: nat, t: Typemap, extent: int, base: int)
    ensures |Addresses(Block(n, t, extent, 0), base)| == n * |Addresses(t, 0)|
  {
    hide *;
    BlockLast(n, t, extent);
    NoAddresses(base);
    if n > 0 {
      var delta := (n - 1) * extent;
      BlockLength(n - 1, t, extent, base);
      AddressesConcat(Block(n - 1, t, extent, 0), Shift(t, delta), base);
      AddressesShift(t, delta, base);
      AddressesFrom(t, base + delta);
      NextMultiple(|Addresses(t, 0)|, n - 1);
    }
  }

  /** Whole elements in aligned segments are all of the bytes. */
  lemma {:induction false} AlignedBytes(iov: Typemap, elemLen: nat)
    requires elemLen > 0 && Aligned(iov, elemLen)
    ensures ElementCount(iov, elemLen) * elemLen == |Addresses(iov, 0)|
  {
    if |iov| > 0 {
      var n := |iov| - 1;
      AlignedBytes(iov[..n], elemLen);
      WholeExact(iov[n].size, elemLen);
      hide Whole;
      Distribute(ElementCount(iov[..n], elemLen), Whole(iov[n].size, elemLen), elemLen);
    }
  }

  // ---------------------------------------------------------------------------------------------
  // The code as written
  // ---------------------------------------------------------------------------------------------

  /** The number, within the contiguous array, of the last element that one copy selects. */
  function LastElement(iov: Typemap, elemLen: int): int
    requires elemLen > 0 && ElementCount(iov, elemLen) > 0
  {
    var last := iov[|iov| - 1];
    if Whole(last.size, elemLen) > 0 then TruncDiv(last.disp, elemLen) + Whole(last.size, elemLen) - 1
    else LastElement(iov[..|iov| - 1], elemLen)
  }

  lemma {:induction false} LastOfCopy(dims: seq<Dim>, elemLen: int, size: nat, iov: Typemap, shift: int, total: int)
    requires elemLen > 0 && ElementCount(iov, elemLen) > 0 && ShiftInside(elemLen, iov, shift, total)
    ensures 0 <= LastElement(iov, elemLen) + shift < total
    ensures CopyElements(dims, elemLen, size, iov, shift)[ElementCount(iov, elemLen) - 1]
         == Entry(Disp(dims, LastElement(iov, elemLen) + shift), size)
  {
    var n := |iov| - 1;
    assert SegmentInside(TruncDiv(iov[n].disp, elemLen) + shift, Whole(iov[n].size, elemLen), total);
    if Whole(iov[n].size, elemLen) == 0 {
      LastOfCopy(dims, elemLen, size, iov[..n], shift, total);
    }
  }

  lemma {:induction false} EqualSecondCopies(dims: seq<Dim>, elemLen: int, size: nat, iov: Typemap,
                                             count: nat, s: int, t: int)
    requires elemLen > 0 && count >= 2
    requires Compose(dims, elemLen, size, iov, count, s) == Compose(dims, elemLen, size, iov, count, t)
    ensures CopyElements(dims, elemLen, size, iov, s) == CopyElements(dims, elemLen, size, iov, t)
  {
    var a, b := Compose(dims, elemLen, size, iov, count - 1, s), Compose(dims, elemLen, size, iov, count - 1, t);
    var c := CopyElements(dims, elemLen, size, iov, (count - 1) * s);
    var d := CopyElements(dims, elemLen, size, iov, (count - 1) * t);
    assert |a| == |b|;
    assert a == (a + c)[..|a|] && c == (a + c)[|a|..];
    assert b == (b + d)[..|a|] && d == (b + d)[|a|..];
    if count > 2 {
      EqualSecondCopies(dims, elemLen, size, iov, count - 1, s, t);
    }
  }

  /** No two elements of the section are at the same place. */
  predicate Separate(dims: seq<Dim>) {
    forall m, n :: 0 <= m < Product(dims) && 0 <= n < Product(dims) && m != n ==> Disp(dims, m) != Disp(dims, n)
  }

  lemma SpacedIsSeparate(dims: seq<Dim>, unit: nat)
    requires NonNegative(dims) && 0 < unit && Spaced(dims, unit)
    ensures Separate(dims)
  {
    ProductSign(dims);
    forall m, n | 0 <= m < Product(dims) && 0 <= n < Product(dims) && m != n ensures Disp(dims, m) != Disp(dims, n) {
      DispSpacing(dims, unit, m, n);
    }
  }

  /** The step as written is the extent in bytes, where elements are counted.  When every copy lies in the
      section at the right step, and the section repeats no element, the code as written stays in the section
      and selects the right elements exactly for at most one copy, for elements of one byte (or an extent of
      0), and for datatypes that select nothing. */
  lemma ByteStepIsRight(dims: seq<Dim>, elemLen: nat, iov: Typemap, count: nat, extent: int)
    requires elemLen > 0 && extent % elemLen == 0 && Separate(dims)
    requires Inside(elemLen, iov, count, extent / elemLen, Product(dims))
    ensures Inside(elemLen, iov, count, extent, Product(dims))
            && Compose(dims, elemLen, elemLen, iov, count, extent)
            == Compose(dims, elemLen, elemLen, iov, count, extent / elemLen)
       <==> count <= 1 || elemLen == 1 || extent == 0 || ElementCount(iov, elemLen) == 0
  {
    hide Compose, CopyElements, Product, Disp, Separate, ShiftInside;
    var right := extent / elemLen;
    if count <= 1 || elemLen == 1 || extent == 0 || ElementCount(iov, elemLen) == 0 {
      SameSteps(dims, elemLen, iov, count, extent);
      InsideAtBoth(elemLen, iov, count, extent, Product(dims));
    } else if Inside(elemLen, iov, count, extent, Product(dims)) {
      assert CopyInside(elemLen, iov, 1, extent, Product(dims)) && CopyInside(elemLen, iov, 1, right, Product(dims));
      StepsDiffer(extent, elemLen);
      CopiesDiffer(dims, elemLen, iov, extent, right);
      if Compose(dims, elemLen, elemLen, iov, count, extent) == Compose(dims, elemLen, elemLen, iov, count, right) {
        EqualSecondCopies(dims, elemLen, elemLen, iov, count, extent, right);
      }
    }
  }

  lemma NoElements(iov: Typemap, elemLen: int, shift: int, total: int)
    requires elemLen > 0 && ElementCount(iov, elemLen) == 0
    ensures ShiftInside(elemLen, iov, shift, total)
  {
    hide Whole, TruncDiv;
    forall i | 0 <= i < |iov| ensures Whole(iov[i].size, elemLen) == 0 {
      ElementCountStep(iov, elemLen, i);
      ElementCountPrefix(iov, elemLen, i + 1);
    }
  }

  lemma InsideAtBoth(elemLen: nat, iov: Typemap, count: nat, extent: int, total: int)
    requires elemLen > 0 && Inside(elemLen, iov, count, extent / elemLen, total)
    requires count <= 1 || elemLen == 1 || extent == 0 || ElementCount(iov, elemLen) == 0
    ensures Inside(elemLen, iov, count, extent, total)
  {
    hide ShiftInside, ElementCount;
    forall copy | 0 <= copy < count ensures CopyInside(elemLen, iov, copy, extent, total) {
      assert CopyInside(elemLen, iov, copy, extent / elemLen, total);
      if count <= 1 {
        assert copy * extent == copy * (extent / elemLen) == 0;
      } else if elemLen == 1 || extent == 0 {
        assert extent == extent / elemLen;
      } else {
        NoElements(iov, elemLen, copy * extent, total);
      }
    }
  }

  lemma CopiesDiffer(dims: seq<Dim>, elemLen: nat, iov: Typemap, s: int, t: int)
    requires elemLen > 0 && Separate(dims) && ElementCount(iov, elemLen) > 0 && s != t
    requires ShiftInside(elemLen, iov, s, Product(dims)) && ShiftInside(elemLen, iov, t, Product(dims))
    ensures CopyElements(dims, elemLen, elemLen, iov, s) != CopyElements(dims, elemLen, elemLen, iov, t)
  {
    hide CopyElements, Product, Disp;
    LastOfCopy(dims, elemLen, elemLen, iov, s, Product(dims));
    LastOfCopy(dims, elemLen, elemLen, iov, t, Product(dims));
    var last := LastElement(iov, elemLen);
    assert Disp(dims, last + s) != Disp(dims, last + t);
  }

  lemma StepsDiffer(extent: int, elemLen: nat)
    requires elemLen > 1 && extent != 0 && extent % elemLen == 0
    ensures extent != extent / elemLen
  {
    var q := extent / elemLen;
    Split(extent, elemLen);
    assert (elemLen - 1) * q == elemLen * q - q;
    MulAway(elemLen - 1, q);
  }

  lemma SameSteps(dims: seq<Dim>, elemLen: nat, iov: Typemap, count: nat, extent: int)
    requires elemLen > 0
    requires count <= 1 || elemLen == 1 || extent == 0 || ElementCount(iov, elemLen) == 0
    ensures Compose(dims, elemLen, elemLen, iov, count, extent)
         == Compose(dims, elemLen, elemLen, iov, count, extent / elemLen)
  {
    if count == 1 {
      assert 0 * extent == 0 * (extent / elemLen);
    } else if elemLen == 1 || extent == 0 {
      assert extent == extent / elemLen;
    } else if ElementCount(iov, elemLen) == 0 {
      assert count * 0 == 0;
    }
  }

  /** The size of the element type replaces the section's element length. */
  predicate SizeIsRight(ctype: CfiType, elemLen: nat, iov: Typemap, count: nat)
    requires elemLen > 0
  {
    count == 0 || ElementCount(iov, elemLen) == 0 || ElementSize(ctype) == elemLen
  }

  lemma NothingSelected(dims: seq<Dim>, elemLen: nat, size: nat, iov: Typemap, count: nat, step: int)
    requires elemLen > 0 && (count == 0 || ElementCount(iov, elemLen) == 0)
    ensures Compose(dims, elemLen, size, iov, count, step) == []
  {
    assert count * 0 == 0;
  }
}
