/** source/cfi_util.c, the part for user-defined datatypes: the addresses of all elements of the section,
    and the datatype that picks from them what `count` copies of the user's datatype would pick from a
    contiguous array. */
module Indexed {
  import opened CInt
  import opened Section
  import opened Typemaps
  import opened MpiState
  import opened MpiLibrary
  import opened CfiUtil

  // ---------------------------------------------------------------------------------------------
  // The addresses of all elements
  // ---------------------------------------------------------------------------------------------

  /** An extent as a loop sees it: converted to int, and a loop to a negative bound does not run. */
  function Narrowed(extent: int): (r: nat)
    ensures 0 <= extent ==> r <= extent
    ensures 0 <= extent <= INT_MAX ==> r == extent
  {
    if Int32(extent) >= 0 then Int32(extent) else 0
  }

  /** The section as the loops see it. */
  function Narrow(dims: seq<Dim>): (r: seq<Dim>)
    ensures |r| == |dims| && NonNegative(r)
    ensures (forall d :: 0 <= d < |dims| ==> 0 <= dims[d].extent <= INT_MAX) ==> r == dims
  {
    seq(|dims|, d requires 0 <= d < |dims| =>
      Dim(Narrowed(dims[d].extent), dims[d].sm))
  }

  lemma {:induction false} NarrowProduct(dims: seq<Dim>)
    requires NonNegative(dims)
    ensures 0 <= Product(Narrow(dims)) <= Product(dims)
  {
    ProductSign(Narrow(dims));
    if |dims| > 0 {
      var tail := dims[1..];
      NarrowProduct(tail);
      assert Narrow(dims)[1..] == Narrow(tail);
      ProductMono(Narrow(dims)[0].extent, dims[0].extent, Product(Narrow(tail)), Product(tail));
    }
  }

  /** The nest never produces more addresses than there are elements. */
  lemma NarrowFits(dims: seq<Dim>)
    requires WellFormed(dims) && Product(dims) >= 0
    ensures 0 <= Product(Narrow(dims)) <= Product(dims)
  {
    if NonNegative(dims) {
      NarrowProduct(dims);
    } else {
      ProductSign(Narrow(dims));
      assert Narrow(dims)[|dims| - 1].extent == 0;
    }
  }

  /** VAPAA_CFI_GET_TOTAL_ELEMENTS: the product of the extents, in 64 bits. */
  method TotalElements(dims: seq<Dim>) returns (totalElems: int)
    ensures totalElems == Int64(Product(dims))
  {
    hide Int64;
    totalElems := 1;
    for i := 0 to |dims|
      invariant totalElems == Int64(Product(dims[..i]))
    {
      ProductPrefix(dims, i);
      Int64Product(Product(dims[..i]), dims[i].extent);
      totalElems := Int64(totalElems * dims[i].extent);
    }
    assert dims[..|dims|] == dims;
  }

  /** The outcome of listing the addresses: an array of negative length cannot be allocated, and when the
      64-bit product has wrapped around, the nest may write past the end of the array. */
  function AddressCode(dims: seq<Dim>): Code {
    if Int64(Product(dims)) < 0 then Aborted
    else if Product(Narrow(dims)) > Int64(Product(dims)) then Undefined
    else Success
  }

  /** While 64 bits hold the number of elements, only an assumed-size array is refused. */
  lemma AddressCodeInRange(dims: seq<Dim>)
    requires WellFormed(dims) && -0x8000_0000_0000_0000 <= Product(dims) < 0x8000_0000_0000_0000
    ensures AddressCode(dims) == if Product(dims) >= 0 then Success else Aborted
    ensures NonNegative(dims) ==> AddressCode(dims) == Success
  {
    hide Int64;
    if Product(dims) >= 0 { NarrowFits(dims); }
    if NonNegative(dims) { ProductSign(dims); }
  }

  /** Loops level - 1 down to 0 of the nest over all elements. */
  method NestAll(dims: seq<Dim>, level: nat, ghost q: nat, base: int, displacement: int,
                 addresses: array<int>, start: nat) returns (index: nat)
    requires NonNegative(dims) && level <= |dims|
    requires start == q * Product(dims[..level])
    requires (q + 1) * Product(dims[..level]) <= addresses.Length
    requires displacement == Disp(dims[level..], q)
    requires forall m :: 0 <= m < start && m < addresses.Length ==> addresses[m] == base + Disp(dims, m)
    modifies addresses
    ensures index == (q + 1) * Product(dims[..level])
    ensures forall m :: 0 <= m < index ==> addresses[m] == base + Disp(dims, m)
    decreases level
  {
    index := start;
    if level == 0 {
      assert dims[0..] == dims;
      addresses[index] := base + displacement;
      return index + 1;
    }
    var dim := dims[level - 1];
    ghost var inner := Product(dims[..level - 1]);
    ProductPrefix(dims, level - 1);
    ProductSign(dims[..level - 1]);
    Regroup(q, inner, dim.extent, 0);
    for i := 0 to dim.extent
      invariant index == (q * dim.extent + i) * inner
      invariant forall m :: 0 <= m < index && m < addresses.Length ==> addresses[m] == base + Disp(dims, m)
    {
      var stride := dim.sm;
      assert dims[level - 1..][1..] == dims[level..];
      DispStep(dims[level - 1..], i, q);
      assert (q * dim.extent + i + 1) * inner <= addresses.Length by {
        Regroup(q + 1, inner, dim.extent, 0);
        Regroup(q, inner, dim.extent, 0);
        MulMono(q * dim.extent + i + 1, (q + 1) * dim.extent, inner);
      }
      index := NestAll(dims, level - 1, q * dim.extent + i, base, displacement + stride * i, addresses, index);
    }
    assert (q + 1) * (inner * dim.extent) == (q * dim.extent + dim.extent) * inner by {
      Regroup(q, inner, dim.extent, dim.extent);
      Regroup(q + 1, inner, dim.extent, 0);
    }
  }

  /** VAPAA_CFI_CREATE_ELEMENT_ADDRESSES; `filled` counts the addresses. */
  method ElementAddresses(desc: Descriptor) returns (rc: Code, addresses: array<int>, filled: nat)
    requires |desc.dims| <= CFI_MAX_RANK
    ensures rc == AddressCode(desc.dims)
    ensures fresh(addresses)
    ensures rc == Success ==>
              && addresses.Length == Int64(Product(desc.dims))
              && filled == Product(Narrow(desc.dims)) <= addresses.Length
              && forall m :: 0 <= m < filled ==> addresses[m] == desc.base + Disp(Narrow(desc.dims), m)
  {
    hide Int64;
    var numElem := TotalElements(desc.dims);
    addresses, filled := new int[0], 0;
    if numElem < 0 { return Aborted, addresses, filled; }
    addresses := new int[numElem];
    var dims := Narrow(desc.dims);
    if Product(dims) > numElem { return Undefined, addresses, filled; }
    rc := Success;
    var padded := Padded(dims, CFI_MAX_RANK);
    PaddedProduct(dims, CFI_MAX_RANK);
    assert padded[..15] == padded && padded[15..] == [];
    filled := NestAll(padded, 15, 0, desc.base, 0, addresses, 0);
    ProductSign(dims);
    forall m | 0 <= m < filled ensures addresses[m] == desc.base + Disp(dims, m) {
      assert padded == dims + padded[|dims|..];
      DispAppend(dims, padded[|dims|..], m);
    }
  }

  // ---------------------------------------------------------------------------------------------
  // What the composed datatype holds
  // ---------------------------------------------------------------------------------------------

  /** Elements `first` to `first + n - 1` of the section. */
  function SegmentElements(dims: seq<Dim>, size: nat, first: int, n: nat): (t: Typemap)
    ensures |t| == n && forall k :: 0 <= k < n ==> t[k] == Entry(Disp(dims, first + k), size)
  {
    seq(n, k => Entry(Disp(dims, first + k), size))
  }

  /** Whole elements in so many bytes. */
  function Whole(bytes: nat, elemLen: int): nat
    requires elemLen > 0
  {
    bytes / elemLen
  }

  lemma WholeBounds(bytes: nat, elemLen: int)
    requires elemLen > 0
    ensures Whole(bytes, elemLen) * elemLen <= bytes < Whole(bytes, elemLen) * elemLen + elemLen
  {
    Split(bytes, elemLen);
  }

  /** Whole elements in the segments. */
  function ElementCount(iov: Typemap, elemLen: int): nat
    requires elemLen > 0
  {
    if |iov| == 0 then 0 else ElementCount(iov[..|iov| - 1], elemLen) + Whole(iov[|iov| - 1].size, elemLen)
  }

  /** The elements that one copy of the user's datatype selects, `shift` elements further on. */
  function CopyElements(dims: seq<Dim>, elemLen: int, size: nat, iov: Typemap, shift: int): (t: Typemap)
    requires elemLen > 0
    ensures |t| == ElementCount(iov, elemLen)
  {
    if |iov| == 0 then []
    else
      var last := iov[|iov| - 1];
      CopyElements(dims, elemLen, size, iov[..|iov| - 1], shift)
      + SegmentElements(dims, size, TruncDiv(last.disp, elemLen) + shift, Whole(last.size, elemLen))
  }

  /** `count` copies, each `step` elements after the one before. */
  function Compose(dims: seq<Dim>, elemLen: int, size: nat, iov: Typemap, count: int, step: int): (t: Typemap)
    requires elemLen > 0
    ensures |t| == (if count <= 0 then 0 else count * ElementCount(iov, elemLen))
  {
    if count <= 0 then []
    else Compose(dims, elemLen, size, iov, count - 1, step) + CopyElements(dims, elemLen, size, iov, (count - 1) * step)
  }

  predicate SegmentInside(first: int, n: nat, total: int) {
    n > 0 ==> 0 <= first && first + n <= total
  }

  predicate ShiftInside(elemLen: int, iov: Typemap, shift: int, total: int)
    requires elemLen > 0
  {
    forall i :: 0 <= i < |iov| ==>
      SegmentInside(TruncDiv(iov[i].disp, elemLen) + shift, Whole(iov[i].size, elemLen), total)
  }

  predicate CopyInside(elemLen: int, iov: Typemap, copy: int, step: int, total: int)
    requires elemLen > 0
  {
    ShiftInside(elemLen, iov, copy * step, total)
  }

  /** Every copy selects elements that the section has. */
  predicate Inside(elemLen: int, iov: Typemap, count: int, step: int, total: int)
    requires elemLen > 0
  {
    forall copy :: 0 <= copy < count ==> CopyInside(elemLen, iov, copy, step, total)
  }

  lemma WholeSum(a: nat, b: nat, elemLen: int)
    requires elemLen > 0
    ensures Whole(a, elemLen) + Whole(b, elemLen) <= Whole(a + b, elemLen)
  {
    QuotientSum(a, b, elemLen);
  }

  lemma {:induction false} ElementCountBound(iov: Typemap, elemLen: int)
    requires elemLen > 0
    ensures ElementCount(iov, elemLen) <= Whole(Size(iov), elemLen)
  {
    hide Whole;
    if |iov| > 0 {
      ElementCountBound(iov[..|iov| - 1], elemLen);
      WholeSum(Size(iov[..|iov| - 1]), iov[|iov| - 1].size, elemLen);
    }
  }

  lemma ElementCountStep(iov: Typemap, elemLen: int, i: nat)
    requires elemLen > 0 && i < |iov|
    ensures ElementCount(iov[..i + 1], elemLen) == ElementCount(iov[..i], elemLen) + Whole(iov[i].size, elemLen)
  {
    hide TruncDiv, Whole;
    assert iov[..i + 1][..i] == iov[..i];
  }

  lemma {:induction false} ElementCountPrefix(iov: Typemap, elemLen: int, i: nat)
    requires elemLen > 0 && i <= |iov|
    ensures ElementCount(iov[..i], elemLen) <= ElementCount(iov, elemLen)
  {
    hide Whole;
    if i == |iov| {
      assert iov[..i] == iov;
    } else {
      ElementCountPrefix(iov[..|iov| - 1], elemLen, i);
      assert iov[..|iov| - 1][..i] == iov[..i];
    }
  }

  /** No copy writes past the arrays, whose length is computed from the total number of bytes: for any
      list of segments, aligned to elements or not. */
  lemma CopyFits(iov: Typemap, elemLen: int, count: int, j: nat)
    requires elemLen > 0 && j < count
    ensures j * ElementCount(iov, elemLen) + ElementCount(iov, elemLen) <= count * (Whole(Size(iov), elemLen))
  {
    hide Whole;
    var n := ElementCount(iov, elemLen);
    ElementCountBound(iov, elemLen);
    NextMultiple(n, j);
    ProductMono(j + 1, count, n, Whole(Size(iov), elemLen));
  }

  /** The first |t| slots of the two arrays describe t. */
  ghost predicate Recorded(blocklengths: array<nat>, displacements: array<int>, t: Typemap)
    reads blocklengths, displacements
  {
    && |t| <= blocklengths.Length && |t| <= displacements.Length
    && forall x :: 0 <= x < |t| ==> blocklengths[x] == 1 && displacements[x] == t[x].disp
  }

  /** What the input of the recording loops promises: the addresses of the elements of `dims`. */
  ghost predicate Lists(input: array<int>, filled: nat, base: int, dims: seq<Dim>)
    reads input
  {
    && filled == Product(dims) <= input.Length
    && forall m :: 0 <= m < filled ==> input[m] == base + Disp(dims, m)
  }

  /** The innermost loop: the elements of one segment; not `ok` if it reads an address that is not there. */
  method RecordSegment(input: array<int>, filled: nat, ghost base: int, ghost dims: seq<Dim>, ghost size: nat,
                       first: int, n: nat, blocklengths: array<nat>, displacements: array<int>, start: nat,
                       ghost before: Typemap) returns (ok: bool, index: nat)
    requires Lists(input, filled, base, dims)
    requires input != displacements && input as object != blocklengths as object
    requires blocklengths as object != displacements as object
    requires Recorded(blocklengths, displacements, before) && start == |before|
    requires start + n <= blocklengths.Length && start + n <= displacements.Length
    modifies blocklengths, displacements
    ensures ok <==> SegmentInside(first, n, filled)
    ensures ok ==> Recorded(blocklengths, displacements, before + SegmentElements(dims, size, first, n))
    ensures ok ==> index == start + n
  {
    ok, index := true, start;
    DispZero(dims);
    for k := 0 to n
      invariant index == start + k && (k > 0 ==> 0 <= first && first + k <= filled)
      invariant Recorded(blocklengths, displacements, before + SegmentElements(dims, size, first, k))
    {
      var offset := k + first;
      if !(0 <= offset < filled) { return false, index; }
      blocklengths[index] := 1;
      displacements[index] := input[offset] - input[0];
      index := index + 1;
    }
  }

  /** The loop over the segments of one copy. */
  method RecordCopy(input: array<int>, filled: nat, ghost base: int, ghost dims: seq<Dim>, ghost size: nat,
                    elemLen: int, iov: Typemap, typeDisplacement: int,
                    blocklengths: array<nat>, displacements: array<int>, start: nat, ghost before: Typemap)
    returns (ok: bool, index: nat)
    requires elemLen > 0 && Lists(input, filled, base, dims)
    requires input != displacements && input as object != blocklengths as object
    requires blocklengths as object != displacements as object
    requires Recorded(blocklengths, displacements, before) && start == |before|
    requires start + ElementCount(iov, elemLen) <= blocklengths.Length == displacements.Length
    modifies blocklengths, displacements
    ensures ok <==> ShiftInside(elemLen, iov, typeDisplacement, filled)
    ensures ok ==> Recorded(blocklengths, displacements,
                            before + CopyElements(dims, elemLen, size, iov, typeDisplacement))
    ensures ok ==> index == start + ElementCount(iov, elemLen)
  {
    hide *;
    ok, index := true, start;
    ghost var sofar := before;
    NoCopyYet(dims, elemLen, size, iov, typeDisplacement, before);
    for i := 0 to |iov|
      invariant ok && index == |sofar| == start + ElementCount(iov[..i], elemLen)
      invariant ShiftInside(elemLen, iov[..i], typeDisplacement, filled)
      invariant sofar == before + CopyElements(dims, elemLen, size, iov[..i], typeDisplacement)
      invariant Recorded(blocklengths, displacements, sofar)
    {
      var iovDisplacement := TruncDiv(iov[i].disp, elemLen);
      var n: nat := Whole(iov[i].size, elemLen);
      ElementCountStep(iov, elemLen, i);
      ElementCountPrefix(iov, elemLen, i + 1);
      CopyElementsStep(dims, elemLen, size, iov, typeDisplacement, i);
      ShiftInsideStep(elemLen, iov, typeDisplacement, filled, i);
      RoomForSegment(blocklengths, displacements, sofar);
      ok, index := RecordSegment(input, filled, base, dims, size, iovDisplacement + typeDisplacement, n,
                                 blocklengths, displacements, index, sofar);
      if !ok { return; }
      ghost var copied := CopyElements(dims, elemLen, size, iov[..i], typeDisplacement);
      ghost var segment := SegmentElements(dims, size, iovDisplacement + typeDisplacement, n);
      assert (before + copied) + segment == before + (copied + segment);
      sofar := sofar + segment;
    }
    assert iov[..|iov|] == iov;
  }

  lemma RoomForSegment(blocklengths: array<nat>, displacements: array<int>, t: Typemap)
    requires Recorded(blocklengths, displacements, t)
    ensures |t| <= blocklengths.Length && |t| <= displacements.Length
  {
  }

  lemma NoCopyYet(dims: seq<Dim>, elemLen: int, size: nat, iov: Typemap, shift: int, before: Typemap)
    requires elemLen > 0
    ensures iov[..0] == [] && ElementCount(iov[..0], elemLen) == 0
    ensures before + CopyElements(dims, elemLen, size, iov[..0], shift) == before
    ensures forall total :: ShiftInside(elemLen, iov[..0], shift, total)
  {
    assert CopyElements(dims, elemLen, size, iov[..0], shift) == [];
  }

  lemma ShiftInsideStep(elemLen: int, iov: Typemap, shift: int, total: int, i: nat)
    requires elemLen > 0 && i < |iov|
    ensures ShiftInside(elemLen, iov[..i + 1], shift, total) <==>
              && ShiftInside(elemLen, iov[..i], shift, total)
              && SegmentInside(TruncDiv(iov[i].disp, elemLen) + shift, Whole(iov[i].size, elemLen), total)
    ensures ShiftInside(elemLen, iov, shift, total) ==>
              SegmentInside(TruncDiv(iov[i].disp, elemLen) + shift, Whole(iov[i].size, elemLen), total)
  {
    hide TruncDiv, Whole, SegmentInside;
    assert iov[..i + 1][i] == iov[i];
    assert forall k :: 0 <= k < i ==> iov[..i + 1][k] == iov[..i][k];
  }

  lemma CopyElementsStep(dims: seq<Dim>, elemLen: int, size: nat, iov: Typemap, shift: int, i: nat)
    requires elemLen > 0 && i < |iov|
    ensures CopyElements(dims, elemLen, size, iov[..i + 1], shift)
         == CopyElements(dims, elemLen, size, iov[..i], shift)
            + SegmentElements(dims, size, TruncDiv(iov[i].disp, elemLen) + shift, Whole(iov[i].size, elemLen))
  {
    hide TruncDiv, Whole;
    assert iov[..i + 1][..i] == iov[..i];
  }

  /** The loop over the copies. */
  method RecordCopies(input: array<int>, filled: nat, ghost base: int, ghost dims: seq<Dim>, ghost size: nat,
                      elemLen: int, iov: Typemap, count: int, extent: int,
                      blocklengths: array<nat>, displacements: array<int>) returns (ok: bool, index: nat)
    requires elemLen > 0 && Lists(input, filled, base, dims)
    requires input != displacements && input as object != blocklengths as object
    requires blocklengths as object != displacements as object
    requires blocklengths.Length == displacements.Length == count * (Whole(Size(iov), elemLen))
    modifies blocklengths, displacements
    ensures ok <==> Inside(elemLen, iov, count, extent, filled)
    ensures ok ==> Recorded(blocklengths, displacements, Compose(dims, elemLen, size, iov, count, extent))
    ensures ok ==> index == |Compose(dims, elemLen, size, iov, count, extent)|
  {
    hide Whole, CopyElements, Lists, ShiftInside;
    ghost var sofar := [];
    ok, index := true, 0;
    var j := 0;
    while j < count
      invariant 0 <= j && (count >= 0 ==> j <= count) && (count < 0 ==> j == 0) && ok
      invariant forall copy :: 0 <= copy < j ==> CopyInside(elemLen, iov, copy, extent, filled)
      invariant Lists(input, filled, base, dims)
      invariant sofar == Compose(dims, elemLen, size, iov, j, extent) && index == |sofar|
      invariant Recorded(blocklengths, displacements, sofar)
    {
      CopyFits(iov, elemLen, count, j);
      ok, index := RecordCopy(input, filled, base, dims, size, elemLen, iov, j * extent,
                              blocklengths, displacements, index, sofar);
      assert ok == CopyInside(elemLen, iov, j, extent, filled);
      if !ok { return; }
      j := j + 1;
      sofar := Compose(dims, elemLen, size, iov, j, extent);
    }
    assert sofar == Compose(dims, elemLen, size, iov, count, extent);
  }

  /** The outcome of the allocations and the loops. */
  function RecordCode(dims: seq<Dim>, elemLen: int, iov: Typemap, count: int, extent: int): Code
    requires elemLen > 0
  {
    if count < 0 && Whole(Size(iov), elemLen) > 0 then Aborted
    else if AddressCode(dims) != Success then AddressCode(dims)
    else if !Inside(elemLen, iov, count, extent, Product(Narrow(dims))) then Undefined
    else Success
  }

  /** The outcome of VAPAA_CFI_CREATE_INDEXED, for every section, count and user-defined datatype. */
  function IndexedCode(st: State, desc: Descriptor, count: int, input: Handle): Code
    requires Exists(st, input) && desc.elemLen > 0
  {
    var iov := IovOf(st, input);
    var recorded := RecordCode(desc.dims, desc.elemLen, iov, count, ExtentOf(st, input));
    if recorded != Success then recorded
    else if count > 0 && count * ElementCount(iov, desc.elemLen) >= INT_MAX then Aborted
    else if ToMpiType(desc.ctype) == Null then Aborted
    else Success
  }

  /** A negative count is refused where the allocation sizes become negative, which they do exactly if there is room
      for an element in the user's datatype; otherwise there is nothing to select. */
  lemma NegativeCount(st: State, desc: Descriptor, count: int, h: Handle)
    requires Exists(st, h) && desc.elemLen > 0 && count < 0 && !desc.ctype.OtherType?
    requires NonNegative(desc.dims) && |desc.dims| <= CFI_MAX_RANK && Product(desc.dims) < 0x8000_0000_0000_0000
    ensures IndexedCode(st, desc, count, h) == if desc.elemLen <= Size(IovOf(st, h)) then Aborted else Success
    ensures Compose(Narrow(desc.dims), desc.elemLen, ElementSize(desc.ctype), IovOf(st, h), count, ExtentOf(st, h))
         == []
  {
    hide Size, Product, Narrow, AddressCode;
    WholeBounds(Size(IovOf(st, h)), desc.elemLen);
    if Whole(Size(IovOf(st, h)), desc.elemLen) > 0 {
      MulMono(1, Whole(Size(IovOf(st, h)), desc.elemLen), desc.elemLen);
    }
    ProductSign(desc.dims);
    AddressCodeInRange(desc.dims);
  }

  /** VAPAA_CFI_CREATE_INDEXED, as written: the step from copy to copy is the extent in bytes, and is added
      to element numbers. */
  method CreateIndexed(lib: Mpi, desc: Descriptor, count: int, input: Handle) returns (rc: Code, created: Handle)
    requires lib.Valid() && IsOpen(lib.state, input)
    requires |desc.dims| <= CFI_MAX_RANK && 0 < desc.elemLen <= INT_MAX
    modifies lib
    ensures lib.Valid() && old(lib.history) <= lib.history
    ensures SameOperations(old(lib.state), lib.state)
    ensures rc == IndexedCode(old(lib.state), desc, count, input)
    ensures rc == Success ==>
              IsNewType(old(lib.state), lib.state, created,
                        Compose(Narrow(desc.dims), desc.elemLen, ElementSize(desc.ctype),
                                IovOf(old(lib.state), input), count, ExtentOf(old(lib.state), input)))
  {
    hide RecordCode;
    created := Null;
    var iov, totalBytes := lib.TypeIov(input);
    var extent := lib.TypeGetExtent(input);
    ghost var size := ElementSize(desc.ctype);
    ghost var entries := Compose(Narrow(desc.dims), desc.elemLen, size, iov, count, extent);
    var index, blocklengths, displacements;
    rc, index, blocklengths, displacements := RecordIndexed(desc, count, iov, totalBytes, extent, size);
    if rc != Success { return; }
    if index >= INT_MAX { return Aborted, created; }
    ComposeSizes(Narrow(desc.dims), desc.elemLen, size, iov, count, extent);
    rc, created := CreateRecorded(lib, index, blocklengths, displacements, ToMpiType(desc.ctype), size, entries);
  }

  method CreateRecorded(lib: Mpi, n: nat, blocklengths: array<nat>, displacements: array<int>, elementType: Handle,
                        ghost size: nat, ghost entries: Typemap)
    returns (rc: Code, created: Handle)
    requires lib.Valid() && !elementType.Derived?
    requires elementType.Named? ==> size == BasicSize(elementType.basic)
    requires Recorded(blocklengths, displacements, entries) && n == |entries|
    requires forall x :: 0 <= x < n ==> entries[x].size == size
    modifies lib
    ensures lib.Valid() && old(lib.history) <= lib.history
    ensures SameOperations(old(lib.state), lib.state)
    ensures rc == (if elementType.Named? then Success else Aborted)
    ensures rc == Success ==> IsNewType(old(lib.state), lib.state, created, entries)
  {
    HindexedRecorded(blocklengths, displacements, n, entries, size);
    rc, created := lib.TypeCreateHindexed(n, blocklengths, displacements, elementType);
    if rc != Success { rc := Aborted; }
  }

  /** Allocation of the arrays and the three loops. */
  method RecordIndexed(desc: Descriptor, count: int, iov: Typemap, totalBytes: nat, extent: int, ghost size: nat)
    returns (rc: Code, index: nat, blocklengths: array<nat>, displacements: array<int>)
    requires |desc.dims| <= CFI_MAX_RANK && 0 < desc.elemLen <= INT_MAX && totalBytes == Size(iov)
    ensures fresh(blocklengths) && fresh(displacements)
    ensures rc == RecordCode(desc.dims, desc.elemLen, iov, count, extent)
    ensures rc == Success ==>
              var entries := Compose(Narrow(desc.dims), desc.elemLen, size, iov, count, extent);
              Recorded(blocklengths, displacements, entries) && index == |entries|
  {
    hide Whole, AddressCode, Inside;
    var elemLen := Int32(desc.elemLen);
    var iovElements := Whole(totalBytes, elemLen);
    index := 0;
    AllocationSign(count, iovElements);
    blocklengths, displacements := new nat[0], new int[0];
    if count * iovElements < 0 { rc := Aborted; return; }
    blocklengths, displacements := new nat[count * iovElements], new int[count * iovElements];
    var input, filled, ok;
    rc, input, filled := ElementAddresses(desc);
    if rc != Success { return; }
    ok, index := RecordCopies(input, filled, desc.base, Narrow(desc.dims), size, elemLen, iov, count, extent,
                              blocklengths, displacements);
    if !ok { rc := Undefined; }
  }

  lemma HindexedRecorded(blocklengths: array<nat>, displacements: array<int>, n: nat, t: Typemap, size: nat)
    requires Recorded(blocklengths, displacements, t) && n == |t|
    requires forall x :: 0 <= x < |t| ==> t[x].size == size
    ensures Hindexed(blocklengths[..n], displacements[..n], [Entry(0, size)], size) == t
  {
    HindexedOfOnes(blocklengths[..n], displacements[..n], size);
  }

  lemma AllocationSign(count: int, n: nat)
    ensures count * n < 0 <==> count < 0 && n > 0
  {
  }

  lemma {:induction false} CopySizes(dims: seq<Dim>, elemLen: int, size: nat, iov: Typemap, shift: int)
    requires elemLen > 0
    ensures forall x :: 0 <= x < ElementCount(iov, elemLen) ==>
              CopyElements(dims, elemLen, size, iov, shift)[x].size == size
  {
    if |iov| > 0 { CopySizes(dims, elemLen, size, iov[..|iov| - 1], shift); }
  }

  lemma {:induction false} ComposeSizes(dims: seq<Dim>, elemLen: int, size: nat, iov: Typemap, count: int, step: int)
    requires elemLen > 0
    ensures forall x :: 0 <= x < |Compose(dims, elemLen, size, iov, count, step)| ==>
              Compose(dims, elemLen, size, iov, count, step)[x].size == size
    decreases count
  {
    if count > 0 {
      ComposeSizes(dims, elemLen, size, iov, count - 1, step);
      CopySizes(dims, elemLen, size, iov, (count - 1) * step);
    }
  }

  // ---------------------------------------------------------------------------------------------
  // VAPAA_CFI_CREATE_DATATYPE
  // ---------------------------------------------------------------------------------------------

  /** What VAPAA_CFI_CREATE_DATATYPE returns, or how it fails to. */
  function CreateCode(st: State, desc: Descriptor, count: int, input: Handle): Code
    requires Exists(st, input) && (input.Derived? ==> desc.elemLen > 0)
  {
    if !input.Derived? then BuiltinCode(desc, count) else IndexedCode(st, desc, count, input)
  }

  /** What the created datatype holds. */
  function SubarrayEntries(st: State, desc: Descriptor, count: int, input: Handle): Typemap
    requires Exists(st, input) && (input.Derived? ==> desc.elemLen > 0)
  {
    var size := ElementSize(desc.ctype);
    if input.Derived?
    then Compose(Narrow(desc.dims), desc.elemLen, size, IovOf(st, input), count, ExtentOf(st, input))
    else if count >= 0 then FirstElements(BuiltDims(desc, count), count, size) else []
  }

  /** What the call needs of the descriptor and the datatype. */
  predicate Describable(st: State, desc: Descriptor, input: Handle) {
    && IsOpen(st, input)
    && WellFormed(desc.dims) && |desc.dims| >= 1
    && (input.Derived? ==> 0 < desc.elemLen <= INT_MAX)
  }

  method CreateDatatype(lib: Mpi, desc: Descriptor, count: int, input: Handle) returns (rc: Code, created: Handle)
    requires lib.Valid() && Describable(lib.state, desc, input)
    modifies lib
    ensures lib.Valid() && old(lib.history) <= lib.history
    ensures SameOperations(old(lib.state), lib.state)
    ensures rc == CreateCode(old(lib.state), desc, count, input)
    ensures rc == Success ==>
              IsNewType(old(lib.state), lib.state, created, SubarrayEntries(old(lib.state), desc, count, input))
    ensures rc in {ErrCount, ErrArg} ==> lib.state == old(lib.state)
  {
    if input.Named? {
      rc, created := CreateBuiltin(lib, desc, count, input);
    } else {
      rc, created := CreateIndexed(lib, desc, count, input);
    }
  }
}
