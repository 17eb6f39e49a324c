/** Which bytes of a section the datatype composed with a user's datatype describes, for every section and
    every datatype: the bytes that the user's datatype means, exactly when the code as written gets there. */
module Selection {
  import opened CInt
  import opened Section
  import opened Layout
  import opened Typemaps
  import opened MpiState
  import opened MpiLibrary
  import opened CfiUtil
  import opened Indexed
  import opened Composition

  // ---------------------------------------------------------------------------------------------
  // Extents that an int cannot hold
  // ---------------------------------------------------------------------------------------------

  lemma NarrowTail(dims: seq<Dim>)
    requires |dims| > 0
    ensures Narrow(dims)[0] == Dim(Narrowed(dims[0].extent), dims[0].sm) && Narrow(dims)[1..] == Narrow(dims[1..])
    ensures Product(Narrow(dims)) == Narrowed(dims[0].extent) * Product(Narrow(dims[1..]))
  {
    hide Narrowed;
    assert Narrow(dims)[1..] == Narrow(dims[1..]);
  }

  /** Which element of the section the loops visit as number x. */
  function Widened(dims: seq<Dim>, x: int): int {
    if |dims| == 0 || Narrowed(dims[0].extent) == 0 then 0
    else x % Narrowed(dims[0].extent) + dims[0].extent * Widened(dims[1..], x / Narrowed(dims[0].extent))
  }

  /** So many elements from the first are visited in their own places: up to the first dimension whose extent
      the conversion changes. */
  function Intact(dims: seq<Dim>): int {
    if |dims| == 0 then 1
    else if Narrowed(dims[0].extent) != dims[0].extent then Narrowed(dims[0].extent)
    else dims[0].extent * Intact(dims[1..])
  }

  /** How many elements from the first on have their addresses in their own places. */
  function Addressable(dims: seq<Dim>): int {
    if Product(Narrow(dims)) < Intact(dims) then Product(Narrow(dims)) else Intact(dims)
  }

  lemma {:induction false} WidenedZero(dims: seq<Dim>)
    ensures Widened(dims, 0) == 0
  {
    hide Narrowed;
    if |dims| > 0 && Narrowed(dims[0].extent) > 0 {
      DivModUnique(0, Narrowed(dims[0].extent), 0);
      WidenedZero(dims[1..]);
    }
  }

  /** One dimension: e narrowed from `wide`, w the element of the other dimensions in place of q. */
  lemma WidenedStep(i: int, e: int, wide: int, q: int, w: int)
    requires 0 <= i < e <= wide && 0 <= q <= w
    ensures i + e * q <= i + wide * w
    ensures i + e * q == i + wide * w <==> q == 0 == w || (e == wide && q == w)
  {
    MulMono(e, wide, q);
    MulMono(q, w, wide);
    if w > q { MulMono(q + 1, w, wide); Distribute(q, 1, wide); }
    if q > 0 && e < wide { MulMono(e + 1, wide, q); Distribute(e, 1, q); }
    if q == 0 && w > 0 { MulMono(1, w, wide); }
  }

  lemma {:induction false} WidenedIs(dims: seq<Dim>, x: int)
    requires NonNegative(dims) && 0 <= x < Product(Narrow(dims))
    ensures 0 <= Widened(dims, x) < Product(dims)
    ensures Disp(dims, Widened(dims, x)) == Disp(Narrow(dims), x)
    ensures x <= Widened(dims, x)
    ensures Widened(dims, x) == x <==> x < Intact(dims)
  {
    if |dims| > 0 {
      var wide, tail := dims[0].extent, dims[1..];
      var e := Narrowed(wide);
      NarrowTail(dims);
      ProductSign(Narrow(dims));
      assert Narrow(dims)[0].extent > 0;
      Split(x, e);
      DivBound(x, e, Product(Narrow(tail)));
      var i, q := x % e, x / e;
      WidenedIs(tail, q);
      WidenedZero(tail);
      var w := Widened(tail, q);
      assert Widened(dims, x) == i + wide * w;
      assert Product(dims) == wide * Product(tail);
      IntactStep(dims, i, q);
      hide Narrowed, Narrow, Product, Intact, Widened, Disp;
      WidenedStep(i, e, wide, q, w);
      DispStep(dims, i, w);
      DispStep(Narrow(dims), i, q);
      DivModUnique(i, wide, w);
      DivBound(i + wide * w, wide, Product(tail));
      MulMono(0, w, wide);
    }
  }

  lemma IntactStep(dims: seq<Dim>, i: int, q: int)
    requires |dims| > 0 && 0 <= i < Narrowed(dims[0].extent) && 0 <= q
    ensures i + Narrowed(dims[0].extent) * q < Intact(dims)
       <==> if Narrowed(dims[0].extent) == dims[0].extent then q < Intact(dims[1..]) else q == 0
  {
    var e := Narrowed(dims[0].extent);
    assert Intact(dims) == if e != dims[0].extent then e else e * Intact(dims[1..]);
    hide Narrowed, Intact;
    DivModUnique(i, e, q);
    DivBound(i + e * q, e, Intact(dims[1..]));
    DivBound(i + e * q, e, 1);
  }

  // ---------------------------------------------------------------------------------------------
  // Bytes
  // ---------------------------------------------------------------------------------------------

  /** Where byte x of the contiguous array that the section stands for is. */
  function ByteOf(dims: seq<Dim>, elemLen: nat, base: int, x: int): int
    requires elemLen > 0
  {
    base + Disp(dims, x / elemLen) + x % elemLen
  }

  function Mapped(dims: seq<Dim>, elemLen: nat, base: int, xs: seq<int>): (r: seq<int>)
    requires elemLen > 0
    ensures |r| == |xs| && forall k :: 0 <= k < |xs| ==> r[k] == ByteOf(dims, elemLen, base, xs[k])
  {
    seq(|xs|, k requires 0 <= k < |xs| => ByteOf(dims, elemLen, base, xs[k]))
  }

  lemma MappedConcat(dims: seq<Dim>, elemLen: nat, base: int, xs: seq<int>, ys: seq<int>)
    requires elemLen > 0
    ensures Mapped(dims, elemLen, base, xs + ys) == Mapped(dims, elemLen, base, xs) + Mapped(dims, elemLen, base, ys)
  {
    hide ByteOf;
  }

  lemma ByteOfElement(dims: seq<Dim>, elemLen: nat, base: int, m: int, b: int)
    requires 0 <= b < elemLen
    ensures ByteOf(dims, elemLen, base, m * elemLen + b) == base + Disp(dims, m) + b
  {
    hide Disp;
    DivModUnique(b, elemLen, m);
  }

  /** In a spaced section different bytes are in different places. */
  lemma ByteSeparate(dims: seq<Dim>, elemLen: nat, base: int, x: int, y: int)
    requires elemLen > 0 && NonNegative(dims) && Spaced(dims, elemLen)
    requires 0 <= x < Product(dims) * elemLen && 0 <= y < Product(dims) * elemLen
    requires ByteOf(dims, elemLen, base, x) == ByteOf(dims, elemLen, base, y)
    ensures x == y
  {
    hide Disp, Product, Spaced;
    ProductSign(dims);
    Split(x, elemLen);
    Split(y, elemLen);
    DivBound(x, elemLen, Product(dims));
    DivBound(y, elemLen, Product(dims));
    if x / elemLen != y / elemLen {
      DispSpacing(dims, elemLen, x / elemLen, y / elemLen);
    }
  }

  // ---------------------------------------------------------------------------------------------
  // One segment
  // ---------------------------------------------------------------------------------------------

  /** The k-th element that the loops select from `first` on is the one at byte d and k elements. */
  predicate ElementOnTarget(dims: seq<Dim>, elemLen: nat, first: int, d: int, k: int) {
    Widened(dims, first + k) * elemLen == d + k * elemLen
  }

  predicate OnTarget(dims: seq<Dim>, elemLen: nat, first: int, n: nat, d: int) {
    forall k :: 0 <= k < n ==> ElementOnTarget(dims, elemLen, first, d, k)
  }

  /** Byte b of the k-th element selected. */
  lemma SelectedByte(dims: seq<Dim>, elemLen: nat, base: int, first: int, n: nat, k: int, b: int)
    requires NonNegative(dims) && SegmentInside(first, n, Product(Narrow(dims)))
    requires 0 <= k < n && 0 <= b < elemLen
    ensures var bytes := Addresses(SegmentElements(Narrow(dims), elemLen, first, n), base);
            && |bytes| == n * elemLen && 0 <= k * elemLen + b < n * elemLen
            && bytes[k * elemLen + b] == ByteOf(dims, elemLen, base, Widened(dims, first + k) * elemLen + b)
    ensures 0 <= Widened(dims, first + k) < Product(dims)
  {
    hide Product, Disp, Narrow, Widened, Intact, Addresses;
    AddressAt(SegmentElements(Narrow(dims), elemLen, first, n), base, elemLen, k, b);
    WidenedIs(dims, first + k);
    ByteOfElement(dims, elemLen, base, Widened(dims, first + k), b);
  }

  lemma ByteInRange(d: int, n: nat, elemLen: nat, k: int, b: int)
    requires 0 <= k < n && 0 <= b < elemLen
    ensures 0 <= k * elemLen + b < n * elemLen
    ensures Range(d, n * elemLen)[k * elemLen + b] == d + (k * elemLen + b)
  {
    MulMono(0, k, elemLen);
    MulMono(k + 1, n, elemLen);
    NextMultiple(elemLen, k);
  }

  lemma ElementBound(w: int, elemLen: nat, b: int, total: int)
    requires 0 <= w < total && 0 <= b < elemLen
    ensures 0 <= w * elemLen + b < total * elemLen
  {
    MulMono(0, w, elemLen);
    MulMono(w + 1, total, elemLen);
    NextMultiple(elemLen, w);
  }

  lemma ByteHits(dims: seq<Dim>, elemLen: nat, base: int, first: int, n: nat, d: int, k: int, b: int)
    requires NonNegative(dims) && SegmentInside(first, n, Product(Narrow(dims)))
    requires 0 <= k < n && 0 <= b < elemLen && ElementOnTarget(dims, elemLen, first, d, k)
    ensures var bytes := Addresses(SegmentElements(Narrow(dims), elemLen, first, n), base);
            && 0 <= k * elemLen + b < |bytes| == n * elemLen
            && bytes[k * elemLen + b] == Mapped(dims, elemLen, base, Range(d, n * elemLen))[k * elemLen + b]
  {
    assert Widened(dims, first + k) * elemLen == d + k * elemLen;
    hide *;
    SelectedByte(dims, elemLen, base, first, n, k, b);
    ByteInRange(d, n, elemLen, k, b);
    assert Widened(dims, first + k) * elemLen + b == d + (k * elemLen + b);
  }

  lemma WhichElement(p: int, n: nat, elemLen: nat)
    requires 0 < elemLen && 0 <= p < n * elemLen
    ensures 0 <= p / elemLen < n && 0 <= p % elemLen < elemLen && p == (p / elemLen) * elemLen + p % elemLen
  {
    Split(p, elemLen);
    DivBound(p, elemLen, n);
  }

  lemma SegmentHits(dims: seq<Dim>, elemLen: nat, base: int, first: int, n: nat, d: int)
    requires elemLen > 0 && NonNegative(dims) && SegmentInside(first, n, Product(Narrow(dims)))
    requires OnTarget(dims, elemLen, first, n, d)
    ensures Addresses(SegmentElements(Narrow(dims), elemLen, first, n), base)
         == Mapped(dims, elemLen, base, Range(d, n * elemLen))
  {
    hide Product, Narrow, Addresses, Mapped, SegmentElements, SegmentInside, ElementOnTarget;
    var bytes := Addresses(SegmentElements(Narrow(dims), elemLen, first, n), base);
    var meant := Mapped(dims, elemLen, base, Range(d, n * elemLen));
    SegmentLength(dims, elemLen, base, first, n);
    forall p | 0 <= p < n * elemLen ensures bytes[p] == meant[p] {
      WhichElement(p, n, elemLen);
      assert ElementOnTarget(dims, elemLen, first, d, p / elemLen);
      ByteHits(dims, elemLen, base, first, n, d, p / elemLen, p % elemLen);
    }
    assert bytes == meant;
  }

  lemma SegmentLength(dims: seq<Dim>, elemLen: nat, base: int, first: int, n: nat)
    ensures |Addresses(SegmentElements(Narrow(dims), elemLen, first, n), base)| == n * elemLen
  {
    hide Narrow, Disp, Addresses;
    AddressesLength(SegmentElements(Narrow(dims), elemLen, first, n), base);
    SizeOfUniform(SegmentElements(Narrow(dims), elemLen, first, n), elemLen);
  }

  lemma HitsTarget(dims: seq<Dim>, elemLen: nat, base: int, first: int, n: nat, d: int, k: int)
    requires elemLen > 0 && NonNegative(dims) && Spaced(dims, elemLen)
    requires SegmentInside(first, n, Product(Narrow(dims))) && 0 <= k < n
    requires 0 <= d && d + n * elemLen <= Product(dims) * elemLen
    requires Addresses(SegmentElements(Narrow(dims), elemLen, first, n), base)
          == Mapped(dims, elemLen, base, Range(d, n * elemLen))
    ensures ElementOnTarget(dims, elemLen, first, d, k)
  {
    hide Product, Disp, Narrow, Widened, Addresses, ByteOf, SegmentElements, SegmentInside, Spaced;
    SelectedByte(dims, elemLen, base, first, n, k, 0);
    ByteInRange(d, n, elemLen, k, 0);
    ElementBound(Widened(dims, first + k), elemLen, 0, Product(dims));
    ByteSeparate(dims, elemLen, base, Widened(dims, first + k) * elemLen + 0, d + (k * elemLen + 0));
  }

  /** The selected elements are the meant bytes exactly if each is in its place. */
  lemma SegmentExact(dims: seq<Dim>, elemLen: nat, base: int, first: int, n: nat, d: int)
    requires elemLen > 0 && NonNegative(dims) && Spaced(dims, elemLen)
    requires SegmentInside(first, n, Product(Narrow(dims)))
    requires n > 0 ==> 0 <= d && d + n * elemLen <= Product(dims) * elemLen
    ensures Addresses(SegmentElements(Narrow(dims), elemLen, first, n), base)
         == Mapped(dims, elemLen, base, Range(d, n * elemLen))
       <==> OnTarget(dims, elemLen, first, n, d)
  {
    hide Product, Narrow, Addresses, Mapped, SegmentElements, SegmentInside, Spaced, ElementOnTarget;
    if OnTarget(dims, elemLen, first, n, d) { SegmentHits(dims, elemLen, base, first, n, d); }
    if Addresses(SegmentElements(Narrow(dims), elemLen, first, n), base)
       == Mapped(dims, elemLen, base, Range(d, n * elemLen)) {
      forall k | 0 <= k < n ensures ElementOnTarget(dims, elemLen, first, d, k) {
        HitsTarget(dims, elemLen, base, first, n, d, k);
      }
    }
  }

  // ---------------------------------------------------------------------------------------------
  // Copies
  // ---------------------------------------------------------------------------------------------

  lemma ConcatSplit<T>(a: seq<T>, b: seq<T>, c: seq<T>, d: seq<T>)
    requires |b| == |d|
    ensures a + b == c + d <==> a == c && b == d
  {
    if a + b == c + d {
      assert a == (a + b)[..|a|] && b == (a + b)[|a|..];
      assert c == (c + d)[..|c|] && d == (c + d)[|c|..];
    }
  }

  predicate SegmentOnTarget(dims: seq<Dim>, elemLen: nat, segment: Entry, elements: int, bytes: int)
    requires elemLen > 0
  {
    OnTarget(dims, elemLen, TruncDiv(segment.disp, elemLen) + elements, Whole(segment.size, elemLen),
             segment.disp + bytes)
  }

  /** A copy whose segments are moved by so many elements in the code, and meant to be moved by so many bytes. */
  predicate CopyOnTarget(dims: seq<Dim>, elemLen: nat, iov: Typemap, elements: int, bytes: int)
    requires elemLen > 0
  {
    forall i :: 0 <= i < |iov| ==> SegmentOnTarget(dims, elemLen, iov[i], elements, bytes)
  }

  /** The moved segment lies in the contiguous array. */
  predicate SegmentFits(segment: Entry, shift: int, total: int) {
    segment.size > 0 ==> 0 <= segment.disp + shift && segment.disp + shift + segment.size <= total
  }

  predicate SegmentsFit(iov: Typemap, shift: int, total: int) {
    forall i :: 0 <= i < |iov| ==> SegmentFits(iov[i], shift, total)
  }

  predicate WholeSizes(iov: Typemap, elemLen: nat)
    requires elemLen > 0
  {
    forall i :: 0 <= i < |iov| ==> iov[i].size % elemLen == 0
  }

  lemma LastSegment(dims: seq<Dim>, elemLen: nat, iov: Typemap, elements: int, bytes: int, narrow: int, total: int)
    requires elemLen > 0 && |iov| > 0 && WholeSizes(iov, elemLen)
    requires ShiftInside(elemLen, iov, elements, narrow) && SegmentsFit(iov, bytes, total)
    ensures var n := |iov| - 1;
            && WholeSizes(iov[..n], elemLen) && iov[n].size % elemLen == 0
            && ShiftInside(elemLen, iov[..n], elements, narrow) && SegmentsFit(iov[..n], bytes, total)
            && SegmentInside(TruncDiv(iov[n].disp, elemLen) + elements, Whole(iov[n].size, elemLen), narrow)
            && SegmentFits(iov[n], bytes, total)
            && (CopyOnTarget(dims, elemLen, iov, elements, bytes) <==>
                  && CopyOnTarget(dims, elemLen, iov[..n], elements, bytes)
                  && SegmentOnTarget(dims, elemLen, iov[n], elements, bytes))
  {
    hide SegmentOnTarget, SegmentFits, SegmentInside, TruncDiv, Whole;
    var n := |iov| - 1;
    assert forall i :: 0 <= i < n ==> iov[..n][i] == iov[i];
  }

  lemma OneSegment(dims: seq<Dim>, elemLen: nat, base: int, segment: Entry, elements: int, bytes: int)
    requires elemLen > 0 && NonNegative(dims) && Spaced(dims, elemLen) && segment.size % elemLen == 0
    requires SegmentInside(TruncDiv(segment.disp, elemLen) + elements, Whole(segment.size, elemLen),
                           Product(Narrow(dims)))
    requires SegmentFits(segment, bytes, Product(dims) * elemLen)
    ensures var n, first := Whole(segment.size, elemLen), TruncDiv(segment.disp, elemLen) + elements;
            var selected := Addresses(SegmentElements(Narrow(dims), elemLen, first, n), base);
            var meant := Mapped(dims, elemLen, base, Range(segment.disp + bytes, segment.size));
            && |selected| == |meant|
            && (selected == meant <==> SegmentOnTarget(dims, elemLen, segment, elements, bytes))
  {
    var n, first, d := Whole(segment.size, elemLen), TruncDiv(segment.disp, elemLen) + elements, segment.disp + bytes;
    assert n > 0 ==> 0 <= d && d + segment.size <= Product(dims) * elemLen;
    assert SegmentOnTarget(dims, elemLen, segment, elements, bytes) == OnTarget(dims, elemLen, first, n, d);
    hide *;
    WholeExact(segment.size, elemLen);
    SegmentLength(dims, elemLen, base, first, n);
    SegmentExact(dims, elemLen, base, first, n, d);
  }

  lemma NoSegments(dims: seq<Dim>, elemLen: nat, base: int, elements: int, bytes: int)
    requires elemLen > 0
    ensures CopyOnTarget(dims, elemLen, [], elements, bytes) && Mapped(dims, elemLen, base, []) == []
  {
  }

  lemma {:induction false} CopyExact(dims: seq<Dim>, elemLen: nat, base: int, iov: Typemap, elements: int, bytes: int)
    requires elemLen > 0 && NonNegative(dims) && Spaced(dims, elemLen) && WholeSizes(iov, elemLen)
    requires ShiftInside(elemLen, iov, elements, Product(Narrow(dims)))
    requires SegmentsFit(iov, bytes, Product(dims) * elemLen)
    ensures var selected := Addresses(CopyElements(Narrow(dims), elemLen, elemLen, iov, elements), base);
            var meant := Mapped(dims, elemLen, base, Addresses(Shift(iov, bytes), 0));
            && |selected| == |meant|
            && (selected == meant <==> CopyOnTarget(dims, elemLen, iov, elements, bytes))
    decreases |iov|
  {
    hide *;
    CopyElementsLast(Narrow(dims), elemLen, elemLen, iov, elements);
    ShiftedLast(iov, bytes, 0);
    NoAddresses(base);
    NoSegments(dims, elemLen, base, elements, bytes);
    if |iov| == 0 {
      assert iov == [];
    } else {
      var n := |iov| - 1;
      LastSegment(dims, elemLen, iov, elements, bytes, Product(Narrow(dims)), Product(dims) * elemLen);
      CopyExact(dims, elemLen, base, iov[..n], elements, bytes);
      OneSegment(dims, elemLen, base, iov[n], elements, bytes);
      var last := SegmentElements(Narrow(dims), elemLen, TruncDiv(iov[n].disp, elemLen) + elements,
                                  Whole(iov[n].size, elemLen));
      var meant := Addresses(Shift(iov[..n], bytes), 0);
      AddressesConcat(CopyElements(Narrow(dims), elemLen, elemLen, iov[..n], elements), last, base);
      MappedConcat(dims, elemLen, base, meant, Range(0 + (iov[n].disp + bytes), iov[n].size));
      ConcatSplit(Addresses(CopyElements(Narrow(dims), elemLen, elemLen, iov[..n], elements), base),
                  Addresses(last, base), Mapped(dims, elemLen, base, meant),
                  Mapped(dims, elemLen, base, Range(iov[n].disp + bytes, iov[n].size)));
    }
  }

  /** Copy j: the code moves it by j extents of elements, where j extents of bytes are meant. */
  predicate CopyRight(dims: seq<Dim>, elemLen: nat, iov: Typemap, extent: int, j: int)
    requires elemLen > 0
  {
    CopyOnTarget(dims, elemLen, iov, j * extent, j * extent)
  }

  predicate AllOnTarget(dims: seq<Dim>, elemLen: nat, iov: Typemap, count: nat, extent: int)
    requires elemLen > 0
  {
    forall j :: 0 <= j < count ==> CopyRight(dims, elemLen, iov, extent, j)
  }

  predicate CopyFitsAt(iov: Typemap, extent: int, j: int, total: int) {
    SegmentsFit(iov, j * extent, total)
  }

  /** The segments of all copies lie in the contiguous array. */
  predicate CopiesFit(iov: Typemap, count: nat, extent: int, total: int) {
    forall j :: 0 <= j < count ==> CopyFitsAt(iov, extent, j, total)
  }

  lemma LastCopy(dims: seq<Dim>, elemLen: nat, iov: Typemap, count: nat, extent: int, narrow: int, total: int)
    requires elemLen > 0 && count > 0
    requires Inside(elemLen, iov, count, extent, narrow) && CopiesFit(iov, count, extent, total)
    ensures var j := count - 1;
            && Inside(elemLen, iov, j, extent, narrow) && CopiesFit(iov, j, extent, total)
            && ShiftInside(elemLen, iov, j * extent, narrow) && SegmentsFit(iov, j * extent, total)
            && (AllOnTarget(dims, elemLen, iov, count, extent) <==>
                  && AllOnTarget(dims, elemLen, iov, j, extent)
                  && CopyOnTarget(dims, elemLen, iov, j * extent, j * extent))
  {
    hide ShiftInside, SegmentsFit, CopyOnTarget;
    var j := count - 1;
    assert CopyInside(elemLen, iov, j, extent, narrow) && CopyFitsAt(iov, extent, j, total);
    if AllOnTarget(dims, elemLen, iov, count, extent) { assert CopyRight(dims, elemLen, iov, extent, j); }
  }

  lemma ComposeLast(dims: seq<Dim>, elemLen: nat, size: nat, iov: Typemap, count: nat, step: int)
    requires elemLen > 0
    ensures Compose(dims, elemLen, size, iov, 0, step) == []
    ensures count > 0 ==>
              Compose(dims, elemLen, size, iov, count, step)
              == Compose(dims, elemLen, size, iov, count - 1, step)
                 + CopyElements(dims, elemLen, size, iov, (count - 1) * step)
  {
    hide CopyElements;
  }

  lemma NothingOnTarget(dims: seq<Dim>, elemLen: nat, iov: Typemap, extent: int)
    requires elemLen > 0
    ensures AllOnTarget(dims, elemLen, iov, 0, extent)
  {
  }

  /** The composed datatype describes the meant bytes exactly if every selected element is in its place. */
  lemma {:induction false} CopiesExact(dims: seq<Dim>, elemLen: nat, base: int, iov: Typemap, count: nat, extent: int)
    requires elemLen > 0 && NonNegative(dims) && Spaced(dims, elemLen) && WholeSizes(iov, elemLen)
    requires Inside(elemLen, iov, count, extent, Product(Narrow(dims)))
    requires CopiesFit(iov, count, extent, Product(dims) * elemLen)
    ensures Addresses(Compose(Narrow(dims), elemLen, elemLen, iov, count, extent), base)
         == Mapped(dims, elemLen, base, Addresses(Block(count, iov, extent, 0), 0))
       <==> AllOnTarget(dims, elemLen, iov, count, extent)
    decreases count
  {
    hide *;
    ComposeLast(Narrow(dims), elemLen, elemLen, iov, count, extent);
    BlockLast(count, iov, extent);
    NoAddresses(base);
    NoAddresses(0);
    NothingOnTarget(dims, elemLen, iov, extent);
    if count > 0 {
      var j := count - 1;
      LastCopy(dims, elemLen, iov, count, extent, Product(Narrow(dims)), Product(dims) * elemLen);
      CopiesExact(dims, elemLen, base, iov, j, extent);
      CopyExact(dims, elemLen, base, iov, j * extent, j * extent);
      var before, last := Compose(Narrow(dims), elemLen, elemLen, iov, j, extent),
                          CopyElements(Narrow(dims), elemLen, elemLen, iov, j * extent);
      AddressesConcat(before, last, base);
      AddressesConcat(Block(j, iov, extent, 0), Shift(iov, j * extent), 0);
      MappedConcat(dims, elemLen, base, Addresses(Block(j, iov, extent, 0), 0), Addresses(Shift(iov, j * extent), 0));
      ConcatSplit(Addresses(before, base), Addresses(last, base),
                  Mapped(dims, elemLen, base, Addresses(Block(j, iov, extent, 0), 0)),
                  Mapped(dims, elemLen, base, Addresses(Shift(iov, j * extent), 0)));
    }
  }

  // ---------------------------------------------------------------------------------------------
  // When every element is in its place
  // ---------------------------------------------------------------------------------------------

  /** Segments with bytes are whole elements. */
  predicate WholeElements(iov: Typemap, elemLen: nat)
    requires elemLen > 0
  {
    forall i :: 0 <= i < |iov| && iov[i].size > 0 ==> iov[i].disp % elemLen == 0 && iov[i].size % elemLen == 0
  }

  lemma WholeElementsWholeSizes(iov: Typemap, elemLen: nat)
    requires elemLen > 0
    ensures WholeElements(iov, elemLen) ==> WholeSizes(iov, elemLen)
  {
  }

  predicate StepInPlace(elemLen: nat, count: nat, extent: int) {
    count <= 1 || elemLen == 1 || extent == 0
  }

  /** Whole elements, copies at the right distance, and every element among those whose addresses are in place. */
  predicate PlacesRight(dims: seq<Dim>, elemLen: nat, iov: Typemap, count: nat, extent: int)
    requires elemLen > 0
  {
    && WholeElements(iov, elemLen) && StepInPlace(elemLen, count, extent)
    && Inside(elemLen, iov, count, extent, Addressable(dims))
  }

  lemma SameShift(elemLen: nat, count: nat, extent: int, j: nat)
    requires StepInPlace(elemLen, count, extent) && j < count
    ensures (j * extent) * elemLen == j * extent
  {
    if count <= 1 { assert j == 0; } else if extent == 0 { assert j * extent == 0; }
  }

  lemma PlacedElement(dims: seq<Dim>, elemLen: nat, t: int, shift: int, k: int, d: int)
    requires NonNegative(dims) && shift * elemLen == shift && t * elemLen == d
    requires 0 <= t + shift + k < Addressable(dims)
    ensures ElementOnTarget(dims, elemLen, t + shift, d + shift, k)
  {
    hide Product, Narrow, Intact, Widened;
    WidenedIs(dims, t + shift + k);
    Distribute(t + shift, k, elemLen);
    Distribute(t, shift, elemLen);
  }

  lemma InPlace(dims: seq<Dim>, elemLen: nat, segment: Entry, shift: int)
    requires elemLen > 0 && NonNegative(dims) && segment.disp % elemLen == 0 && shift * elemLen == shift
    requires SegmentInside(TruncDiv(segment.disp, elemLen) + shift, Whole(segment.size, elemLen), Addressable(dims))
    ensures SegmentOnTarget(dims, elemLen, segment, shift, shift)
  {
    TruncDivExact(segment.disp, elemLen);
    hide Addressable, TruncDiv, Whole, ElementOnTarget;
    var t, n := TruncDiv(segment.disp, elemLen), Whole(segment.size, elemLen);
    var first, d := t + shift, segment.disp + shift;
    forall k | 0 <= k < n ensures ElementOnTarget(dims, elemLen, first, d, k) {
      PlacedElement(dims, elemLen, t, shift, k, segment.disp);
    }
  }

  lemma PlacesThenTargets(dims: seq<Dim>, elemLen: nat, iov: Typemap, count: nat, extent: int)
    requires elemLen > 0 && NonNegative(dims) && PlacesRight(dims, elemLen, iov, count, extent)
    ensures AllOnTarget(dims, elemLen, iov, count, extent)
  {
    hide Addressable, SegmentInside, TruncDiv, Whole, SegmentOnTarget;
    forall j | 0 <= j < count ensures CopyRight(dims, elemLen, iov, extent, j) {
      assert CopyInside(elemLen, iov, j, extent, Addressable(dims));
      SameShift(elemLen, count, extent, j);
      forall i | 0 <= i < |iov| ensures SegmentOnTarget(dims, elemLen, iov[i], j * extent, j * extent) {
        if iov[i].size > 0 {
          InPlace(dims, elemLen, iov[i], j * extent);
        } else {
          NoBytes(dims, elemLen, iov[i], j * extent);
        }
      }
    }
  }

  lemma NoBytes(dims: seq<Dim>, elemLen: nat, segment: Entry, shift: int)
    requires elemLen > 0 && segment.size == 0
    ensures SegmentOnTarget(dims, elemLen, segment, shift, shift)
  {
  }

  /** Element k of segment i of copy j, as the code selects it. */
  lemma TargetAt(dims: seq<Dim>, elemLen: nat, iov: Typemap, count: nat, extent: int, j: nat, i: nat, k: nat)
    requires elemLen > 0 && NonNegative(dims) && AllOnTarget(dims, elemLen, iov, count, extent)
    requires Inside(elemLen, iov, count, extent, Product(Narrow(dims)))
    requires j < count && i < |iov| && k < Whole(iov[i].size, elemLen)
    ensures var x := TruncDiv(iov[i].disp, elemLen) + j * extent + k;
            && 0 <= x < Product(Narrow(dims)) && x <= Widened(dims, x)
            && (Widened(dims, x) == x <==> x < Intact(dims))
            && Widened(dims, x) * elemLen == iov[i].disp + j * extent + k * elemLen
  {
    hide Product, Narrow, Intact, Widened, TruncDiv, Whole;
    assert CopyInside(elemLen, iov, j, extent, Product(Narrow(dims)));
    assert CopyRight(dims, elemLen, iov, extent, j);
    assert SegmentOnTarget(dims, elemLen, iov[i], j * extent, j * extent);
    assert ElementOnTarget(dims, elemLen, TruncDiv(iov[i].disp, elemLen) + j * extent, iov[i].disp + j * extent, k);
    WidenedIs(dims, TruncDiv(iov[i].disp, elemLen) + j * extent + k);
  }

  /** In copy 0 every segment begins with a whole element. */
  lemma SegmentAligned(dims: seq<Dim>, elemLen: nat, iov: Typemap, count: nat, extent: int, i: nat)
    requires elemLen > 0 && NonNegative(dims) && AllOnTarget(dims, elemLen, iov, count, extent)
    requires Inside(elemLen, iov, count, extent, Product(Narrow(dims))) && count > 0
    requires i < |iov| && Whole(iov[i].size, elemLen) > 0 && 0 <= iov[i].disp
    ensures var t := TruncDiv(iov[i].disp, elemLen);
            iov[i].disp % elemLen == 0 && iov[i].disp == t * elemLen && t < Intact(dims)
  {
    hide Product, Narrow, Intact, Widened, Whole, AllOnTarget, Inside;
    TargetAt(dims, elemLen, iov, count, extent, 0, i, 0);
    var t := TruncDiv(iov[i].disp, elemLen);
    assert 0 * extent == 0 && 0 * elemLen == 0;
    var w := Widened(dims, t);
    assert w * elemLen == iov[i].disp;
    DivModUnique(0, elemLen, w);
    assert 0 + elemLen * w == iov[i].disp;
  }

  lemma StepForced(elemLen: nat, extent: int, t: int, w: int, intact: int)
    requires elemLen > 0 && t + extent <= w && w * elemLen == t * elemLen + extent
    requires t < intact && (w == t + extent <==> t + extent < intact)
    ensures elemLen == 1 || extent == 0
  {
    Distribute(t, extent, elemLen);
    MulMono(t + extent, w, elemLen);
    if elemLen > 1 {
      assert extent * elemLen <= extent;
      if extent > 0 { MulMono(2, elemLen, extent); }
      assert extent <= 0;
      assert w == t + extent && extent * elemLen == extent;
      if extent < 0 { MulMono(2, elemLen, -extent); }
    }
  }

  lemma TargetsThenStep(dims: seq<Dim>, elemLen: nat, iov: Typemap, count: nat, extent: int, i: nat)
    requires elemLen > 0 && NonNegative(dims) && AllOnTarget(dims, elemLen, iov, count, extent)
    requires Inside(elemLen, iov, count, extent, Product(Narrow(dims))) && count > 0
    requires i < |iov| && Whole(iov[i].size, elemLen) > 0 && 0 <= iov[i].disp
    ensures StepInPlace(elemLen, count, extent)
  {
    hide Product, Narrow, Intact, Widened, Whole, AllOnTarget, Inside, TruncDiv;
    if count > 1 {
      var t := TruncDiv(iov[i].disp, elemLen);
      SegmentAligned(dims, elemLen, iov, count, extent, i);
      TargetAt(dims, elemLen, iov, count, extent, 1, i, 0);
      assert 1 * extent == extent && 0 * elemLen == 0;
      StepForced(elemLen, extent, t, Widened(dims, t + extent), Intact(dims));
    }
  }

  /** The last element of a segment of a copy is among those in place, and so are those before it. */
  lemma TargetsThenAddressable(dims: seq<Dim>, elemLen: nat, iov: Typemap, count: nat, extent: int, j: nat, i: nat)
    requires elemLen > 0 && NonNegative(dims) && AllOnTarget(dims, elemLen, iov, count, extent)
    requires Inside(elemLen, iov, count, extent, Product(Narrow(dims))) && j < count
    requires i < |iov| && Whole(iov[i].size, elemLen) > 0 && 0 <= iov[i].disp && StepInPlace(elemLen, count, extent)
    ensures SegmentInside(TruncDiv(iov[i].disp, elemLen) + j * extent, Whole(iov[i].size, elemLen), Addressable(dims))
  {
    hide Product, Narrow, Intact, Widened, Whole, AllOnTarget, Inside, TruncDiv, StepInPlace;
    var t, n := TruncDiv(iov[i].disp, elemLen), Whole(iov[i].size, elemLen);
    SegmentAligned(dims, elemLen, iov, count, extent, i);
    TargetAt(dims, elemLen, iov, count, extent, j, i, n - 1);
    TargetAt(dims, elemLen, iov, count, extent, j, i, 0);
    SameShift(elemLen, count, extent, j);
    var x := t + j * extent + (n - 1);
    Distribute(t + j * extent, n - 1, elemLen);
    Distribute(t, j * extent, elemLen);
    assert Widened(dims, x) * elemLen == x * elemLen;
    SameMultiple(elemLen, Widened(dims, x), x);
  }

  lemma SelectedFits(iov: Typemap, elemLen: nat, count: nat, extent: int, total: int, i: nat)
    requires elemLen > 0 && CopiesFit(iov, count, extent, total) && count > 0 && i < |iov| && iov[i].size > 0
    ensures 0 <= iov[i].disp
    ensures WholeSizes(iov, elemLen) ==> Whole(iov[i].size, elemLen) > 0
  {
    assert CopyFitsAt(iov, extent, 0, total) && 0 * extent == 0;
    assert SegmentFits(iov[i], 0 * extent, total);
    if WholeSizes(iov, elemLen) { WholeExact(iov[i].size, elemLen); }
  }

  lemma WholeOfNothing(elemLen: nat)
    requires elemLen > 0
    ensures Whole(0, elemLen) == 0
  {
  }

  lemma TargetsThenPlaces(dims: seq<Dim>, elemLen: nat, iov: Typemap, count: nat, extent: int, total: int, s: nat)
    requires elemLen > 0 && NonNegative(dims) && AllOnTarget(dims, elemLen, iov, count, extent) && count > 0
    requires Inside(elemLen, iov, count, extent, Product(Narrow(dims))) && CopiesFit(iov, count, extent, total)
    requires WholeSizes(iov, elemLen) && s < |iov| && iov[s].size > 0
    ensures PlacesRight(dims, elemLen, iov, count, extent)
  {
    hide AllOnTarget, CopiesFit, Addressable, Product, Narrow, Whole, TruncDiv, StepInPlace, SegmentInside;
    SelectedFits(iov, elemLen, count, extent, total, s);
    TargetsThenStep(dims, elemLen, iov, count, extent, s);
    forall i | 0 <= i < |iov| && iov[i].size > 0 ensures iov[i].disp % elemLen == 0 && iov[i].size % elemLen == 0 {
      SelectedFits(iov, elemLen, count, extent, total, i);
      SegmentAligned(dims, elemLen, iov, count, extent, i);
    }
    forall j | 0 <= j < count ensures CopyInside(elemLen, iov, j, extent, Addressable(dims)) {
      forall i | 0 <= i < |iov|
        ensures SegmentInside(TruncDiv(iov[i].disp, elemLen) + j * extent, Whole(iov[i].size, elemLen),
                              Addressable(dims))
      {
        OneAddressable(dims, elemLen, iov, count, extent, total, j, i);
      }
    }
  }

  lemma OneAddressable(dims: seq<Dim>, elemLen: nat, iov: Typemap, count: nat, extent: int, total: int, j: nat, i: nat)
    requires elemLen > 0 && NonNegative(dims) && AllOnTarget(dims, elemLen, iov, count, extent) && j < count
    requires Inside(elemLen, iov, count, extent, Product(Narrow(dims))) && CopiesFit(iov, count, extent, total)
    requires WholeSizes(iov, elemLen) && i < |iov| && StepInPlace(elemLen, count, extent)
    ensures SegmentInside(TruncDiv(iov[i].disp, elemLen) + j * extent, Whole(iov[i].size, elemLen), Addressable(dims))
  {
    hide AllOnTarget, CopiesFit, Addressable, Product, Narrow, Whole, TruncDiv, StepInPlace, Inside, WholeSizes;
    if iov[i].size > 0 {
      SelectedFits(iov, elemLen, count, extent, total, i);
      TargetsThenAddressable(dims, elemLen, iov, count, extent, j, i);
    } else {
      WholeOfNothing(elemLen);
    }
  }

  // ---------------------------------------------------------------------------------------------
  // Sizes
  // ---------------------------------------------------------------------------------------------

  /** Whole elements hold all bytes of the segments exactly if every segment's size is a multiple. */
  lemma {:induction false} WholeTotal(iov: Typemap, elemLen: nat)
    requires elemLen > 0
    ensures ElementCount(iov, elemLen) * elemLen <= Size(iov)
    ensures ElementCount(iov, elemLen) * elemLen == Size(iov) <==> WholeSizes(iov, elemLen)
  {
    if |iov| > 0 {
      var n := |iov| - 1;
      WholeTotal(iov[..n], elemLen);
      WholeOrLess(iov[n].size, elemLen);
      hide Whole;
      Distribute(ElementCount(iov[..n], elemLen), Whole(iov[n].size, elemLen), elemLen);
      assert WholeSizes(iov, elemLen) <==> WholeSizes(iov[..n], elemLen) && iov[n].size % elemLen == 0;
    }
  }

  lemma WholeOrLess(bytes: nat, elemLen: nat)
    requires elemLen > 0
    ensures Whole(bytes, elemLen) * elemLen <= bytes
    ensures Whole(bytes, elemLen) * elemLen == bytes <==> bytes % elemLen == 0
  {
    Split(bytes, elemLen);
  }

  lemma TransferLength(st: State, count: nat, h: Handle, extent: int, at: int)
    requires MpiState.Valid(st) && h.Derived? && Exists(st, h)
    ensures |Addresses(Block(count, EntriesOf(st, h), extent, 0), at)| == count * |Addresses(IovOf(st, h), 0)|
    ensures Size(Transfer(st, count, h)) == count * |Addresses(IovOf(st, h), 0)|
  {
    assert FaithfulIov(st.types[h.id]);
    hide Addresses, Block;
    BlockLength(count, EntriesOf(st, h), extent, at);
    BlockLength(count, EntriesOf(st, h), ExtentOf(st, h), 0);
    AddressesLength(Transfer(st, count, h), 0);
  }

  lemma ComposedLength(dims: seq<Dim>, elemLen: nat, size: nat, iov: Typemap, count: nat, step: int, base: int)
    requires elemLen > 0
    ensures Size(Compose(dims, elemLen, size, iov, count, step)) == (count * ElementCount(iov, elemLen)) * size
    ensures |Addresses(Compose(dims, elemLen, size, iov, count, step), base)|
         == (count * ElementCount(iov, elemLen)) * size
  {
    hide *;
    ComposeSizes(dims, elemLen, size, iov, count, step);
    SizeOfUniform(Compose(dims, elemLen, size, iov, count, step), size);
    AddressesLength(Compose(dims, elemLen, size, iov, count, step), base);
  }

  /** A list of elements of a smaller size is as long as the segments only if it is empty or complete. */
  lemma SizesForced(iov: Typemap, elemLen: nat, size: nat, count: nat)
    requires elemLen > 0 && size <= elemLen && count > 0 && Size(iov) > 0
    requires (count * ElementCount(iov, elemLen)) * size == count * Size(iov)
    ensures size == elemLen && WholeSizes(iov, elemLen)
  {
    var n := ElementCount(iov, elemLen);
    WholeTotal(iov, elemLen);
    hide ElementCount, Size, WholeSizes;
    MulAssoc(count, n, size);
    SameMultiple(count, n * size, Size(iov));
    MulMono(size, elemLen, n);
    assert n * size == n * elemLen == Size(iov);
    SameMultiple(n, size, elemLen);
  }

  // ---------------------------------------------------------------------------------------------
  // The composed datatype
  // ---------------------------------------------------------------------------------------------

  /** The bytes of the section that `count` copies of the user's datatype mean: those that it selects from the
      contiguous array that the section stands for. */
  function Meant(st: State, desc: Descriptor, count: nat, h: Handle): seq<int>
    requires Exists(st, h) && desc.elemLen > 0
  {
    Mapped(desc.dims, desc.elemLen, desc.base, Addresses(Transfer(st, count, h), 0))
  }

  /** What a caller must see to: a section of an array, with a known number of elements whose type is no longer
      than they are (it is as long, but for character), and copies that lie within it. */
  predicate Selects(st: State, desc: Descriptor, count: nat, h: Handle) {
    && h.Derived? && Exists(st, h) && 0 < desc.elemLen && ElementSize(desc.ctype) <= desc.elemLen
    && |desc.dims| <= CFI_MAX_RANK && NonNegative(desc.dims) && Product(desc.dims) < 0x8000_0000_0000_0000
    && CopiesFit(IovOf(st, h), count, ExtentOf(st, h), Product(desc.dims) * desc.elemLen)
  }

  /** The condition: a known element type, fewer than INT_MAX elements, and, unless there is nothing to select,
      elements of the type's size, segments of whole elements, copies at the right distance, and all of it among
      the elements whose addresses are in place. */
  predicate Faithful(st: State, desc: Descriptor, count: nat, h: Handle)
    requires Exists(st, h) && desc.elemLen > 0
  {
    var iov := IovOf(st, h);
    && ToMpiType(desc.ctype) != Null && count * ElementCount(iov, desc.elemLen) < INT_MAX
    && (count == 0 || Size(iov) == 0
        || (ElementSize(desc.ctype) == desc.elemLen
            && PlacesRight(desc.dims, desc.elemLen, iov, count, ExtentOf(st, h))))
  }

  lemma AddressableInside(elemLen: nat, iov: Typemap, count: nat, extent: int, dims: seq<Dim>)
    requires elemLen > 0 && Inside(elemLen, iov, count, extent, Addressable(dims))
    ensures Inside(elemLen, iov, count, extent, Product(Narrow(dims)))
  {
    hide Product, Narrow, Intact, Whole, TruncDiv;
    forall j | 0 <= j < count ensures CopyInside(elemLen, iov, j, extent, Product(Narrow(dims))) {
      assert CopyInside(elemLen, iov, j, extent, Addressable(dims));
    }
  }

  lemma NothingToSelect(st: State, desc: Descriptor, count: nat, h: Handle)
    requires MpiState.Valid(st) && Selects(st, desc, count, h) && (count == 0 || Size(IovOf(st, h)) == 0)
    ensures IndexedCode(st, desc, count, h) == Success <==> ToMpiType(desc.ctype) != Null
    ensures count * ElementCount(IovOf(st, h), desc.elemLen) == 0
    ensures Addresses(SubarrayEntries(st, desc, count, h), desc.base) == Meant(st, desc, count, h) == []
  {
    var dims, elemLen, iov, extent := desc.dims, desc.elemLen, IovOf(st, h), ExtentOf(st, h);
    WholeTotal(iov, elemLen);
    hide Compose, Product, Narrow, Inside, AddressCode, MpiState.Valid, Size, Block, ElementCount, CopiesFit;
    ProductSign(dims);
    AddressCodeInRange(dims);
    TransferLength(st, count, h, extent, 0);
    AddressesLength(iov, 0);
    SameMultiple(count, ElementCount(iov, elemLen), 0);
    if count > 0 { MulMono(1, elemLen, ElementCount(iov, elemLen)); }
    NothingSelected(Narrow(dims), elemLen, ElementSize(desc.ctype), iov, count, extent);
    NoAddresses(desc.base);
    NothingInside(elemLen, iov, count, extent, Product(Narrow(dims)));
    assert |Meant(st, desc, count, h)| == 0;
  }

  lemma NothingInside(elemLen: nat, iov: Typemap, count: nat, extent: int, total: int)
    requires elemLen > 0 && (count == 0 || ElementCount(iov, elemLen) == 0)
    ensures Inside(elemLen, iov, count, extent, total)
  {
    hide ShiftInside, ElementCount;
    forall j | 0 <= j < count ensures CopyInside(elemLen, iov, j, extent, total) {
      NoElements(iov, elemLen, j * extent, total);
    }
  }

  lemma SegmentWithBytes(iov: Typemap) returns (s: nat)
    requires Size(iov) > 0
    ensures s < |iov| && iov[s].size > 0
  {
    s := |iov| - 1;
    if iov[s].size == 0 { s := SegmentWithBytes(iov[..s]); }
  }

  lemma AcceptedInside(st: State, desc: Descriptor, count: nat, h: Handle)
    requires Selects(st, desc, count, h) && ToMpiType(desc.ctype) != Null
    requires count * ElementCount(IovOf(st, h), desc.elemLen) < INT_MAX
    requires Inside(desc.elemLen, IovOf(st, h), count, ExtentOf(st, h), Product(Narrow(desc.dims)))
    ensures IndexedCode(st, desc, count, h) == Success
  {
    hide Product, Narrow, Inside, AddressCode, Size, ElementCount, CopiesFit, Whole;
    ProductSign(desc.dims);
    AddressCodeInRange(desc.dims);
  }

  /** What the condition gives, where there is something to select. */
  lemma FaithfulParts(st: State, desc: Descriptor, count: nat, h: Handle)
    requires MpiState.Valid(st) && Selects(st, desc, count, h)
    requires Faithful(st, desc, count, h) && count > 0 && Size(IovOf(st, h)) > 0
    ensures var dims, elemLen, iov, extent := desc.dims, desc.elemLen, IovOf(st, h), ExtentOf(st, h);
            && elemLen > 0 && NonNegative(dims) && CopiesFit(iov, count, extent, Product(dims) * elemLen)
            && ToMpiType(desc.ctype) != Null && count * ElementCount(iov, elemLen) < INT_MAX
            && ElementSize(desc.ctype) == elemLen && PlacesRight(dims, elemLen, iov, count, extent)
            && WholeSizes(iov, elemLen)
    ensures Addresses(IovOf(st, h), 0) == Addresses(EntriesOf(st, h), 0)
  {
    assert FaithfulIov(st.types[h.id]);
    hide Addresses, Size, ElementCount, Inside, CopiesFit, Product, Narrow, MpiState.Valid, StepInPlace;
    WholeElementsWholeSizes(IovOf(st, h), desc.elemLen);
  }

  lemma FaithfulIsExact(st: State, desc: Descriptor, count: nat, h: Handle)
    requires MpiState.Valid(st) && Selects(st, desc, count, h) && Spaced(desc.dims, desc.elemLen)
    requires Faithful(st, desc, count, h) && count > 0 && Size(IovOf(st, h)) > 0
    ensures IndexedCode(st, desc, count, h) == Success
    ensures Addresses(SubarrayEntries(st, desc, count, h), desc.base) == Meant(st, desc, count, h)
  {
    var dims, elemLen, iov, extent := desc.dims, desc.elemLen, IovOf(st, h), ExtentOf(st, h);
    FaithfulParts(st, desc, count, h);
    assert Inside(elemLen, iov, count, extent, Addressable(dims));
    assert SubarrayEntries(st, desc, count, h) == Compose(Narrow(dims), elemLen, elemLen, iov, count, extent);
    assert Transfer(st, count, h) == Block(count, EntriesOf(st, h), extent, 0);
    hide *;
    AddressableInside(elemLen, iov, count, extent, dims);
    AcceptedInside(st, desc, count, h);
    PlacesThenTargets(dims, elemLen, iov, count, extent);
    CopiesExact(dims, elemLen, desc.base, iov, count, extent);
    BlockOfSameBytes(iov, EntriesOf(st, h), count, extent, 0);
  }

  lemma ExactIsFaithful(st: State, desc: Descriptor, count: nat, h: Handle)
    requires MpiState.Valid(st) && Selects(st, desc, count, h) && Spaced(desc.dims, desc.elemLen)
    requires count > 0 && Size(IovOf(st, h)) > 0 && IndexedCode(st, desc, count, h) == Success
    requires Addresses(SubarrayEntries(st, desc, count, h), desc.base) == Meant(st, desc, count, h)
    ensures Faithful(st, desc, count, h)
  {
    var dims, elemLen, iov, extent := desc.dims, desc.elemLen, IovOf(st, h), ExtentOf(st, h);
    assert FaithfulIov(st.types[h.id]);
    assert Inside(elemLen, iov, count, extent, Product(Narrow(dims)));
    hide Compose, Product, Narrow, Inside, AddressCode, MpiState.Valid, Size, Block, ElementCount, CopiesFit;
    hide Addresses, Mapped, WholeSizes, PlacesRight, Spaced, Addressable;
    ComposedLength(Narrow(dims), elemLen, ElementSize(desc.ctype), iov, count, extent, desc.base);
    TransferLength(st, count, h, extent, 0);
    AddressesLength(iov, 0);
    SizesForced(iov, elemLen, ElementSize(desc.ctype), count);
    BlockOfSameBytes(iov, EntriesOf(st, h), count, extent, 0);
    CopiesExact(dims, elemLen, desc.base, iov, count, extent);
    var s := SegmentWithBytes(iov);
    TargetsThenPlaces(dims, elemLen, iov, count, extent, Product(dims) * elemLen, s);
  }

  /** VAPAA_CFI_CREATE_INDEXED makes a datatype of exactly the bytes that the caller means, in their order, if
      and only if the condition holds; otherwise it stops, reads addresses that are not there, or describes other
      bytes. */
  lemma CompositionExact(st: State, desc: Descriptor, count: nat, h: Handle)
    requires MpiState.Valid(st) && Selects(st, desc, count, h) && Spaced(desc.dims, desc.elemLen)
    ensures IndexedCode(st, desc, count, h) == Success
            && Addresses(SubarrayEntries(st, desc, count, h), desc.base) == Meant(st, desc, count, h)
       <==> Faithful(st, desc, count, h)
  {
    hide IndexedCode, SubarrayEntries, Meant, Addresses, PlacesRight, MpiState.Valid, Spaced, CopiesFit, Size;
    if count == 0 || Size(IovOf(st, h)) == 0 {
      NothingToSelect(st, desc, count, h);
    } else {
      if Faithful(st, desc, count, h) { FaithfulIsExact(st, desc, count, h); }
      if IndexedCode(st, desc, count, h) == Success
         && Addresses(SubarrayEntries(st, desc, count, h), desc.base) == Meant(st, desc, count, h) {
        ExactIsFaithful(st, desc, count, h);
      }
    }
  }

  // ---------------------------------------------------------------------------------------------
  // One input for each part of the condition
  // ---------------------------------------------------------------------------------------------

  /** A state with a user-defined datatype of one segment. */
  function WithSegment(st: State, size: nat): State {
    Registered(st, [Entry(0, size)], [Entry(0, size)], size)
  }

  /** Every other element of an array of float. */
  function Strided(): Descriptor {
    Descriptor(0, 4, Float, [Dim(8, 8)])
  }

  /** The caller has seen to everything, but the condition does not hold. */
  predicate Unfaithful(st: State, desc: Descriptor, count: nat, h: Handle) {
    Selects(st, desc, count, h) && !Faithful(st, desc, count, h)
  }

  lemma OneDim(d: Dim)
    requires 0 <= d.extent < 0x8000_0000_0000_0000
    ensures Product([d]) == d.extent && NonNegative([d]) && AddressCode([d]) == Success
    ensures Narrow([d]) == [Dim(Narrowed(d.extent), d.sm)] && Product(Narrow([d])) == Narrowed(d.extent)
  {
    hide AddressCode, Int32, Narrowed;
    OneDimension(d);
    OneDimension(Dim(Narrowed(d.extent), d.sm));
    hide Product;
    AddressCodeInRange([d]);
  }

  lemma OneSegmentExample(size: nat, elemLen: nat, count: nat, total: int)
    requires elemLen > 0 && (count > 0 ==> count * size <= total)
    ensures var iov := [Entry(0, size)];
            Size(iov) == size && ElementCount(iov, elemLen) == size / elemLen && CopiesFit(iov, count, size, total)
  {
    var iov := [Entry(0, size)];
    assert iov[..0] == [] && ElementCount([], elemLen) == 0 && Size([]) == 0;
    forall j | 0 <= j < count ensures CopyFitsAt(iov, size, j, total) {
      MulMono(0, j, size);
      MulMono(j + 1, count, size);
      NextMultiple(size, j);
    }
  }

  lemma OneSelected(dims: seq<Dim>, elemLen: nat, size: nat, bytes: nat, step: int)
    requires |dims| > 0 && elemLen > 0 && bytes / elemLen == 1
    ensures Compose(dims, elemLen, size, [Entry(0, bytes)], 1, step) == [Entry(0, size)]
  {
    var iov := [Entry(0, bytes)];
    DispZero(dims);
    assert iov[..0] == [];
    assert CopyElements(dims, elemLen, size, [], 0) == [] && Compose(dims, elemLen, size, iov, 0, step) == [];
    assert 0 * step == 0;
  }

  lemma OneInside(elemLen: nat, bytes: nat, step: int, total: int)
    requires elemLen > 0 && 0 < bytes / elemLen
    ensures Inside(elemLen, [Entry(0, bytes)], 1, step, total) <==> bytes / elemLen <= total
  {
    var iov := [Entry(0, bytes)];
    assert 0 * step == 0 && TruncDiv(0, elemLen) == 0;
    hide TruncDiv;
    if Inside(elemLen, iov, 1, step, total) {
      assert CopyInside(elemLen, iov, 0, step, total);
      assert SegmentInside(TruncDiv(iov[0].disp, elemLen) + 0, Whole(iov[0].size, elemLen), total);
    }
    if bytes / elemLen <= total {
      forall copy | 0 <= copy < 1 ensures CopyInside(elemLen, iov, copy, step, total) { assert copy == 0; }
    }
  }

  lemma CopyExample(shift: int)
    requires 0 <= shift < 8
    ensures CopyElements([Dim(8, 8)], 4, 4, [Entry(0, 4)], shift) == [Entry(8 * shift, 4)]
    ensures ShiftInside(4, [Entry(0, 4)], shift, 8)
  {
    DispStep([Dim(8, 8)], shift, 0);
    assert [Dim(8, 8)][1..] == [] && [Entry(0, 4)][..0] == [];
    assert CopyElements([Dim(8, 8)], 4, 4, [], shift) == [];
  }

  lemma ComposeTwo(dims: seq<Dim>, iov: Typemap, step: int)
    ensures Compose(dims, 4, 4, iov, 2, step)
         == CopyElements(dims, 4, 4, iov, 0) + CopyElements(dims, 4, 4, iov, step)
    ensures ShiftInside(4, iov, 0, 8) && ShiftInside(4, iov, step, 8) ==> Inside(4, iov, 2, step, 8)
  {
    hide CopyElements, ShiftInside;
    assert 0 * step == 0 && 1 * step == step;
    assert Compose(dims, 4, 4, iov, 0, step) == [];
    assert Compose(dims, 4, 4, iov, 1, step) == CopyElements(dims, 4, 4, iov, 0 * step);
    if ShiftInside(4, iov, 0, 8) && ShiftInside(4, iov, step, 8) {
      forall copy | 0 <= copy < 2 ensures CopyInside(4, iov, copy, step, 8) { assert copy == 0 || copy == 1; }
    }
  }

  lemma StepExample()
    ensures Compose([Dim(8, 8)], 4, 4, [Entry(0, 4)], 2, 4) == [Entry(0, 4), Entry(32, 4)]
    ensures Inside(4, [Entry(0, 4)], 2, 4, 8)
  {
    hide *;
    CopyExample(0);
    CopyExample(4);
    ComposeTwo([Dim(8, 8)], [Entry(0, 4)], 4);
  }

  lemma SegmentState(st: State, size: nat)
    ensures var there, h := WithSegment(st, size), Derived(st.nextType);
            && Exists(there, h) && IovOf(there, h) == EntriesOf(there, h) == [Entry(0, size)]
            && ExtentOf(there, h) == size
  {
  }

  lemma SelectsExample(st: State, desc: Descriptor, d: Dim, size: nat, count: nat)
    requires desc.dims == [d] && 0 < desc.elemLen && ElementSize(desc.ctype) <= desc.elemLen
    requires 0 <= d.extent < 0x8000_0000_0000_0000 && count * size <= d.extent * desc.elemLen
    ensures Selects(WithSegment(st, size), desc, count, Derived(st.nextType))
  {
    SegmentState(st, size);
    hide WithSegment, Product, CopiesFit;
    OneDim(d);
    OneSegmentExample(size, desc.elemLen, count, d.extent * desc.elemLen);
  }

  lemma StridedByte(x: int)
    requires 0 <= x < 8
    ensures ByteOf([Dim(8, 8)], 4, 0, x) == if x < 4 then x else x + 4
  {
    DispStep([Dim(8, 8)], x / 4, 0);
  }

  lemma TwoSegments()
    ensures Addresses(Block(2, [Entry(0, 4)], 4, 0), 0) == Range(0, 8)
  {
    BlockAt(2, [Entry(0, 4)], 4, 0);
    var block := Block(2, [Entry(0, 4)], 4, 0);
    hide Block;
    assert block == [Entry(0, 4), Entry(4, 4)];
    assert block[..1] == [Entry(0, 4)];
    AddressesOfOne(0, 4, 0);
    assert Addresses(block, 0) == Range(0, 4) + Range(4, 4);
  }

  lemma StridedMapped()
    ensures Mapped([Dim(8, 8)], 4, 0, Range(0, 8)) == Range(0, 4) + Range(8, 4)
  {
    hide ByteOf;
    forall x | 0 <= x < 8 ensures ByteOf([Dim(8, 8)], 4, 0, x) == if x < 4 then x else x + 4 { StridedByte(x); }
  }

  lemma MeantExample(st: State)
    ensures Meant(WithSegment(st, 4), Strided(), 2, Derived(st.nextType)) == Range(0, 4) + Range(8, 4)
  {
    SegmentState(st, 4);
    hide WithSegment, Addresses, Block, Mapped, Range;
    TwoSegments();
    StridedMapped();
  }

  lemma StepUnfaithful(st: State, size: nat)
    requires 0 < size <= 16
    ensures Unfaithful(WithSegment(st, size), Strided(), 2, Derived(st.nextType))
  {
    SelectsExample(st, Strided(), Dim(8, 8), size, 2);
    SegmentState(st, size);
    hide WithSegment, Selects, ElementCount, Size, WholeElements, Inside, Product, Narrow, Strided;
    OneSegmentExample(size, 4, 2, 32);
    assert !StepInPlace(4, 2, size);
  }

  lemma StepAccepted(st: State)
    ensures var there, h := WithSegment(st, 4), Derived(st.nextType);
            && CreateCode(there, Strided(), 2, h) == Success
            && SubarrayEntries(there, Strided(), 2, h) == [Entry(0, 4), Entry(32, 4)]
  {
    SelectsExample(st, Strided(), Dim(8, 8), 4, 2);
    SegmentState(st, 4);
    hide WithSegment, Selects, Compose, Product, Inside, ElementCount, Narrow, Size, WholeElements;
    StepExample();
    OneDim(Dim(8, 8));
    OneSegmentExample(4, 4, 2, 32);
    AcceptedInside(WithSegment(st, 4), Strided(), 2, Derived(st.nextType));
  }

  /** Copies: two copies of a one-element datatype, on every other element of an array: the second copy selects
      element 4 instead of element 1. */
  lemma ByteStepExample(st: State)
    ensures var h := Derived(st.nextType);
            && Unfaithful(WithSegment(st, 4), Strided(), 2, h)
            && CreateCode(WithSegment(st, 4), Strided(), 2, h) == Success
            && SubarrayEntries(WithSegment(st, 4), Strided(), 2, h) == [Entry(0, 4), Entry(32, 4)]
            && Meant(WithSegment(st, 4), Strided(), 2, h) == Range(0, 4) + Range(8, 4)
  {
    hide *;
    StepUnfaithful(st, 4);
    StepAccepted(st);
    MeantExample(st);
  }

  /** Copies: two copies of a four-element datatype, which together are exactly the section: the second copy
      reads the address of element 16 of 8. */
  lemma OutsideExample(st: State)
    ensures var h := Derived(st.nextType);
            && Unfaithful(WithSegment(st, 16), Strided(), 2, h)
            && CreateCode(WithSegment(st, 16), Strided(), 2, h) == Undefined
  {
    var iov := [Entry(0, 16)];
    assert !CopyInside(4, iov, 1, 16, 8) by {
      assert !SegmentInside(TruncDiv(iov[0].disp, 4) + 16, Whole(iov[0].size, 4), 8);
    }
    StepUnfaithful(st, 16);
    SegmentState(st, 16);
    hide WithSegment, Unfaithful, Compose, Product, AddressCode, ElementCount, Narrow, CopyInside, Size;
    OneDim(Dim(8, 8));
  }

  /** The element type: one copy of an eight-byte datatype on an array of character(8): one byte of the eight
      is described. */
  lemma ElementSizeExample(st: State)
    ensures var desc, h := Descriptor(0, 8, Char, [Dim(4, 16)]), Derived(st.nextType);
            && Unfaithful(WithSegment(st, 8), desc, 1, h)
            && CreateCode(WithSegment(st, 8), desc, 1, h) == Success
            && SubarrayEntries(WithSegment(st, 8), desc, 1, h) == [Entry(0, 1)]
  {
    hide Compose, CopyElements, Product, Inside, AddressCode, ElementCount, Narrow, Size, CopiesFit;
    OneDim(Dim(4, 16));
    OneSelected([Dim(4, 16)], 8, 1, 8, 8);
    OneInside(8, 8, 8, 4);
    OneSegmentExample(8, 8, 1, 32);
  }

  /** Whole elements: one copy of a six-byte datatype, on elements of four bytes: the last two bytes are not
      described. */
  lemma PartialExample(st: State)
    ensures var h := Derived(st.nextType);
            && Unfaithful(WithSegment(st, 6), Strided(), 1, h)
            && CreateCode(WithSegment(st, 6), Strided(), 1, h) == Success
            && SubarrayEntries(WithSegment(st, 6), Strided(), 1, h) == [Entry(0, 4)]
  {
    hide Compose, CopyElements, Product, Inside, AddressCode, ElementCount, Narrow, Size, CopiesFit;
    OneDim(Dim(8, 8));
    OneSelected([Dim(8, 8)], 4, 4, 6, 6);
    OneInside(4, 6, 6, 8);
    OneSegmentExample(6, 4, 1, 32);
    assert !WholeElements([Entry(0, 6)], 4) by { assert [Entry(0, 6)][0].size % 4 != 0; }
  }

  /** Whole elements: one copy of a four-byte datatype that begins two bytes into an element, or two bytes before the
      first: the first element is described, from its first byte on. */
  lemma UnalignedExample(st: State, disp: int)
    requires disp == 2 || disp == -2
    ensures var there, h := Registered(st, [Entry(disp, 4)], [Entry(disp, 4)], 4), Derived(st.nextType);
            && CreateCode(there, Strided(), 1, h) == Success
            && SubarrayEntries(there, Strided(), 1, h) == [Entry(0, 4)]
  {
    hide Product, AddressCode, Narrow, Size;
    var iov := [Entry(disp, 4)];
    OneDim(Dim(8, 8));
    DispZero([Dim(8, 8)]);
    assert iov[..0] == [] && 0 * 4 == 0;
    assert CopyElements([Dim(8, 8)], 4, 4, [], 0) == [] && Compose([Dim(8, 8)], 4, 4, iov, 0, 4) == [];
    assert TruncDiv(disp, 4) == 0 && ElementCount(iov, 4) == 1;
    assert Inside(4, iov, 1, 4, 8) by {
      forall copy | 0 <= copy < 1 ensures CopyInside(4, iov, copy, 4, 8) { assert copy == 0; }
    }
  }

  /** Extents: one copy of an eight-element datatype, on a section of more than INT_MAX elements: the loop over
      them runs to 5, and the copy reads three addresses more, which have not been stored. */
  lemma NarrowExample(st: State)
    ensures var desc, h := Descriptor(0, 4, Float, [Dim(0x1_0000_0005, 8)]), Derived(st.nextType);
            && Unfaithful(WithSegment(st, 32), desc, 1, h)
            && CreateCode(WithSegment(st, 32), desc, 1, h) == Undefined
  {
    var d := Dim(0x1_0000_0005, 8);
    assert Narrowed(d.extent) == 5;
    hide Compose, Product, Inside, AddressCode, ElementCount, Narrow, Narrowed, Size, CopiesFit, Intact;
    OneDim(d);
    OneInside(4, 32, 32, 5);
    OneInside(4, 32, 32, Addressable([d]));
    OneSegmentExample(32, 4, 1, 0x1_0000_0005 * 4);
  }
}
