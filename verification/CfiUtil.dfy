/** source/cfi_util.c, the part for predefined datatypes: from a section to a derived datatype that
    describes its first `count` elements. */
module CfiUtil {
  import opened CInt
  import opened Section
  import opened Typemaps
  import opened MpiState
  import opened MpiLibrary

  /** VAPAA_CFI_TO_MPI_TYPE. */
  function ToMpiType(t: CfiType): Handle {
    match t
    case SignedChar | Char => Named(MpiChar)
    case Int8 => Named(MpiInt8)
    case Int16 => Named(MpiInt16)
    case Int32T => Named(MpiInt32)
    case Int64T => Named(MpiInt64)
    case Float => Named(MpiFloat)
    case Double => Named(MpiDouble)
    case FloatComplex => Named(MpiFloatComplex)
    case DoubleComplex => Named(MpiDoubleComplex)
    case OtherType(_) => Null
  }

  function ElementSize(t: CfiType): nat {
    if ToMpiType(t).Named? then BasicSize(ToMpiType(t).basic) else 0
  }

  // ---------------------------------------------------------------------------------------------
  // Specification
  // ---------------------------------------------------------------------------------------------

  /** The first `count` elements of the section, in array element order. */
  function FirstElements(dims: seq<Dim>, count: nat, size: nat): (t: Typemap)
    ensures |t| == count && forall m :: 0 <= m < count ==> t[m] == Entry(Disp(dims, m), size)
  {
    seq(count, m => Entry(Disp(dims, m), size))
  }

  /** What the loop over the dimensions checks at dimension i. */
  predicate GuardPasses(dims: seq<Dim>, i: nat)
    requires i < |dims|
  {
    dims[i].extent <= INT_MAX && Product(dims[..i + 1]) <= INT_MAX
  }

  predicate GuardsPass(dims: seq<Dim>) {
    forall i :: 0 <= i < |dims| ==> GuardPasses(dims, i)
  }

  /** The case built as an hvector of blocks: whole runs of dimension 0, whose stride equals elem_len. */
  predicate BlockedCase(dims: seq<Dim>, count: int, elemLen: nat) {
    && |dims| >= 2
    && dims[0].extent < count <= dims[0].extent * dims[1].extent
    && count % dims[0].extent == 0
    && dims[0].sm == Int32(elemLen)
  }

  /** Inside a block the library steps by the size of the element type, not by the section's stride. */
  function BuiltDims(desc: Descriptor, count: int): seq<Dim> {
    if BlockedCase(desc.dims, count, desc.elemLen)
    then [Dim(desc.dims[0].extent, ElementSize(desc.ctype))] + desc.dims[1..] else desc.dims
  }

  predicate SizeCheck(count: int, size: nat, elemLen: nat) {
    count >= 0 && ReportedSize(count * size) == Int32(count * Int32(elemLen))
  }

  /** What VAPAA_CFI_CREATE_DATATYPE returns for a predefined datatype, for every section and count. */
  function BuiltinCode(desc: Descriptor, count: int): Code {
    if !GuardsPass(desc.dims) then ErrCount
    else if count > Product(desc.dims) then ErrArg
    else if |desc.dims| >= 15 && count > desc.dims[0].extent * desc.dims[1].extent then ErrArg
    else if count < 0 || ToMpiType(desc.ctype) == Null then Aborted
    else if !SizeCheck(count, ElementSize(desc.ctype), desc.elemLen) then ErrIntern
    else Success
  }

  predicate AcceptsBuiltin(desc: Descriptor, count: int) {
    BuiltinCode(desc, count) == Success
  }

  /** `created` is a new datatype with these entries, and nothing else has changed. */
  ghost predicate IsNewType(before: State, after: State, created: Handle, entries: Typemap) {
    && created.Derived? && before.nextType <= created.id
    && after == Registered(before.(nextType := created.id), entries, entries, NaturalExtent(entries))
  }

  // ---------------------------------------------------------------------------------------------
  // Guards
  // ---------------------------------------------------------------------------------------------

  lemma AssumedSizeProduct(dims: seq<Dim>)
    requires WellFormed(dims) && !NonNegative(dims)
    ensures Product(dims) <= 0
  {
    var n := |dims| - 1;
    ProductPrefix(dims, n);
    assert dims[..n + 1] == dims;
    ProductSign(dims[..n]);
  }

  lemma PositiveProduct(dims: seq<Dim>)
    requires WellFormed(dims) && Product(dims) > 0
    ensures Positive(dims)
  {
    if NonNegative(dims) { ProductSign(dims); } else { AssumedSizeProduct(dims); }
  }

  lemma FitsSsize(total: int, extent: int)
    requires 0 <= total <= INT_MAX && -1 <= extent <= INT_MAX
    ensures Int64(total * extent) == total * extent
    ensures extent >= 0 ==> total * extent >= 0
    ensures extent == -1 ==> total * extent <= 0
  {
    hide Int64;
    if extent >= 0 {
      MulMono(0, total, extent);
      MulMono(total, INT_MAX, extent);
    } else {
      assert total * extent == -total;
    }
  }

  /** The loop over the dimensions: total_elems in 64 bits, leaving at the first extent or partial product
      that an int cannot hold. */
  method CheckedTotal(dims: seq<Dim>) returns (ok: bool, totalElems: int)
    requires WellFormed(dims)
    ensures ok <==> GuardsPass(dims)
    ensures ok ==> totalElems == Product(dims)
  {
    totalElems := 1;
    assert Product(dims[..0]) == 1;
    hide Int64, Product;
    for i := 0 to |dims|
      invariant totalElems == Product(dims[..i]) && totalElems <= INT_MAX
      invariant i < |dims| ==> totalElems >= 0
      invariant forall j :: 0 <= j < i ==> GuardPasses(dims, j)
    {
      var extent := dims[i].extent;
      ghost var before := totalElems;
      ProductPrefix(dims, i);
      totalElems := Int64(totalElems * extent);
      if extent > INT_MAX {
        assert !GuardPasses(dims, i);
        return false, totalElems;
      }
      FitsSsize(before, extent);
      assert totalElems == Product(dims[..i + 1]);
      if totalElems > INT_MAX {
        assert !GuardPasses(dims, i);
        return false, totalElems;
      }
      assert GuardPasses(dims, i);
    }
    ok := true;
    assert dims[..|dims|] == dims;
  }

  lemma IntRange(e0: int, e1: int)
    requires 0 <= e0 <= INT_MAX && -1 <= e1
    ensures e0 * e1 >= -INT_MAX
  {
    if e1 >= 0 { MulMono(0, e0, e1); }
  }

  lemma OneDimension(d: Dim)
    ensures Product([d]) == d.extent && (d.extent <= INT_MAX ==> GuardsPass([d]))
  {
    assert [d][1..] == [] && [d][..1] == [d] && Product([]) == 1;
  }

  lemma ProductOfTwo(a: Dim, b: Dim)
    ensures Product([a, b]) == a.extent * b.extent
  {
    assert [a, b][1..] == [b] && [b][1..] == [];
    assert Product([b]) == b.extent;
  }

  /** After the guards, the int product of the two leading extents is exact, and the remainder by the first
      extent is never by zero. */
  lemma GuardsMakeIntsSafe(dims: seq<Dim>, count: int)
    requires WellFormed(dims) && GuardsPass(dims) && |dims| >= 2 && count <= Product(dims)
    ensures Int32(dims[0].extent) == dims[0].extent && Int32(dims[1].extent) == dims[1].extent
    ensures Int32(dims[0].extent * dims[1].extent) == dims[0].extent * dims[1].extent
    ensures count > dims[0].extent ==> Positive(dims)
    ensures |dims| == 2 ==> Product(dims) == dims[0].extent * dims[1].extent
  {
    var e0, e1 := dims[0].extent, dims[1].extent;
    assert GuardPasses(dims, 0) && GuardPasses(dims, 1);
    assert dims[..2] == [dims[0], dims[1]];
    ProductOfTwo(dims[0], dims[1]);
    IntRange(e0, e1);
    if |dims| == 2 { assert dims[..2] == dims; }
    if count > e0 { PositiveProduct(dims); }
  }

  /** An assumed-size array (last extent -1) has no element count: asking for any element is refused by the
      guards, and so is asking for none, unless another extent is 0. */
  lemma AssumedSizeRejected(desc: Descriptor, count: nat)
    requires WellFormed(desc.dims) && |desc.dims| >= 1 && desc.dims[|desc.dims| - 1].extent == -1
    ensures BuiltinCode(desc, count) !in {ErrCount, ErrArg} ==> count == 0 && Product(desc.dims) == 0
  {
    AssumedSizeProduct(desc.dims);
  }

  /** The final check of the created type's size, for all numbers: it passes exactly when the bytes described and
      those of the section agree modulo 2^32, where more bytes described than an int can hold count as the -32766
      that the library reports for them. */
  lemma SizeCheckModulo(count: int, size: nat, elemLen: nat)
    ensures SizeCheck(count, size, elemLen)
       <==> count >= 0
            && (if count * size <= INT_MAX then (count * elemLen - count * size) % 0x1_0000_0000 == 0
                else (count * elemLen + 32766) % 0x1_0000_0000 == 0)
  {
    if count >= 0 {
      hide Int32;
      Int32Product(count, elemLen, ReportedSize(count * size));
    }
  }

  /** With products that an int can hold it passes exactly when the element type has the section's element
      length, or there are no elements. */
  lemma SizeCheckExact(count: int, size: nat, elemLen: nat)
    requires 0 <= count && count * size <= INT_MAX && count * elemLen <= INT_MAX
    ensures SizeCheck(count, size, elemLen) <==> count == 0 || size == elemLen
  {
    SizeCheckModulo(count, size, elemLen);
    hide SizeCheck;
    SameMultiple(count, size, elemLen);
    assert -INT_MAX <= count * elemLen - count * size <= INT_MAX;
  }

  /** The width in bytes of the C type that each type code names, for the codes that have an element type. */
  function TypeWidth(t: CfiType): nat {
    match t
    case SignedChar | Char | Int8 => 1
    case Int16 => 2
    case Int32T | Float => 4
    case Int64T | Double | FloatComplex => 8
    case DoubleComplex => 16
    case OtherType(_) => 0
  }

  /** Exactly the other codes have no element type, and an element type has the width of the C type. */
  lemma ElementTypes(t: CfiType)
    ensures ToMpiType(t) == Null <==> t.OtherType?
    ensures !ToMpiType(t).Derived? && ElementSize(t) == TypeWidth(t)
  {
  }

  /** In a section that has elements the guards pass exactly if an int holds their number. */
  lemma GuardsMeanFits(dims: seq<Dim>)
    requires Positive(dims)
    ensures GuardsPass(dims) <==> Product(dims) <= INT_MAX
  {
    assert dims[..|dims|] == dims && Product(dims[..0]) == 1;
    hide Product;
    if |dims| > 0 && GuardsPass(dims) { assert GuardPasses(dims, |dims| - 1); }
    if Product(dims) <= INT_MAX {
      forall i | 0 <= i < |dims| ensures GuardPasses(dims, i) {
        PrefixSmaller(dims, i + 1, |dims|);
        PrefixSmaller(dims, i, i);
        ProductPrefix(dims, i);
        MulMono(1, Product(dims[..i]), dims[i].extent);
      }
    }
  }

  /** Elements of fewer dimensions are no more. */
  lemma {:induction false} PrefixSmaller(dims: seq<Dim>, i: nat, j: nat)
    requires Positive(dims) && i <= j <= |dims|
    ensures 1 <= Product(dims[..i]) <= Product(dims[..j])
    decreases j
  {
    hide Product;
    ProductSign(dims[..i]);
    if i < j {
      PrefixSmaller(dims, i, j - 1);
      ProductPrefix(dims, j - 1);
      MulMono(1, dims[j - 1].extent, Product(dims[..j - 1]));
    }
  }

  /** In one that has none they pass exactly if an int holds each extent, and the number of elements of the
      dimensions before the first extent of 0. */
  lemma GuardsOfEmpty(dims: seq<Dim>, z: nat)
    requires NonNegative(dims) && z < |dims| && dims[z].extent == 0 && Positive(dims[..z])
    ensures GuardsPass(dims) <==>
            Product(dims[..z]) <= INT_MAX && forall d :: 0 <= d < |dims| ==> dims[d].extent <= INT_MAX
  {
    assert dims[..z][..z] == dims[..z] && Product(dims[..0]) == 1;
    hide Product;
    forall i | z < i <= |dims| ensures Product(dims[..i]) == 0 {
      EmptyPrefix(dims, z, i);
    }
    if GuardsPass(dims) {
      forall d | 0 <= d < |dims| ensures dims[d].extent <= INT_MAX { assert GuardPasses(dims, d); }
      if z > 0 { assert GuardPasses(dims, z - 1); }
    }
    if Product(dims[..z]) <= INT_MAX && forall d :: 0 <= d < |dims| ==> dims[d].extent <= INT_MAX {
      forall i | 0 <= i < |dims| ensures GuardPasses(dims, i) {
        if i < z {
          PrefixSmaller(dims[..z], i + 1, z);
          assert dims[..z][..i + 1] == dims[..i + 1];
        }
      }
    }
  }

  lemma {:induction false} EmptyPrefix(dims: seq<Dim>, z: nat, i: nat)
    requires z < |dims| && dims[z].extent == 0 && z < i <= |dims|
    ensures Product(dims[..i]) == 0
    decreases i
  {
    hide Product;
    ProductPrefix(dims, i - 1);
    if i - 1 > z { EmptyPrefix(dims, z, i - 1); }
  }

  /** The leading dimensions suffice for rank 15: that many elements, no more, are accepted there. */
  predicate RankAllows(dims: seq<Dim>, count: int) {
    |dims| < 15 || count <= dims[0].extent * dims[1].extent
  }

  /** So a section is accepted exactly when no extent or partial element count is too large, it has `count`
      elements, for rank 15 the count stays within the two leading dimensions, and the bytes of `count` elements of
      its type agree with those of its elements, as far as the final check can tell: where an int holds both,
      exactly if the type is as wide as the elements. */
  lemma AcceptedExactly(desc: Descriptor, count: int)
    requires WellFormed(desc.dims) && !desc.ctype.OtherType?
    ensures AcceptsBuiltin(desc, count) <==>
              && GuardsPass(desc.dims) && 0 <= count <= Product(desc.dims) && RankAllows(desc.dims, count)
              && (if count * TypeWidth(desc.ctype) <= INT_MAX
                  then (count * desc.elemLen - count * TypeWidth(desc.ctype)) % 0x1_0000_0000 == 0
                  else (count * desc.elemLen + 32766) % 0x1_0000_0000 == 0)
    ensures count * desc.elemLen <= INT_MAX && count * TypeWidth(desc.ctype) <= INT_MAX ==>
              (AcceptsBuiltin(desc, count) <==>
                 && GuardsPass(desc.dims) && 0 <= count <= Product(desc.dims) && RankAllows(desc.dims, count)
                 && (count == 0 || desc.elemLen == TypeWidth(desc.ctype)))
  {
    ElementTypes(desc.ctype);
    hide GuardsPass, Product, SizeCheck, ElementSize, TypeWidth, ToMpiType;
    SizeCheckModulo(count, ElementSize(desc.ctype), desc.elemLen);
    if count >= 0 && count * desc.elemLen <= INT_MAX && count * ElementSize(desc.ctype) <= INT_MAX {
      SizeCheckExact(count, ElementSize(desc.ctype), desc.elemLen);
    }
  }

  /** Elements of a section whose type is as wide as they are: accepted exactly while an int holds the number of all
      of them and rank 15 allows it, and, for more bytes than an int holds, if these happen to agree with -32766. */
  lemma ElementsAccepted(desc: Descriptor, count: int)
    requires Positive(desc.dims) && |desc.dims| <= CFI_MAX_RANK && 0 < count
    requires !desc.ctype.OtherType? && desc.elemLen == TypeWidth(desc.ctype)
    ensures AcceptsBuiltin(desc, count) <==>
              && count <= Product(desc.dims) <= INT_MAX && RankAllows(desc.dims, count)
              && (count * desc.elemLen <= INT_MAX || (count * desc.elemLen + 32766) % 0x1_0000_0000 == 0)
  {
    AcceptedExactly(desc, count);
    GuardsMeanFits(desc.dims);
  }

  /** What comes back for a section that has elements, when some are asked for, in order of precedence: too many
      elements in all for an int, more asked for than there are or than rank 15 allows, no element type, and an
      element type of another width. */
  lemma BuiltinOutcome(desc: Descriptor, count: int)
    requires Positive(desc.dims) && |desc.dims| <= CFI_MAX_RANK && 0 < count
    requires count * desc.elemLen <= INT_MAX && count * TypeWidth(desc.ctype) <= INT_MAX
    ensures BuiltinCode(desc, count) ==
            if Product(desc.dims) > INT_MAX then ErrCount
            else if count > Product(desc.dims) || !RankAllows(desc.dims, count) then ErrArg
            else if desc.ctype.OtherType? then Aborted
            else if desc.elemLen != TypeWidth(desc.ctype) then ErrIntern
            else Success
  {
    GuardsMeanFits(desc.dims);
    ElementTypes(desc.ctype);
    hide GuardsPass, Product, SizeCheck, ElementSize, TypeWidth, ToMpiType;
    SizeCheckExact(count, ElementSize(desc.ctype), desc.elemLen);
  }

  /** An accepted section's datatype has exactly its elements. */
  lemma AcceptedEntries(desc: Descriptor, count: int)
    requires WellFormed(desc.dims) && AcceptsBuiltin(desc, count)
    requires count * desc.elemLen <= INT_MAX && count * TypeWidth(desc.ctype) <= INT_MAX
    ensures count >= 0
    ensures var t := FirstElements(BuiltDims(desc, count), count, ElementSize(desc.ctype));
            t == FirstElements(desc.dims, count, desc.elemLen) && Size(t) == count * desc.elemLen
  {
    ElementTypes(desc.ctype);
    hide GuardsPass, Product, SizeCheck, TypeWidth, ToMpiType, ElementSize, Disp;
    SizeCheckExact(count, ElementSize(desc.ctype), desc.elemLen);
    if count > 0 {
      SizeOfUniform(FirstElements(desc.dims, count, desc.elemLen), desc.elemLen);
      if BlockedCase(desc.dims, count, desc.elemLen) { SameStride(desc, count); }
    }
  }

  lemma SameStride(desc: Descriptor, count: int)
    requires BlockedCase(desc.dims, count, desc.elemLen) && 0 < count && count * desc.elemLen <= INT_MAX
    requires desc.elemLen == ElementSize(desc.ctype)
    ensures BuiltDims(desc, count) == desc.dims
  {
    MulMono(1, count, desc.elemLen);
  }

  /** A type that is not as wide as the elements: four elements of a strided array of character(8). */
  lemma CharacterExample()
    ensures BuiltinCode(Descriptor(0, 8, Char, [Dim(4, 16)]), 4) == ErrIntern
  {
    OneDimension(Dim(4, 16));
  }

  /** Each other refusal: an extent that no int holds, more elements than there are, a negative count, and a type
      code without an element type. */
  lemma RefusalExamples(code: int)
    ensures BuiltinCode(Descriptor(0, 4, Float, [Dim(0x8000_0000, 8)]), 1) == ErrCount
    ensures BuiltinCode(Descriptor(0, 4, Float, [Dim(0x1_0000, 8), Dim(0x8000, 0x10_0000)]), 1) == ErrCount
    ensures BuiltinCode(Descriptor(0, 4, Float, [Dim(4, 8)]), 5) == ErrArg
    ensures BuiltinCode(Descriptor(0, 4, Float, [Dim(4, 8)]), -1) == Aborted
    ensures BuiltinCode(Descriptor(0, 4, OtherType(code), [Dim(4, 8)]), 4) == Aborted
  {
    OneDimension(Dim(4, 8));
    assert !GuardPasses([Dim(0x8000_0000, 8)], 0);
    var large := [Dim(0x1_0000, 8), Dim(0x8000, 0x10_0000)];
    ProductOfTwo(large[0], large[1]);
    assert large[..2] == large;
    assert !GuardPasses(large, 1);
  }

  lemma PaddedGuards(dims: seq<Dim>, rank: nat)
    requires |dims| <= rank && GuardsPass(dims)
    ensures GuardsPass(Padded(dims, rank))
  {
    var padded := Padded(dims, rank);
    assert Product(dims) <= INT_MAX by {
      assert dims == dims[..|dims|];
      assert |dims| > 0 ==> GuardPasses(dims, |dims| - 1);
    }
    forall i | 0 <= i < rank ensures GuardPasses(padded, i) {
      if i < |dims| {
        assert GuardPasses(dims, i);
        assert padded[..i + 1] == dims[..i + 1];
      } else {
        assert padded[..i + 1] == Padded(dims, i + 1);
        PaddedProduct(dims, i + 1);
      }
    }
  }

  function Cube(sm: int): seq<Dim> {
    [Dim(2, sm), Dim(2, 2 * sm), Dim(2, 4 * sm)]
  }

  lemma CubeProduct(sm: int)
    ensures Product(Cube(sm)) == 8 && GuardsPass(Cube(sm))
  {
    var dims := Cube(sm);
    assert dims[..0] == [] && Product([]) == 1;
    ProductPrefix(dims, 0);
    ProductPrefix(dims, 1);
    ProductPrefix(dims, 2);
    assert dims[..3] == dims;
  }

  /** Five elements of a 2 by 2 by 2 section, described with further dimensions of extent 1: rank 14 is
      accepted and rank 15 is refused. */
  lemma Rank15Example()
    ensures Product(Padded(Cube(8), 15)) == 8 && GuardsPass(Padded(Cube(8), 15))
    ensures BuiltinCode(Descriptor(0, 4, Float, Padded(Cube(8), 14)), 5) == Success
    ensures BuiltinCode(Descriptor(0, 4, Float, Padded(Cube(8), 15)), 5) == ErrArg
  {
    hide Product, GuardsPass;
    CubeProduct(8);
    PaddedGuards(Cube(8), 14);
    PaddedGuards(Cube(8), 15);
    PaddedProduct(Cube(8), 14);
    PaddedProduct(Cube(8), 15);
  }

  // ---------------------------------------------------------------------------------------------
  // The regular forms
  // ---------------------------------------------------------------------------------------------

  lemma Disp1(dims: seq<Dim>, i0: int)
    requires |dims| >= 1 && 0 <= i0 < dims[0].extent
    ensures Disp(dims, i0) == dims[0].sm * i0
  {
    DispStep(dims, i0, 0);
    DispZero(dims[1..]);
  }

  lemma Disp2(dims: seq<Dim>, i0: int, i1: int)
    requires |dims| >= 2 && 0 <= i0 < dims[0].extent && 0 <= i1 < dims[1].extent
    ensures Disp(dims, i0 + dims[0].extent * i1) == dims[0].sm * i0 + dims[1].sm * i1
  {
    DispStep(dims, i0, i1);
    Disp1(dims[1..], i1);
  }

  lemma Disp3(dims: seq<Dim>, i0: int, i1: int, i2: int, q: int)
    requires |dims| >= 3 && q == i1 + dims[1].extent * i2
    requires 0 <= i0 < dims[0].extent && 0 <= i1 < dims[1].extent && 0 <= i2 < dims[2].extent
    ensures Disp(dims, i0 + dims[0].extent * q) == dims[0].sm * i0 + dims[1].sm * i1 + dims[2].sm * i2
  {
    hide *;
    assert dims[1..][0] == dims[1] && dims[1..][1] == dims[2];
    DispStep(dims, i0, q);
    Disp2(dims[1..], i1, i2);
  }

  lemma SingleBlocks(dims: seq<Dim>, count: nat, size: nat)
    requires |dims| >= 1 && count <= dims[0].extent
    ensures Hvector(count, 1, dims[0].sm, [Entry(0, size)], size) == FirstElements(dims, count, size)
  {
    hide Hvector, Block, Disp;
    var t := Hvector(count, 1, dims[0].sm, [Entry(0, size)], size);
    HvectorLength(count, 1, dims[0].sm, [Entry(0, size)], size);
    forall m | 0 <= m < count ensures t[m] == Entry(Disp(dims, m), size) {
      HvectorAt(count, 1, dims[0].sm, [Entry(0, size)], size, m, 0);
      BlockAt(1, [Entry(0, size)], size, m * dims[0].sm);
      Disp1(dims, m);
    }
  }

  /** m as a pair of subscripts of the two leading dimensions. */
  lemma Split2(dims: seq<Dim>, runs: nat, m: nat)
    requires |dims| >= 2 && dims[0].extent > 0 && runs <= dims[1].extent && m < runs * dims[0].extent
    ensures 0 <= m / dims[0].extent < runs
    ensures m == (m / dims[0].extent) * dims[0].extent + m % dims[0].extent
    ensures Disp(dims, m) == dims[0].sm * (m % dims[0].extent) + dims[1].sm * (m / dims[0].extent)
  {
    var e := dims[0].extent;
    DivBound(m, e, runs);
    assert m == m % e + e * (m / e);
    Disp2(dims, m % e, m / e);
  }

  lemma WholeRuns(e0: int, e1: int, count: int)
    requires 0 < e0 && 0 < count <= e0 * e1 && count % e0 == 0
    ensures 0 < count / e0 <= e1 && count == (count / e0) * e0
  {
    Split(count, e0);
    NextMultiple(e0, e1);
    DivBound(count, e0, e1 + 1);
    DivBound(0, e0, count / e0);
  }

  lemma Blocks(dims: seq<Dim>, runs: nat, size: nat)
    requires |dims| >= 2 && dims[0].extent > 0 && runs <= dims[1].extent && dims[0].sm == size
    ensures Hvector(runs, dims[0].extent, dims[1].sm, [Entry(0, size)], size)
         == FirstElements(dims, runs * dims[0].extent, size)
  {
    hide Hvector, Block, Disp;
    var e := dims[0].extent;
    var t := Hvector(runs, e, dims[1].sm, [Entry(0, size)], size);
    HvectorLength(runs, e, dims[1].sm, [Entry(0, size)], size);
    assert e * |[Entry(0, size)]| == e;
    forall m | 0 <= m < runs * e ensures t[m] == Entry(Disp(dims, m), size) {
      Split2(dims, runs, m);
      HvectorAt(runs, e, dims[1].sm, [Entry(0, size)], size, m / e, m % e);
      BlockAt(e, [Entry(0, size)], size, (m / e) * dims[1].sm);
    }
  }

  lemma NestedRuns(dims: seq<Dim>, runs: nat, size: nat, innerExtent: int)
    requires |dims| >= 2 && dims[0].extent > 0 && runs <= dims[1].extent
    ensures Hvector(runs, 1, dims[1].sm, Hvector(dims[0].extent, 1, dims[0].sm, [Entry(0, size)], size), innerExtent)
         == FirstElements(dims, runs * dims[0].extent, size)
  {
    hide Hvector, Block, Disp;
    var e := dims[0].extent;
    SingleBlocks(dims, e, size);
    var inner := FirstElements(dims, e, size);
    var t := Hvector(runs, 1, dims[1].sm, inner, innerExtent);
    HvectorLength(runs, 1, dims[1].sm, inner, innerExtent);
    assert 1 * |inner| == e;
    forall m | 0 <= m < runs * e ensures t[m] == Entry(Disp(dims, m), size) {
      Split2(dims, runs, m);
      HvectorAt(runs, 1, dims[1].sm, inner, innerExtent, m / e, m % e);
      BlockOfOne(inner, innerExtent, (m / e) * dims[1].sm);
      Disp1(dims, m % e);
    }
  }

  // ---------------------------------------------------------------------------------------------
  // The enumerating nests
  // ---------------------------------------------------------------------------------------------

  method Enumerate2D(dims: seq<Dim>, count: int) returns (displacements: array<int>)
    requires |dims| >= 2 && Positive(dims) && 0 < count <= dims[0].extent * dims[1].extent
    ensures fresh(displacements) && displacements.Length == count
    ensures forall m :: 0 <= m < count ==> displacements[m] == Disp(dims, m)
  {
    hide Disp;
    displacements := new int[count];
    var offset := 0;
    label done2d:
    for i1 := 0 to dims[1].extent
      invariant offset == dims[0].extent * i1 < count
      invariant forall m :: 0 <= m < offset ==> displacements[m] == Disp(dims, m)
    {
      var stride1 := dims[1].sm;
      ghost var row := dims[0].extent * i1;
      for i0 := 0 to dims[0].extent
        invariant offset == i0 + row < count
        invariant forall m :: 0 <= m < offset ==> displacements[m] == Disp(dims, m)
      {
        var stride0 := dims[0].sm;
        displacements[offset] := stride0 * i0 + stride1 * i1;
        Disp2(dims, i0, i1);
        offset := offset + 1;
        if offset == count { break done2d; }
      }
      NextMultiple(dims[0].extent, i1);
    }
    assert offset == count;
  }

  method Enumerate3D(dims: seq<Dim>, count: int) returns (displacements: array<int>)
    requires |dims| == 3 && Positive(dims) && 0 < count <= Product(dims)
    ensures fresh(displacements) && displacements.Length == count
    ensures forall m :: 0 <= m < count ==> displacements[m] == Disp(dims, m)
  {
    hide Disp;
    var e0, e1, e2 := dims[0].extent, dims[1].extent, dims[2].extent;
    assert Product(dims) == e0 * (e1 * e2) by {
      assert dims[1..][1..][1..] == [];
      assert Product(dims[1..][1..]) == e2;
      assert Product(dims[1..]) == e1 * e2;
    }
    displacements := new int[count];
    var offset := 0;
    label done3d:
    for i2 := 0 to e2
      invariant offset == e0 * (e1 * i2) < count
      invariant forall m :: 0 <= m < offset ==> displacements[m] == Disp(dims, m)
    {
      var stride2 := dims[2].sm;
      ghost var plane := e1 * i2;
      for i1 := 0 to e1
        invariant offset == e0 * (i1 + plane) < count
        invariant forall m :: 0 <= m < offset ==> displacements[m] == Disp(dims, m)
      {
        var stride1 := dims[1].sm;
        ghost var row := e0 * (i1 + plane);
        for i0 := 0 to e0
          invariant offset == i0 + row < count
          invariant forall m :: 0 <= m < offset ==> displacements[m] == Disp(dims, m)
        {
          var stride0 := dims[0].sm;
          displacements[offset] := stride0 * i0 + stride1 * i1 + stride2 * i2;
          Disp3(dims, i0, i1, i2, i1 + plane);
          offset := offset + 1;
          if offset == count { break done3d; }
        }
        NextMultiple(e0, i1 + plane);
      }
      NextMultiple(e1, i2);
    }
    assert offset == count;
  }

  /** Loops level - 1 down to 0 of the fifteen-deep nest.  `displacement` is the part of the sum that the
      loops outside contribute and q numbers their iterations; `done` is the jump out of the whole nest. */
  method NestUntil(dims: seq<Dim>, level: nat, ghost q: nat, displacement: int,
                   displacements: array<int>, start: nat, count: nat) returns (offset: nat, done: bool)
    requires NonNegative(dims) && level <= |dims| && displacements.Length == count
    requires start == q * Product(dims[..level]) && start < count
    requires displacement == Disp(dims[level..], q)
    requires forall m :: 0 <= m < start ==> displacements[m] == Disp(dims, m)
    modifies displacements
    ensures done ==> offset == count
    ensures !done ==> offset == (q + 1) * Product(dims[..level]) && offset < count
    ensures forall m :: 0 <= m < offset ==> displacements[m] == Disp(dims, m)
    decreases level
  {
    offset := start;
    if level == 0 {
      displacements[offset] := displacement;
      offset := offset + 1;
      assert dims[0..] == dims;
      return offset, offset == count;
    }
    var dim := dims[level - 1];
    ghost var inner := Product(dims[..level - 1]);
    ProductPrefix(dims, level - 1);
    assert q * (inner * dim.extent) == (q * dim.extent + 0) * inner by { Regroup(q, inner, dim.extent, 0); }
    for i := 0 to dim.extent
      invariant offset == (q * dim.extent + i) * inner && offset < count
      invariant forall m :: 0 <= m < offset ==> displacements[m] == Disp(dims, m)
    {
      var stride := dim.sm;
      assert dims[level - 1..][1..] == dims[level..];
      DispStep(dims[level - 1..], i, q);
      offset, done := NestUntil(dims, level - 1, q * dim.extent + i, displacement + stride * i,
                                displacements, offset, count);
      if done { return; }
    }
    assert (q + 1) * (inner * dim.extent) == (q * dim.extent + dim.extent) * inner by {
      Regroup(q, inner, dim.extent, dim.extent);
      Regroup(q + 1, inner, dim.extent, 0);
    }
    done := false;
  }

  lemma Regroup(q: int, inner: int, e: int, i: int)
    ensures q * (inner * e) == (q * e) * inner
    ensures (q * e + i) * inner == q * (inner * e) + i * inner
    ensures (q + 1) * e == q * e + e
  {
  }

  method Enumerate15D(dims: seq<Dim>, count: int) returns (displacements: array<int>)
    requires |dims| <= CFI_MAX_RANK && Positive(dims) && 0 < count <= Product(dims)
    ensures fresh(displacements) && displacements.Length == count
    ensures forall m :: 0 <= m < count ==> displacements[m] == Disp(dims, m)
  {
    displacements := new int[count];
    var padded := Padded(dims, CFI_MAX_RANK);
    PaddedProduct(dims, CFI_MAX_RANK);
    assert padded[..15] == padded && padded[15..] == [];
    var offset, done := NestUntil(padded, 15, 0, 0, displacements, 0, count);
    assert done;
    forall m | 0 <= m < count ensures displacements[m] == Disp(dims, m) {
      DispAppend(dims, padded[|dims|..], m);
      assert padded == dims + padded[|dims|..];
    }
  }

  // ---------------------------------------------------------------------------------------------
  // VAPAA_CFI_CREATE_DATATYPE for a predefined input datatype
  // ---------------------------------------------------------------------------------------------

  /** array_of_blocklengths, and the hindexed datatype of one element per displacement. */
  method CreateHindexedOfOnes(lib: Mpi, dims: seq<Dim>, count: nat, displacements: array<int>, elementType: Handle)
    returns (rc: Code, created: Handle)
    requires lib.Valid() && elementType.Derived? == false
    requires displacements.Length == count
    requires forall m :: 0 <= m < count ==> displacements[m] == Disp(dims, m)
    modifies lib
    ensures lib.Valid() && old(lib.history) <= lib.history
    ensures SameOperations(old(lib.state), lib.state)
    ensures rc == Success <==> elementType.Named?
    ensures rc == Success ==>
              IsNewType(old(lib.state), lib.state, created, FirstElements(dims, count, BasicSize(elementType.basic)))
  {
    var blocklengths := new nat[count];
    for i := 0 to count
      modifies blocklengths
      invariant forall j :: 0 <= j < i ==> blocklengths[j] == 1
    {
      blocklengths[i] := 1;
    }
    rc, created := lib.TypeCreateHindexed(count, blocklengths, displacements, elementType);
    if rc == Success {
      var size := BasicSize(elementType.basic);
      HindexedOfOnes(blocklengths[..count], displacements[..count], size);
      assert Hindexed(blocklengths[..count], displacements[..count], [Entry(0, size)], size)
          == FirstElements(dims, count, size);
    }
  }

  /** An hvector of a temporary hvector, which is freed again. */
  method CreateNested(lib: Mpi, extent0: int, stride0: int, runs: int, stride1: int, elementType: Handle)
    returns (rc: Code, created: Handle)
    requires lib.Valid() && !elementType.Derived? && extent0 >= 0 && runs >= 0
    modifies lib
    ensures lib.Valid() && old(lib.history) <= lib.history
    ensures SameOperations(old(lib.state), lib.state)
    ensures rc == Success <==> elementType.Named?
    ensures rc == Success ==>
              var size := BasicSize(elementType.basic);
              var inner := Hvector(extent0, 1, stride0, [Entry(0, size)], size);
              IsNewType(old(lib.state), lib.state, created, Hvector(runs, 1, stride1, inner, NaturalExtent(inner)))
  {
    hide NaturalExtent, Hvector, MpiState.Valid;
    ghost var start := lib.state;
    var temp;
    rc, temp := lib.TypeCreateHvector(extent0, 1, stride0, elementType);
    if rc != Success { return rc, Null; }
    ghost var inner := Hvector(extent0, 1, stride0, EntriesOf(start, elementType), ExtentOf(start, elementType));
    rc, created := lib.TypeCreateHvector(runs, 1, stride1, temp);
    ghost var outer := Hvector(runs, 1, stride1, inner, NaturalExtent(inner));
    assert lib.state == Registered(Registered(start, inner, inner, NaturalExtent(inner)),
                                   outer, outer, NaturalExtent(outer));
    TemporaryFreed(start, inner, NaturalExtent(inner), outer, NaturalExtent(outer));
    rc := lib.TypeFree(temp);
  }

  /** Whole runs of dimension 0 in one or two hvectors, or a count that ends inside a run. */
  method CreateTwoDimensional(lib: Mpi, desc: Descriptor, count: int, elementType: Handle)
    returns (rc: Code, created: Handle)
    requires lib.Valid() && elementType == ToMpiType(desc.ctype)
    requires |desc.dims| >= 2 && Positive(desc.dims)
    requires desc.dims[0].extent < count <= desc.dims[0].extent * desc.dims[1].extent
    modifies lib
    ensures lib.Valid() && old(lib.history) <= lib.history
    ensures SameOperations(old(lib.state), lib.state)
    ensures rc == Success <==> elementType.Named?
    ensures rc == Success ==>
              IsNewType(old(lib.state), lib.state, created,
                        FirstElements(BuiltDims(desc, count), count, ElementSize(desc.ctype)))
  {
    var extent0, stride0 := desc.dims[0].extent, desc.dims[0].sm;
    if count % extent0 == 0 {
      WholeRuns(extent0, desc.dims[1].extent, count);
      if stride0 == Int32(desc.elemLen) {
        rc, created := lib.TypeCreateHvector(count / extent0, extent0, desc.dims[1].sm, elementType);
        Blocks(BuiltDims(desc, count), count / extent0, ElementSize(desc.ctype));
      } else {
        rc, created := CreateNested(lib, extent0, stride0, count / extent0, desc.dims[1].sm, elementType);
        if rc == Success {
          var size := ElementSize(desc.ctype);
          NestedRuns(desc.dims, count / extent0, size,
                     NaturalExtent(Hvector(extent0, 1, stride0, [Entry(0, size)], size)));
        }
      }
    } else {
      var displacements := Enumerate2D(desc.dims, count);
      rc, created := CreateHindexedOfOnes(lib, desc.dims, count, displacements, elementType);
    }
  }

  method CreateDatatype15D(lib: Mpi, desc: Descriptor, count: int, input: Handle) returns (rc: Code, created: Handle)
    requires lib.Valid()
    requires |desc.dims| <= CFI_MAX_RANK && Positive(desc.dims) && 0 < count <= Product(desc.dims)
    modifies lib
    ensures lib.Valid() && old(lib.history) <= lib.history
    ensures SameOperations(old(lib.state), lib.state)
    ensures rc == ErrArg <==> !input.Named?
    ensures rc == Success <==> input.Named? && ToMpiType(desc.ctype).Named?
    ensures rc == Success ==>
              IsNewType(old(lib.state), lib.state, created,
                        FirstElements(desc.dims, count, ElementSize(desc.ctype)))
  {
    if !input.Named? { return ErrArg, Null; }
    var displacements := Enumerate15D(desc.dims, count);
    rc, created := CreateHindexedOfOnes(lib, desc.dims, count, displacements, ToMpiType(desc.ctype));
    if rc != Success { rc := Aborted; }
  }

  /** The choice of form, once the guards have passed. */
  method CreateForm(lib: Mpi, desc: Descriptor, count: int, input: Handle) returns (rc: Code, created: Handle)
    requires lib.Valid() && input.Named?
    requires WellFormed(desc.dims) && |desc.dims| >= 1
    requires GuardsPass(desc.dims) && count <= Product(desc.dims)
    modifies lib
    ensures lib.Valid() && old(lib.history) <= lib.history
    ensures SameOperations(old(lib.state), lib.state)
    ensures rc == (if |desc.dims| >= 15 && count > desc.dims[0].extent * desc.dims[1].extent then ErrArg
                   else if count < 0 || ToMpiType(desc.ctype) == Null then Aborted else Success)
    ensures rc == Success ==>
              IsNewType(old(lib.state), lib.state, created,
                        FirstElements(BuiltDims(desc, count), count, ElementSize(desc.ctype)))
    ensures rc == ErrArg ==> lib.state == old(lib.state)
  {
    hide Hvector, Disp, NaturalExtent, MpiState.Valid;
    created := Null;
    var rank, elementType := |desc.dims|, ToMpiType(desc.ctype);

    // with rank 1 the second extent is whatever lies behind the descriptor; it is read and never used
    var extent0 := Int32(desc.dims[0].extent);
    var extent1: int := *;
    if rank > 1 {
      extent1 := Int32(desc.dims[1].extent);
      GuardsMakeIntsSafe(desc.dims, count);
    }

    if rank == 1 || count <= extent0 {
      LeadingRun(desc.dims, count);
      rc, created := lib.TypeCreateHvector(count, 1, desc.dims[0].sm, elementType);
      if rc != Success { return Aborted, created; }
      SingleBlocks(desc.dims, count, ElementSize(desc.ctype));
    } else if rank == 2 || count <= Int32(extent0 * extent1) {
      rc, created := CreateTwoDimensional(lib, desc, count, elementType);
      if rc != Success { return Aborted, created; }
    } else if rank == 3 {
      var displacements := Enumerate3D(desc.dims, count);
      rc, created := CreateHindexedOfOnes(lib, desc.dims, count, displacements, elementType);
      if rc != Success { return Aborted, created; }
    } else if rank < 15 {
      rc, created := CreateDatatype15D(lib, desc, count, input);
      if rc != Success { return Aborted, created; }
    } else {
      return ErrArg, created;
    }
  }

  lemma LeadingRun(dims: seq<Dim>, count: int)
    requires WellFormed(dims) && |dims| >= 1 && count <= Product(dims)
    requires |dims| == 1 || count <= dims[0].extent
    ensures count <= dims[0].extent
    ensures |dims| >= 3 ==> count <= dims[0].extent * dims[1].extent
  {
    if |dims| == 1 {
      assert dims[1..] == [];
    } else if count > 0 {
      PositiveProduct(dims);
      MulMono(1, dims[1].extent, dims[0].extent);
    } else if |dims| >= 3 {
      MulMono(0, dims[0].extent, dims[1].extent);
    }
  }

  /** After a failed size check the datatype that was made stays registered. */
  method CreateBuiltin(lib: Mpi, desc: Descriptor, count: int, input: Handle) returns (rc: Code, created: Handle)
    requires lib.Valid() && input.Named?
    requires WellFormed(desc.dims) && |desc.dims| >= 1
    modifies lib
    ensures lib.Valid() && old(lib.history) <= lib.history
    ensures SameOperations(old(lib.state), lib.state)
    ensures rc == BuiltinCode(desc, count)
    ensures rc in {Success, ErrIntern} ==>
              IsNewType(old(lib.state), lib.state, created,
                        FirstElements(BuiltDims(desc, count), count, ElementSize(desc.ctype)))
    ensures rc in {ErrCount, ErrArg} ==> lib.state == old(lib.state)
  {
    var ok, totalElems := CheckedTotal(desc.dims);
    if !ok { return ErrCount, Null; }
    if count > totalElems { return ErrArg, Null; }
    rc, created := CreateForm(lib, desc, count, input);
    if rc != Success { return; }
    var typeSize := lib.TypeSize(created);
    SizeOfUniform(FirstElements(BuiltDims(desc, count), count, ElementSize(desc.ctype)), ElementSize(desc.ctype));
    if typeSize != Int32(count * Int32(desc.elemLen)) { return ErrIntern, created; }
  }
}
