/** A Fortran array section as a C descriptor sees it, and the byte displacement of its m-th element in
    array element order.  Dimension 0 is the one that varies fastest. */
module Section {
  import opened CInt

  datatype Dim = Dim(extent: int, sm: int)

  /** The CFI type codes for which an element type is known; everything else is OtherType. */
  datatype CfiType =
    | SignedChar | Char | Int8 | Int16 | Int32T | Int64T
    | Float | Double | FloatComplex | DoubleComplex
    | OtherType(code: int)

  datatype Descriptor = Descriptor(base: int, elemLen: nat, ctype: CfiType, dims: seq<Dim>)

  const CFI_MAX_RANK: nat := 15

  /** Extents as a Fortran processor produces them: never negative, except that the last extent of an
      assumed-size array is -1. */
  predicate WellFormed(dims: seq<Dim>) {
    && |dims| <= CFI_MAX_RANK
    && forall d :: 0 <= d < |dims| ==> dims[d].extent >= 0 || (d == |dims| - 1 && dims[d].extent == -1)
  }

  predicate NonNegative(dims: seq<Dim>) {
    forall d :: 0 <= d < |dims| ==> dims[d].extent >= 0
  }

  predicate Positive(dims: seq<Dim>) {
    forall d :: 0 <= d < |dims| ==> dims[d].extent > 0
  }

  function Product(dims: seq<Dim>): int {
    if |dims| == 0 then 1 else dims[0].extent * Product(dims[1..])
  }

  /** The byte displacement of element m: its mixed-radix digits weighted by the strides. */
  function Disp(dims: seq<Dim>, m: int): int {
    if |dims| == 0 || dims[0].extent <= 0 then 0
    else dims[0].sm * (m % dims[0].extent) + Disp(dims[1..], m / dims[0].extent)
  }

  // ---------------------------------------------------------------------------------------------
  // Array element order: subscripts, positions, and why Disp is the right displacement
  // ---------------------------------------------------------------------------------------------

  predicate ValidSubscripts(dims: seq<Dim>, ss: seq<int>) {
    |ss| == |dims| && forall d :: 0 <= d < |dims| ==> 0 <= ss[d] < dims[d].extent
  }

  /** The subscript order value, counted from 0: s0 + e0 * (s1 + e1 * (s2 + ...)). */
  function Position(dims: seq<Dim>, ss: seq<int>): int
    requires |ss| == |dims|
  {
    if |dims| == 0 then 0 else ss[0] + dims[0].extent * Position(dims[1..], ss[1..])
  }

  /** Where the element with these subscripts lies, relative to the base address. */
  function ByteOffset(dims: seq<Dim>, ss: seq<int>): int
    requires |ss| == |dims|
  {
    if |dims| == 0 then 0 else dims[0].sm * ss[0] + ByteOffset(dims[1..], ss[1..])
  }

  /** The subscripts of element m. */
  function Subscripts(dims: seq<Dim>, m: int): (ss: seq<int>)
    requires Positive(dims)
    ensures |ss| == |dims|
  {
    if |dims| == 0 then [] else [m % dims[0].extent] + Subscripts(dims[1..], m / dims[0].extent)
  }

  /** Subscripts and Position are inverse to each other between the element numbers and the subscript
      tuples, and Disp is the byte offset of the tuple at position m. */
  lemma {:induction false} SubscriptsOfPosition(dims: seq<Dim>, m: int)
    requires Positive(dims) && 0 <= m < Product(dims)
    ensures ValidSubscripts(dims, Subscripts(dims, m))
    ensures Position(dims, Subscripts(dims, m)) == m
    ensures ByteOffset(dims, Subscripts(dims, m)) == Disp(dims, m)
  {
    if |dims| > 0 {
      var e, tail := dims[0].extent, dims[1..];
      Split(m, e);
      DivBound(m, e, Product(tail));
      SubscriptsOfPosition(tail, m / e);
      assert Subscripts(dims, m)[1..] == Subscripts(tail, m / e);
    }
  }

  lemma {:induction false} PositionOfSubscripts(dims: seq<Dim>, ss: seq<int>)
    requires Positive(dims) && ValidSubscripts(dims, ss)
    ensures 0 <= Position(dims, ss) < Product(dims)
    ensures Subscripts(dims, Position(dims, ss)) == ss
  {
    if |dims| > 0 {
      var e, tail := dims[0].extent, dims[1..];
      var q := Position(tail, ss[1..]);
      PositionOfSubscripts(tail, ss[1..]);
      DivModUnique(ss[0], e, q);
      DivBound(Position(dims, ss), e, Product(tail));
      assert ss == [ss[0]] + ss[1..];
    }
  }

  // ---------------------------------------------------------------------------------------------
  // Facts about Product and Disp that the loops use
  // ---------------------------------------------------------------------------------------------

  lemma {:induction false} ProductSnoc(dims: seq<Dim>, d: Dim)
    ensures Product(dims + [d]) == Product(dims) * d.extent
  {
    if |dims| == 0 {
      assert (dims + [d])[1..] == [];
    } else {
      var e, tail := dims[0].extent, dims[1..];
      assert (dims + [d])[1..] == tail + [d];
      ProductSnoc(tail, d);
      assert e * (Product(tail) * d.extent) == (e * Product(tail)) * d.extent;
    }
  }

  lemma {:induction false} ProductOfUnits(dims: seq<Dim>, rest: seq<Dim>)
    requires forall d :: 0 <= d < |rest| ==> rest[d].extent == 1
    ensures Product(dims + rest) == Product(dims)
    decreases |rest|
  {
    if |rest| == 0 {
      assert dims + rest == dims;
    } else {
      assert dims + rest == (dims + [rest[0]]) + rest[1..];
      ProductOfUnits(dims + [rest[0]], rest[1..]);
      ProductSnoc(dims, rest[0]);
    }
  }

  lemma ProductPrefix(dims: seq<Dim>, i: nat)
    requires i < |dims|
    ensures Product(dims[..i + 1]) == Product(dims[..i]) * dims[i].extent
  {
    assert dims[..i + 1] == dims[..i] + [dims[i]];
    ProductSnoc(dims[..i], dims[i]);
  }

  lemma {:induction false} ProductSign(dims: seq<Dim>)
    requires NonNegative(dims)
    ensures Product(dims) >= 0
    ensures Product(dims) > 0 <==> Positive(dims)
  {
    if |dims| > 0 {
      var e, tail := dims[0].extent, dims[1..];
      ProductSign(tail);
      assert Positive(dims) <==> e > 0 && Positive(tail);
      if e > 0 && Product(tail) > 0 {
        assert e * Product(tail) > 0;
      } else if e == 0 {
        assert e * Product(tail) == 0;
      }
    }
  }

  lemma {:induction false} DispZero(dims: seq<Dim>)
    ensures Disp(dims, 0) == 0
  {
    if |dims| > 0 && dims[0].extent > 0 {
      DivModUnique(0, dims[0].extent, 0);
      DispZero(dims[1..]);
    }
  }

  /** One step of a loop nest: i is the innermost index and q numbers the iterations of the outer loops. */
  lemma DispStep(dims: seq<Dim>, i: int, q: int)
    requires |dims| > 0 && 0 <= i < dims[0].extent
    ensures Disp(dims, i + dims[0].extent * q) == dims[0].sm * i + Disp(dims[1..], q)
  {
    DivModUnique(i, dims[0].extent, q);
  }

  /** Elements numbered below the size of the leading dimensions need only those dimensions, so
      appending dimensions (in particular, padding with extent 1 and stride 0) changes nothing. */
  lemma {:induction false} DispAppend(dims: seq<Dim>, rest: seq<Dim>, m: int)
    requires Positive(dims) && 0 <= m < Product(dims)
    ensures Disp(dims + rest, m) == Disp(dims, m)
  {
    if |dims| == 0 {
      assert dims + rest == rest;
      DispZero(rest);
    } else {
      var e, tail := dims[0].extent, dims[1..];
      assert (dims + rest)[1..] == tail + rest;
      DivBound(m, e, Product(tail));
      DispAppend(tail, rest, m / e);
    }
  }

  /** Padding to more dimensions, as the fifteen-deep nests do. */
  function Padded(dims: seq<Dim>, rank: nat): (r: seq<Dim>)
    requires |dims| <= rank
    ensures |r| == rank
  {
    dims + seq(rank - |dims|, _ => Dim(1, 0))
  }

  lemma PaddedProduct(dims: seq<Dim>, rank: nat)
    requires |dims| <= rank
    ensures Product(Padded(dims, rank)) == Product(dims)
  {
    ProductOfUnits(dims, seq(rank - |dims|, _ => Dim(1, 0)));
  }
}
