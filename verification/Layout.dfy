/** When the elements of a section are contiguous, and when they cannot overlap. */
module Layout {
  import opened CInt
  import opened Section

  function Abs(x: int): nat {
    if x < 0 then -x else x
  }

  /** The stride chain that CFI_is_contiguous tests for. */
  predicate IsContiguous(desc: Descriptor) {
    && (|desc.dims| > 0 ==> desc.dims[0].sm == desc.elemLen)
    && forall d :: 0 <= d < |desc.dims| - 1 ==> desc.dims[d + 1].sm == desc.dims[d].sm * desc.dims[d].extent
  }

  /** The strides that reach the first `count` elements are those of a contiguous array.  Only dimensions
      whose subscript varies among those elements matter. */
  predicate PrefixContiguous(dims: seq<Dim>, unit: int, count: int) {
    forall d :: 0 <= d < |dims| && Product(dims[..d]) < count && dims[d].extent > 1 ==>
      dims[d].sm == unit * Product(dims[..d])
  }

  lemma ProductUnfold(dims: seq<Dim>, d: nat)
    requires d < |dims|
    ensures Product(dims[..d + 1]) == dims[0].extent * Product(dims[1..][..d])
  {
    assert dims[..d + 1][1..] == dims[1..][..d];
  }

  /** The first element that lies off the origin along dimension d is at that dimension's stride. */
  lemma {:induction false} DispOfUnit(dims: seq<Dim>, d: nat)
    requires Positive(dims) && d < |dims| && dims[d].extent > 1
    ensures Disp(dims, Product(dims[..d])) == dims[d].sm
  {
    if d == 0 {
      DispZero(dims[1..]);
      DispStep(dims, 1, 0);
    } else {
      ProductUnfold(dims, d - 1);
      DispOfUnit(dims[1..], d - 1);
      DispStep(dims, 0, Product(dims[1..][..d - 1]));
    }
  }

  /** What prefix contiguity says about the other dimensions. */
  lemma TailContiguous(dims: seq<Dim>, unit: int, i: int, q: int)
    requires |dims| > 0 && 0 <= i < dims[0].extent && PrefixContiguous(dims, unit, i + dims[0].extent * q + 1)
    ensures PrefixContiguous(dims[1..], unit * dims[0].extent, q + 1)
  {
    var e, tail := dims[0].extent, dims[1..];
    forall d | 0 <= d < |tail| && Product(tail[..d]) < q + 1 && tail[d].extent > 1
      ensures tail[d].sm == (unit * e) * Product(tail[..d])
    {
      ProductUnfold(dims, d);
      MulMono(Product(tail[..d]), q, e);
      MulAssoc(unit, e, Product(tail[..d]));
      assert Product(dims[..d + 1]) < i + e * q + 1;
    }
  }

  lemma {:induction false} DispIfPrefixContiguous(dims: seq<Dim>, unit: int, m: int)
    requires Positive(dims) && 0 <= m < Product(dims) && PrefixContiguous(dims, unit, m + 1)
    ensures Disp(dims, m) == unit * m
  {
    if |dims| > 0 {
      var e, tail := dims[0].extent, dims[1..];
      Split(m, e);
      DivBound(m, e, Product(tail));
      TailContiguous(dims, unit, m % e, m / e);
      DispIfPrefixContiguous(tail, unit * e, m / e);
      HeadContiguous(dims, unit, m % e, m / e);
    }
  }

  lemma HeadContiguous(dims: seq<Dim>, unit: int, i: int, q: int)
    requires |dims| > 0 && 0 <= i < dims[0].extent && 0 <= q
    requires PrefixContiguous(dims, unit, i + dims[0].extent * q + 1)
    ensures dims[0].sm * i + (unit * dims[0].extent) * q == unit * (i + dims[0].extent * q)
  {
    var e := dims[0].extent;
    MulAssoc(unit, e, q);
    if i > 0 {
      MulMono(0, q, e);
      assert dims[..0] == [];
      assert dims[0].sm == unit;
    }
  }

  /** The first `count` elements lie one after the other. */
  predicate Consecutive(dims: seq<Dim>, unit: int, count: int) {
    forall m :: 0 <= m < count ==> Disp(dims, m) == unit * m
  }

  /** Which they do exactly when the strides that reach them are those of a contiguous array. */
  lemma ContiguousPrefix(dims: seq<Dim>, unit: int, count: int)
    requires Positive(dims) && 0 <= count <= Product(dims)
    ensures PrefixContiguous(dims, unit, count) <==> Consecutive(dims, unit, count)
  {
    if PrefixContiguous(dims, unit, count) {
      forall m | 0 <= m < count ensures Disp(dims, m) == unit * m {
        DispIfPrefixContiguous(dims, unit, m);
      }
    } else {
      var d :| 0 <= d < |dims| && Product(dims[..d]) < count && dims[d].extent > 1
               && dims[d].sm != unit * Product(dims[..d]);
      ProductSign(dims[..d]);
      DispOfUnit(dims, d);
      assert Disp(dims, Product(dims[..d])) != unit * Product(dims[..d]);
    }
  }

  lemma {:induction false} ChainStride(desc: Descriptor, d: nat)
    requires IsContiguous(desc) && d < |desc.dims|
    ensures desc.dims[d].sm == desc.elemLen * Product(desc.dims[..d])
  {
    if d > 0 {
      ChainStride(desc, d - 1);
      ProductPrefix(desc.dims, d - 1);
      MulAssoc(desc.elemLen, Product(desc.dims[..d - 1]), desc.dims[d - 1].extent);
    }
  }

  /** The chain is that of the strides of a contiguous array. */
  lemma ContiguousStrides(desc: Descriptor)
    ensures IsContiguous(desc) <==>
            forall d :: 0 <= d < |desc.dims| ==> desc.dims[d].sm == desc.elemLen * Product(desc.dims[..d])
  {
    var dims := desc.dims;
    if IsContiguous(desc) {
      forall d | 0 <= d < |dims| ensures dims[d].sm == desc.elemLen * Product(dims[..d]) { ChainStride(desc, d); }
    }
    if forall d :: 0 <= d < |dims| ==> dims[d].sm == desc.elemLen * Product(dims[..d]) {
      assert |dims| > 0 ==> Product(dims[..0]) == 1;
      forall d | 0 <= d < |dims| - 1 ensures dims[d + 1].sm == dims[d].sm * dims[d].extent {
        ProductPrefix(dims, d);
        MulAssoc(desc.elemLen, Product(dims[..d]), dims[d].extent);
        assert dims[d + 1].sm == desc.elemLen * Product(dims[..d + 1]);
      }
    }
  }

  /** A section that passes the test has its elements one after the other; where no dimension has just one
      element, it passes exactly if it has. */
  lemma ContiguousIsConsecutive(desc: Descriptor)
    requires Positive(desc.dims)
    ensures IsContiguous(desc) ==> Consecutive(desc.dims, desc.elemLen, Product(desc.dims))
    ensures (forall d :: 0 <= d < |desc.dims| ==> desc.dims[d].extent > 1) ==>
              (IsContiguous(desc) <==> Consecutive(desc.dims, desc.elemLen, Product(desc.dims)))
  {
    var dims := desc.dims;
    ContiguousStrides(desc);
    ProductSign(dims);
    ContiguousPrefix(dims, desc.elemLen, Product(dims));
    hide IsContiguous, Consecutive, Product;
    if forall d :: 0 <= d < |dims| ==> dims[d].extent > 1 {
      forall d | 0 <= d < |dims| ensures Product(dims[..d]) < Product(dims) { FewerElements(dims, d, |dims|); }
    }
  }

  /** Fewer dimensions have fewer elements. */
  lemma {:induction false} FewerElements(dims: seq<Dim>, d: nat, n: nat)
    requires Positive(dims) && d < n <= |dims| && dims[n - 1].extent > 1
    requires forall i :: d <= i < n ==> dims[i].extent > 1
    ensures 0 < Product(dims[..d]) < Product(dims[..n])
    ensures n == |dims| ==> Product(dims[..d]) < Product(dims)
    decreases n
  {
    hide Product;
    assert n == |dims| ==> dims[..n] == dims;
    ProductSign(dims[..d]);
    ProductPrefix(dims, n - 1);
    if d < n - 1 { FewerElements(dims, d, n - 1); }
    MulMono(2, dims[n - 1].extent, Product(dims[..n - 1]));
  }

  lemma ContiguousEverywhere(desc: Descriptor, count: int)
    requires IsContiguous(desc)
    ensures PrefixContiguous(desc.dims, desc.elemLen, count)
  {
    forall d | 0 <= d < |desc.dims| ensures desc.dims[d].sm == desc.elemLen * Product(desc.dims[..d]) {
      ChainStride(desc, d);
    }
  }

  /** The bytes from the first to the last of the units that a dimension repeats. */
  function Span(d: Dim, unit: nat): nat {
    unit + Abs(d.sm * (d.extent - 1))
  }

  /** Each stride (in either direction) steps over everything the faster dimensions cover, as in every
      section of an array.  The stride of a dimension of extent 1 does not matter. */
  predicate Spaced(dims: seq<Dim>, unit: nat) {
    |dims| > 0 ==> (dims[0].extent == 1 || unit <= Abs(dims[0].sm)) && Spaced(dims[1..], Span(dims[0], unit))
  }

  lemma AbsProduct(x: int, y: int)
    ensures Abs(x * y) == Abs(x) * Abs(y)
  {
  }

  lemma DigitSpan(a: nat, c: nat, e: int)
    requires c < e
    ensures a * c <= a * (e - 1)
    ensures c > 0 ==> a <= a * c
  {
    MulMono(c, e - 1, a);
    if c > 0 { MulMono(1, c, a); }
  }

  lemma AbsDigits(sm: int, e: int, i: int, j: int)
    requires 0 <= i < e && 0 <= j < e
    ensures Abs(sm * i - sm * j) <= Abs(sm * (e - 1))
    ensures i != j ==> Abs(sm) <= Abs(sm * i - sm * j)
  {
    assert sm * i - sm * j == sm * (i - j);
    AbsProduct(sm, i - j);
    AbsProduct(sm, e - 1);
    DigitSpan(Abs(sm), Abs(i - j), e);
  }

  lemma SpacingStep(dims: seq<Dim>, unit: nat, i: int, p: int, j: int, q: int)
    requires |dims| > 0 && 0 <= i < dims[0].extent && 0 <= j < dims[0].extent && (i != j || p != q)
    requires dims[0].extent > 1 ==> unit <= Abs(dims[0].sm)
    requires p != q ==> Abs(Disp(dims[1..], p) - Disp(dims[1..], q)) >= Span(dims[0], unit)
    ensures Abs(Disp(dims, i + dims[0].extent * p) - Disp(dims, j + dims[0].extent * q)) >= unit
  {
    var e, sm := dims[0].extent, dims[0].sm;
    DispStep(dims, i, p);
    DispStep(dims, j, q);
    AbsDigits(sm, e, i, j);
    var near, far := sm * i - sm * j, Disp(dims[1..], p) - Disp(dims[1..], q);
    assert Abs(near + far) >= Abs(far) - Abs(near);
    if e == 1 {
      assert i == j;
    }
  }

  /** Different elements of a spaced section are at least `unit` bytes apart, strides of either sign. */
  lemma {:induction false} DispSpacing(dims: seq<Dim>, unit: nat, m: int, n: int)
    requires Positive(dims) && Spaced(dims, unit)
    requires 0 <= m < Product(dims) && 0 <= n < Product(dims) && m != n
    ensures Abs(Disp(dims, m) - Disp(dims, n)) >= unit
  {
    if |dims| > 0 {
      var e, tail := dims[0].extent, dims[1..];
      Split(m, e);
      Split(n, e);
      DivBound(m, e, Product(tail));
      DivBound(n, e, Product(tail));
      if m / e != n / e {
        DispSpacing(tail, Span(dims[0], unit), m / e, n / e);
      }
      SpacingStep(dims, unit, m % e, m / e, n % e, n / e);
    }
  }

  /** The section with these extents and subscript increments of a contiguous array: `stride` is the distance
      between neighbours along the array's first dimension. */
  function Subsection(parent: seq<nat>, extents: seq<nat>, steps: seq<int>, stride: nat): seq<Dim>
    requires |parent| == |extents| == |steps|
  {
    if |parent| == 0 then []
    else [Dim(extents[0], steps[0] * stride)] + Subsection(parent[1..], extents[1..], steps[1..], stride * parent[0])
  }

  /** It stays within the array. */
  predicate Fits(parent: seq<nat>, extents: seq<nat>, steps: seq<int>)
    requires |parent| == |extents| == |steps|
  {
    forall d :: 0 <= d < |parent| ==> extents[d] > 0 && steps[d] != 0 && Abs(steps[d] * (extents[d] - 1)) < parent[d]
  }

  lemma MulSwap(a: int, b: int, c: int)
    ensures (a * b) * c == (a * c) * b
  {
  }

  /** One dimension: neighbours are at least `stride` apart, and all of it lies in one row of the array. */
  lemma RowFits(parent: nat, extent: nat, step: int, stride: nat, unit: nat)
    requires extent > 0 && step != 0 && Abs(step * (extent - 1)) < parent && unit <= stride
    ensures unit <= Abs(step * stride) && Span(Dim(extent, step * stride), unit) <= stride * parent
  {
    var reach := step * (extent - 1);
    AbsProduct(step, stride);
    AbsProduct(reach, stride);
    assert Abs(step) >= 1 && Span(Dim(extent, step * stride), unit) == unit + Abs((step * stride) * (extent - 1));
    MulSwap(step, stride, extent - 1);
    hide *;
    MulMono(1, Abs(step), stride);
    MulMono(Abs(reach), parent - 1, stride);
    Distribute(parent - 1, 1, stride);
  }

  /** Subscript triplets in every dimension make a spaced section. */
  lemma {:induction false} SubsectionIsSpaced(parent: seq<nat>, extents: seq<nat>, steps: seq<int>, stride: nat,
                                              unit: nat)
    requires |parent| == |extents| == |steps| && Fits(parent, extents, steps) && unit <= stride
    ensures Spaced(Subsection(parent, extents, steps, stride), unit)
  {
    hide Span, Abs;
    if |parent| > 0 {
      var dim := Dim(extents[0], steps[0] * stride);
      RowFits(parent[0], extents[0], steps[0], stride, unit);
      SubsectionIsSpaced(parent[1..], extents[1..], steps[1..], stride * parent[0], Span(dim, unit));
      assert Subsection(parent, extents, steps, stride)[1..]
          == Subsection(parent[1..], extents[1..], steps[1..], stride * parent[0]);
    }
  }

  /** The dimensions that the descriptor keeps: a scalar subscript drops one. */
  function Kept(dims: seq<Dim>, keep: seq<bool>): seq<Dim>
    requires |dims| == |keep|
  {
    if |dims| == 0 then []
    else (if keep[0] then [dims[0]] else []) + Kept(dims[1..], keep[1..])
  }

  /** Dropping dimensions of extent 1 keeps a section spaced. */
  lemma {:induction false} KeptSpaced(dims: seq<Dim>, keep: seq<bool>, unit: nat)
    requires |dims| == |keep| && Spaced(dims, unit)
    requires forall d :: 0 <= d < |dims| && !keep[d] ==> dims[d].extent == 1
    ensures Spaced(Kept(dims, keep), unit)
  {
    if |dims| > 0 {
      assert !keep[0] ==> Span(dims[0], unit) == unit;
      hide Span, Abs;
      KeptSpaced(dims[1..], keep[1..], Span(dims[0], unit));
      if keep[0] {
        assert Kept(dims, keep)[1..] == Kept(dims[1..], keep[1..]);
      } else {
        assert Kept(dims, keep) == Kept(dims[1..], keep[1..]);
      }
    }
  }

  lemma {:induction false} SubsectionExtents(parent: seq<nat>, extents: seq<nat>, steps: seq<int>, stride: nat)
    requires |parent| == |extents| == |steps|
    ensures |Subsection(parent, extents, steps, stride)| == |parent|
    ensures forall d :: 0 <= d < |parent| ==> Subsection(parent, extents, steps, stride)[d].extent == extents[d]
  {
    if |parent| > 0 { SubsectionExtents(parent[1..], extents[1..], steps[1..], stride * parent[0]); }
  }

  /** Every section of an array is spaced, with a triplet or a scalar subscript in each dimension. */
  lemma SectionIsSpaced(parent: seq<nat>, extents: seq<nat>, steps: seq<int>, keep: seq<bool>, stride: nat, unit: nat)
    requires |parent| == |extents| == |steps| == |keep| && Fits(parent, extents, steps) && unit <= stride
    requires forall d :: 0 <= d < |parent| && !keep[d] ==> extents[d] == 1
    ensures |Subsection(parent, extents, steps, stride)| == |parent|
    ensures Spaced(Kept(Subsection(parent, extents, steps, stride), keep), unit)
  {
    SubsectionExtents(parent, extents, steps, stride);
    SubsectionIsSpaced(parent, extents, steps, stride, unit);
    KeptSpaced(Subsection(parent, extents, steps, stride), keep, unit);
  }
}
