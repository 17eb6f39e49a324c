/** The side of a gather or scatter that holds one block per process.  For a section that is not contiguous
    the code describes one block with a derived datatype, and the library places block j at j times that
    datatype's extent: when that is right, and when it is not, for strides of any size and either sign. */
module BlockPlacement {
  import opened CInt
  import opened Section
  import opened Layout
  import opened Typemaps
  import opened MpiState
  import opened CfiUtil
  import opened Indexed
  import opened Collectives
  import opened Meaning

  /** The leading dimensions that a block covers a whole number of times act as one unit, as wide as their
      span; the other dimensions must be strided like a contiguous array of such units, as far as the blocks
      reach. */
  predicate BlocksFit(dims: seq<Dim>, unit: nat, n: nat, count: nat) {
    if |dims| == 0 || dims[0].extent <= 0 then true
    else if count % dims[0].extent == 0 then BlocksFit(dims[1..], Span(dims[0], unit), n, count / dims[0].extent)
    else PrefixContiguous(dims, unit, n * count)
  }

  // ---------------------------------------------------------------------------------------------
  // The least and the greatest displacement
  // ---------------------------------------------------------------------------------------------

  predicate Reached(dims: seq<Dim>, count: nat, x: int) {
    exists k :: 0 <= k < count && Disp(dims, k) == x
  }

  /** Among those of the first `count` elements. */
  predicate Hull(dims: seq<Dim>, count: nat, lo: int, hi: int) {
    && Reached(dims, count, lo) && Reached(dims, count, hi)
    && forall k :: 0 <= k < count ==> lo <= Disp(dims, k) <= hi
  }

  lemma HullUnique(dims: seq<Dim>, count: nat, lo: int, hi: int, lo': int, hi': int)
    requires Hull(dims, count, lo, hi) && Hull(dims, count, lo', hi')
    ensures lo == lo' && hi == hi'
  {
    hide Disp;
  }

  lemma {:induction false} HullOf(dims: seq<Dim>, count: nat, size: nat) returns (lo: int, hi: int)
    requires 0 < count
    ensures Hull(dims, count, lo, hi)
    ensures LowerBound(FirstElements(dims, count, size)) == lo
    ensures UpperBound(FirstElements(dims, count, size)) == hi + size
    ensures NaturalExtent(FirstElements(dims, count, size)) == hi - lo + size
  {
    hide Disp;
    var t, last := FirstElements(dims, count, size), Disp(dims, count - 1);
    lo, hi := last, last;
    if count > 1 {
      assert t[..count - 1] == FirstElements(dims, count - 1, size);
      var lo', hi' := HullOf(dims, count - 1, size);
      lo, hi := if last < lo' then last else lo', if last > hi' then last else hi';
    }
    assert Disp(dims, count - 1) == last;
  }

  /** Whole rows of dimension 0 widen the hull of their starting points by that dimension's span. */
  lemma HullOfRows(dims: seq<Dim>, c: nat, lo: int, hi: int)
    requires |dims| > 0 && dims[0].extent > 0 && Hull(dims[1..], c, lo, hi)
    ensures var reach := dims[0].sm * (dims[0].extent - 1);
            Hull(dims, c * dims[0].extent, if reach < 0 then lo + reach else lo, if reach < 0 then hi else hi + reach)
  {
    hide Disp;
    var e, sm, tail := dims[0].extent, dims[0].sm, dims[1..];
    var reach := sm * (e - 1);
    forall k | 0 <= k < c * e
      ensures (if reach < 0 then lo + reach else lo) <= Disp(dims, k) <= if reach < 0 then hi else hi + reach
    {
      Split(k, e);
      DivBound(k, e, c);
      DispStep(dims, k % e, k / e);
      StrideReach(sm, e, k % e);
    }
    var klo :| 0 <= klo < c && Disp(tail, klo) == lo;
    var khi :| 0 <= khi < c && Disp(tail, khi) == hi;
    RowEnds(dims, c, klo);
    RowEnds(dims, c, khi);
  }

  lemma StrideReach(sm: int, e: int, i: int)
    requires 0 <= i < e
    ensures sm * (e - 1) < 0 ==> sm * (e - 1) <= sm * i <= 0
    ensures sm * (e - 1) >= 0 ==> 0 <= sm * i <= sm * (e - 1)
  {
    if sm >= 0 {
      MulMono(0, i, sm);
      MulMono(i, e - 1, sm);
    } else {
      MulMono(0, i, -sm);
      MulMono(i, e - 1, -sm);
    }
  }

  lemma RowEnds(dims: seq<Dim>, c: nat, u: nat)
    requires |dims| > 0 && dims[0].extent > 0 && u < c
    ensures Reached(dims, c * dims[0].extent, Disp(dims[1..], u))
    ensures Reached(dims, c * dims[0].extent, Disp(dims[1..], u) + dims[0].sm * (dims[0].extent - 1))
  {
    hide Disp;
    var e := dims[0].extent;
    DispStep(dims, 0, u);
    DispStep(dims, e - 1, u);
    MulMono(u + 1, c, e);
    NextMultiple(e, u);
    MulMono(0, u, e);
    assert 0 <= 0 + e * u < c * e && Disp(dims, 0 + e * u) == Disp(dims[1..], u);
    assert 0 <= e - 1 + e * u < c * e && Disp(dims, e - 1 + e * u) == Disp(dims[1..], u) + dims[0].sm * (e - 1);
  }

  // ---------------------------------------------------------------------------------------------
  // Blocks
  // ---------------------------------------------------------------------------------------------

  /** Entry k of copy j. */
  lemma {:induction false} BlockEntry(n: nat, t: Typemap, extent: int, j: nat, k: nat)
    requires j < n && k < |t|
    ensures |Block(n, t, extent, 0)| == n * |t| && j * |t| + k < n * |t|
    ensures Block(n, t, extent, 0)[j * |t| + k] == Entry(t[k].disp + j * extent, t[k].size)
  {
    var len := |t|;
    BlockAt(n, t, extent, 0);
    BlockAt(n - 1, t, extent, 0);
    assert Block(n, t, extent, 0) == Block(n - 1, t, extent, 0) + Shift(t, 0 + (n - 1) * extent);
    hide Block;
    NextMultiple(len, n - 1);
    NextMultiple(len, j);
    MulMono(j + 1, n, len);
    if j < n - 1 {
      BlockEntry(n - 1, t, extent, j, k);
    }
  }

  /** Element k of block j lies where element j * count + k of the section does. */
  predicate ElementInPlace(dims: seq<Dim>, count: nat, extent: int, j: int, k: int) {
    Disp(dims, j * count + k) == Disp(dims, k) + j * extent
  }

  predicate InPlace(dims: seq<Dim>, n: nat, count: nat, extent: int) {
    forall j, k :: 0 <= j < n && 0 <= k < count ==> ElementInPlace(dims, count, extent, j, k)
  }

  lemma EntryInPlace(dims: seq<Dim>, n: nat, count: nat, size: nat, extent: int, j: nat, k: nat)
    requires j < n && k < count
    ensures 0 <= j * count + k < n * count
    ensures |Block(n, FirstElements(dims, count, size), extent, 0)| == n * count
    ensures Block(n, FirstElements(dims, count, size), extent, 0)[j * count + k]
            == FirstElements(dims, n * count, size)[j * count + k]
       <==> ElementInPlace(dims, count, extent, j, k)
  {
    hide Disp, Block;
    BlockEntry(n, FirstElements(dims, count, size), extent, j, k);
  }

  lemma BlockOf(n: nat, count: nat, m: int)
    requires 0 < count && 0 <= m < n * count
    ensures 0 <= m / count < n && 0 <= m % count < count && m == (m / count) * count + m % count
  {
    Split(m, count);
    DivBound(m, count, n);
  }

  lemma PiecesInPlace(dims: seq<Dim>, n: nat, count: nat, size: nat, extent: int)
    requires 0 < count && InPlace(dims, n, count, extent)
    ensures |Block(n, FirstElements(dims, count, size), extent, 0)| == n * count
    ensures Block(n, FirstElements(dims, count, size), extent, 0) == FirstElements(dims, n * count, size)
  {
    hide Disp, Block, ElementInPlace;
    var blocks, elements := Block(n, FirstElements(dims, count, size), extent, 0), FirstElements(dims, n * count, size);
    BlockAt(n, FirstElements(dims, count, size), extent, 0);
    hide FirstElements;
    forall m | 0 <= m < n * count ensures blocks[m] == elements[m] {
      BlockOf(n, count, m);
      assert ElementInPlace(dims, count, extent, m / count, m % count);
      EntryInPlace(dims, n, count, size, extent, m / count, m % count);
    }
    assert blocks == elements;
  }

  lemma BlocksInPlace(dims: seq<Dim>, n: nat, count: nat, size: nat, extent: int)
    requires 0 < count
    ensures Block(n, FirstElements(dims, count, size), extent, 0) == FirstElements(dims, n * count, size)
       <==> InPlace(dims, n, count, extent)
  {
    hide Disp, Block, ElementInPlace, FirstElements;
    if Block(n, FirstElements(dims, count, size), extent, 0) == FirstElements(dims, n * count, size) {
      forall j, k | 0 <= j < n && 0 <= k < count ensures ElementInPlace(dims, count, extent, j, k) {
        EntryInPlace(dims, n, count, size, extent, j, k);
      }
    }
    if InPlace(dims, n, count, extent) { PiecesInPlace(dims, n, count, size, extent); }
  }

  lemma OneBlockInPlace(dims: seq<Dim>, count: nat, extent: int)
    ensures InPlace(dims, 1, count, extent)
  {
    hide Disp;
    forall k | 0 <= k < count ensures ElementInPlace(dims, count, extent, 0, k) {
      assert 0 * count + k == k && 0 * extent == 0;
    }
  }

  lemma BlockArithmetic(unit: int, count: int, j: int, k: int)
    ensures unit * k + j * (unit * count) == unit * (j * count + k)
  {
    var first := j * count;
    assert unit * (first + k) == unit * first + unit * k;
  }

  lemma BlockBounds(n: nat, count: nat, j: int, k: int)
    requires 0 <= j < n && 0 <= k < count
    ensures 0 <= j * count + k < n * count
  {
    MulMono(j + 1, n, count);
    NextMultiple(count, j);
    MulMono(0, j, count);
  }

  /** Blocks of consecutive elements, one after the other, and back. */
  lemma ConsecutiveBlocks(dims: seq<Dim>, unit: nat, n: nat, count: nat)
    requires 0 < count && Consecutive(dims, unit, count)
    ensures InPlace(dims, n, count, unit * count) <==> Consecutive(dims, unit, n * count)
  {
    hide Disp;
    if InPlace(dims, n, count, unit * count) {
      forall m | 0 <= m < n * count ensures Disp(dims, m) == unit * m {
        Split(m, count);
        DivBound(m, count, n);
        assert ElementInPlace(dims, count, unit * count, m / count, m % count);
        BlockArithmetic(unit, count, m / count, m % count);
      }
    }
    if Consecutive(dims, unit, n * count) {
      forall j, k | 0 <= j < n && 0 <= k < count ensures ElementInPlace(dims, count, unit * count, j, k) {
        BlockBounds(n, count, j, k);
        BlockArithmetic(unit, count, j, k);
      }
    }
  }

  lemma ConsecutiveHull(dims: seq<Dim>, unit: nat, count: nat, lo: int, hi: int)
    requires 0 < count && Consecutive(dims, unit, count) && Hull(dims, count, lo, hi)
    ensures hi - lo + unit == unit * count
  {
    hide Disp;
    forall k | 0 <= k < count ensures 0 <= Disp(dims, k) <= unit * (count - 1) {
      MulMono(0, k, unit);
      MulMono(k, count - 1, unit);
    }
    assert Disp(dims, 0) == 0 && Disp(dims, count - 1) == unit * (count - 1);
    HullUnique(dims, count, lo, hi, 0, unit * (count - 1));
    assert unit * (count - 1) == unit * count - unit;
  }

  // ---------------------------------------------------------------------------------------------
  // Blocks of whole rows
  // ---------------------------------------------------------------------------------------------

  lemma RowIndex(j: int, c: int, e: int, i: int, u: int)
    ensures j * (c * e) + (i + e * u) == i + e * (j * c + u)
  {
    MulAssoc(j, c, e);
    assert e * (j * c + u) == e * (j * c) + e * u;
  }

  lemma RowInPlace(dims: seq<Dim>, c: nat, extent: int, j: int, i: int, u: int)
    requires |dims| > 0 && 0 <= i < dims[0].extent
    ensures ElementInPlace(dims, c * dims[0].extent, extent, j, i + dims[0].extent * u)
       <==> ElementInPlace(dims[1..], c, extent, j, u)
  {
    hide Disp;
    RowIndex(j, c, dims[0].extent, i, u);
    DispStep(dims, i, j * c + u);
    DispStep(dims, i, u);
  }

  /** Blocks of whole rows are in place exactly if the starting points of their rows are. */
  lemma RowsInPlace(dims: seq<Dim>, n: nat, c: nat, extent: int)
    requires |dims| > 0 && dims[0].extent > 0
    ensures InPlace(dims, n, c * dims[0].extent, extent) <==> InPlace(dims[1..], n, c, extent)
  {
    hide ElementInPlace;
    var e := dims[0].extent;
    if InPlace(dims, n, c * e, extent) {
      forall j, u | 0 <= j < n && 0 <= u < c ensures ElementInPlace(dims[1..], c, extent, j, u) {
        BlockBounds(c, e, u, 0);
        assert ElementInPlace(dims, c * e, extent, j, 0 + e * u);
        RowInPlace(dims, c, extent, j, 0, u);
      }
    }
    if InPlace(dims[1..], n, c, extent) {
      forall j, k | 0 <= j < n && 0 <= k < c * e ensures ElementInPlace(dims, c * e, extent, j, k) {
        Split(k, e);
        DivBound(k, e, c);
        assert ElementInPlace(dims[1..], c, extent, j, k / e);
        RowInPlace(dims, c, extent, j, k % e, k / e);
      }
    }
  }

  // ---------------------------------------------------------------------------------------------
  // Blocks that end inside a row
  // ---------------------------------------------------------------------------------------------

  lemma InFirstRow(dims: seq<Dim>, i: int)
    requires |dims| > 0 && 0 <= i < dims[0].extent
    ensures Disp(dims, i) == dims[0].sm * i
  {
    Disp1(dims, i);
  }

  /** Two blocks in the first row: they follow each other only if the stride is the unit. */
  lemma ShortBlocks(dims: seq<Dim>, unit: nat, n: nat, count: nat, lo: int, hi: int)
    requires |dims| > 0 && 0 < unit && 2 <= n && 0 < count < dims[0].extent
    requires Hull(dims, count, lo, hi) && InPlace(dims, n, count, hi - lo + unit)
    ensures Consecutive(dims, unit, n * count)
  {
    hide Disp;
    var sm, reach := dims[0].sm, dims[0].sm * (count - 1);
    forall k | 0 <= k <= count ensures Disp(dims, k) == sm * k { InFirstRow(dims, k); }
    forall k | 0 <= k < count
      ensures (if reach < 0 then reach else 0) <= Disp(dims, k) <= if reach < 0 then 0 else reach
    {
      StrideReach(sm, count, k);
    }
    assert Disp(dims, 0) == 0 && Disp(dims, count - 1) == reach;
    HullUnique(dims, count, lo, hi, if reach < 0 then reach else 0, if reach < 0 then 0 else reach);
    assert ElementInPlace(dims, count, hi - lo + unit, 1, 0);
    assert sm * count == Abs(reach) + unit && reach == sm * count - sm;
    assert sm > 0 by { if sm <= 0 { MulMono(0, count, -sm); } }
    MulMono(0, count - 1, sm);
    assert sm == unit;
    assert hi - lo + unit == unit * count;
    ConsecutiveBlocks(dims, unit, n, count);
  }

  /** One dimension in place of the two leading ones. */
  function Merged(dims: seq<Dim>): seq<Dim>
    requires |dims| >= 2
  {
    [Dim(dims[0].extent * dims[1].extent, dims[0].sm)] + dims[2..]
  }

  predicate Mergeable(dims: seq<Dim>) {
    |dims| >= 2 && (dims[1].extent > 1 ==> dims[1].sm == dims[0].sm * dims[0].extent)
  }

  lemma MergedPositive(dims: seq<Dim>)
    requires Positive(dims) && |dims| >= 2
    ensures Positive(Merged(dims)) && Product(Merged(dims)) == Product(dims)
  {
    var e, e1, rest := dims[0].extent, dims[1].extent, dims[2..];
    assert dims[1..][1..] == rest && Merged(dims)[1..] == rest;
    assert Product(dims) == e * Product(dims[1..]) && Product(dims[1..]) == e1 * Product(rest);
    assert Product(Merged(dims)) == (e * e1) * Product(rest);
    hide Product;
    MulAssoc(e, e1, Product(rest));
    MulMono(1, e1, e);
    forall d | 0 <= d < |Merged(dims)| ensures Merged(dims)[d].extent > 0 {
      if d > 0 { assert Merged(dims)[d] == dims[d + 1]; }
    }
  }

  lemma MergedIndex(m: int, e: int, e1: int)
    requires 0 < e && 0 < e1
    ensures var i, u := m % e, m / e;
            var i1, q := u % e1, u / e1;
            && m == i + e * u && u == i1 + e1 * q && m == i + e * i1 + (e * e1) * q
            && 0 <= i < e && 0 <= i1 < e1 && 0 <= i + e * i1 < e * e1
  {
    Split(m, e);
    Split(m / e, e1);
    var i, i1, q := m % e, (m / e) % e1, (m / e) / e1;
    MulAssoc(e, e1, q);
    Distribute(i1, e1 * q, e);
    MulMono(0, i1, e);
    MulMono(i1, e1 - 1, e);
    Distribute(e1 - 1, 1, e);
  }

  lemma MergedDisp(dims: seq<Dim>, m: int)
    requires Positive(dims) && Mergeable(dims) && 0 <= m < Product(dims)
    ensures Disp(Merged(dims), m) == Disp(dims, m)
  {
    var e, e1, sm := dims[0].extent, dims[1].extent, dims[0].sm;
    var i, u := m % e, m / e;
    var i1, q := u % e1, u / e1;
    assert dims[1..][0] == dims[1] && Merged(dims)[0] == Dim(e * e1, sm);
    assert dims[1..][1..] == dims[2..] && Merged(dims)[1..] == dims[2..];
    assert e1 == 1 || dims[1].sm == sm * e;
    hide *;
    MergedIndex(m, e, e1);
    DispStep(dims, i, u);
    DispStep(dims[1..], i1, q);
    DispStep(Merged(dims), i + e * i1, q);
    MulAssoc(sm, e, i1);
    Distribute(i, e * i1, sm);
  }

  lemma OneRow(dims: seq<Dim>)
    ensures |dims| == 1 ==> Product(dims) == dims[0].extent
  {
    if |dims| == 1 { assert dims[1..] == []; }
  }

  /** A step inside a row, from position r - 1 to r, and the step from row 0 to row 1. */
  lemma StepsOfRows(dims: seq<Dim>, row: int, r: int)
    requires |dims| >= 2 && 1 <= r < dims[0].extent && dims[1].extent > 1
    ensures Disp(dims, r + dims[0].extent * row) - Disp(dims, r - 1 + dims[0].extent * row) == dims[0].sm
    ensures Disp(dims, dims[0].extent) - Disp(dims, dims[0].extent - 1)
         == dims[1].sm - dims[0].sm * dims[0].extent + dims[0].sm
  {
    hide *;
    var e, sm := dims[0].extent, dims[0].sm;
    DispStep(dims, r, row);
    DispStep(dims, r - 1, row);
    DispStep(dims, 0, 1);
    InFirstRow(dims, e - 1);
    InFirstRow(dims[1..], 1);
    Distribute(r - 1, 1, sm);
    Distribute(e - 1, 1, sm);
    assert dims[1..][0] == dims[1];
  }

  /** Blocks longer than a row that end inside one: the step from row to row inside block 0 is, in block 1,
      a step inside a row, so the rows follow each other and count as one. */
  lemma LongBlocks(dims: seq<Dim>, n: nat, count: nat, extent: int)
    requires Positive(dims) && 2 <= n && |dims| > 0 && dims[0].extent < count && count % dims[0].extent != 0
    requires n * count <= Product(dims) && InPlace(dims, n, count, extent)
    ensures Mergeable(dims)
  {
    var e := dims[0].extent;
    MulMono(2, n, count);
    OneRow(dims);
    assert ElementInPlace(dims, count, extent, 1, e) && ElementInPlace(dims, count, extent, 1, e - 1);
    hide Disp, Product, InPlace;
    if dims[1].extent > 1 {
      Split(count, e);
      NextMultiple(e, count / e);
      StepsOfRows(dims, count / e + 1, count % e);
    }
  }

  lemma NoMultiple(count: int, e: int, e1: int)
    requires 0 < e && 0 < e1 && count % e != 0
    ensures 0 < e * e1 && count % (e * e1) != 0
  {
    MulMono(1, e1, e);
    if count % (e * e1) == 0 {
      Split(count, e * e1);
      MulAssoc(e, e1, count / (e * e1));
      DivModUnique(0, e, e1 * (count / (e * e1)));
    }
  }

  lemma {:induction false} MisalignedBlocks(dims: seq<Dim>, unit: nat, n: nat, count: nat, lo: int, hi: int)
    requires Positive(dims) && 0 < unit && 2 <= n && 0 < count && n * count <= Product(dims)
    requires |dims| > 0 && count % dims[0].extent != 0
    requires Hull(dims, count, lo, hi) && InPlace(dims, n, count, hi - lo + unit)
    ensures Consecutive(dims, unit, n * count)
    decreases |dims|
  {
    hide Disp, Product;
    if count < dims[0].extent {
      ShortBlocks(dims, unit, n, count, lo, hi);
    } else {
      DivModUnique(0, dims[0].extent, 1);
      LongBlocks(dims, n, count, hi - lo + unit);
      MergedPositive(dims);
      NoMultiple(count, dims[0].extent, dims[1].extent);
      MulMono(1, n, count);
      forall m | 0 <= m < Product(dims) ensures Disp(Merged(dims), m) == Disp(dims, m) { MergedDisp(dims, m); }
      var klo :| 0 <= klo < count && Disp(dims, klo) == lo;
      var khi :| 0 <= khi < count && Disp(dims, khi) == hi;
      assert Disp(Merged(dims), klo) == lo && Disp(Merged(dims), khi) == hi;
      var extent := hi - lo + unit;
      forall j, k | 0 <= j < n && 0 <= k < count ensures ElementInPlace(Merged(dims), count, extent, j, k) {
        BlockBounds(n, count, j, k);
        assert ElementInPlace(dims, count, extent, j, k);
      }
      MisalignedBlocks(Merged(dims), unit, n, count, lo, hi);
    }
  }

  // ---------------------------------------------------------------------------------------------
  // The condition
  // ---------------------------------------------------------------------------------------------

  lemma WholeRowCount(n: nat, c: nat, e: int, p: int)
    requires 0 < e && n * (c * e) <= e * p
    ensures n * c <= p
  {
    MulAssoc(n, c, e);
    if n * c > p { MulMono(p + 1, n * c, e); }
  }

  /** Blocks of whole rows are blocks of rows, each as wide as the span of a row. */
  lemma BlocksOfRows(dims: seq<Dim>, unit: nat, n: nat, c: nat, lo: int, hi: int) returns (tlo: int, thi: int)
    requires |dims| > 0 && dims[0].extent > 0 && 0 < c && Hull(dims, c * dims[0].extent, lo, hi)
    ensures Hull(dims[1..], c, tlo, thi)
    ensures InPlace(dims, n, c * dims[0].extent, hi - lo + unit)
       <==> InPlace(dims[1..], n, c, thi - tlo + Span(dims[0], unit))
  {
    hide Disp, InPlace, Hull;
    tlo, thi := HullOf(dims[1..], c, 0);
    HullOfRows(dims, c, tlo, thi);
    var reach := dims[0].sm * (dims[0].extent - 1);
    HullUnique(dims, c * dims[0].extent, lo, hi,
               if reach < 0 then tlo + reach else tlo, if reach < 0 then thi else thi + reach);
    RowsInPlace(dims, n, c, hi - lo + unit);
  }

  lemma UnevenBlocks(dims: seq<Dim>, unit: nat, n: nat, count: nat, lo: int, hi: int)
    requires Positive(dims) && 0 < unit && 2 <= n && 0 < count && n * count <= Product(dims)
    requires |dims| > 0 && count % dims[0].extent != 0 && Hull(dims, count, lo, hi)
    ensures InPlace(dims, n, count, hi - lo + unit) <==> PrefixContiguous(dims, unit, n * count)
  {
    hide Disp, Product, InPlace, Hull, PrefixContiguous;
    MulMono(1, n, count);
    ContiguousPrefix(dims, unit, n * count);
    if InPlace(dims, n, count, hi - lo + unit) {
      MisalignedBlocks(dims, unit, n, count, lo, hi);
    }
    if Consecutive(dims, unit, n * count) {
      ConsecutiveHull(dims, unit, count, lo, hi);
      ConsecutiveBlocks(dims, unit, n, count);
    }
  }

  lemma {:induction false} SeveralBlocksInPlace(dims: seq<Dim>, unit: nat, n: nat, count: nat, lo: int, hi: int)
    requires Positive(dims) && 0 < unit && 2 <= n && 0 < count && n * count <= Product(dims)
    requires Hull(dims, count, lo, hi)
    ensures InPlace(dims, n, count, hi - lo + unit) <==> BlocksFit(dims, unit, n, count)
    decreases |dims|
  {
    MulMono(2, n, count);
    if |dims| > 0 {
      var e, tail := dims[0].extent, dims[1..];
      assert Product(dims) == e * Product(tail);
      hide Disp, Product, InPlace, Hull, Span, PrefixContiguous;
      if count % e == 0 {
        var c := count / e;
        Split(count, e);
        assert c > 0 && count == c * e;
        WholeRowCount(n, c, e, Product(tail));
        var tlo, thi := BlocksOfRows(dims, unit, n, c, lo, hi);
        assert Span(dims[0], unit) > 0 by { SpanPositive(dims[0], unit); }
        SeveralBlocksInPlace(tail, Span(dims[0], unit), n, c, tlo, thi);
      } else {
        UnevenBlocks(dims, unit, n, count, lo, hi);
      }
    }
  }

  lemma SpanPositive(d: Dim, unit: nat)
    requires unit > 0
    ensures Span(d, unit) > 0
  {
  }

  /** Blocks land where they belong exactly if the section is contiguous, there is one block, or they fit. */
  lemma BlocksLandInPlace(st: State, desc: Descriptor, count: nat, h: Handle, n: nat)
    requires SameElements(desc, h) && WellFormed(desc.dims)
    requires 0 < count && 0 < n && n * count <= Product(desc.dims)
    ensures BlocksAsWritten(st, desc, count, h, n) == FirstElements(desc.dims, n * count, desc.elemLen)
       <==> IsContiguous(desc) || n == 1 || BlocksFit(desc.dims, desc.elemLen, n, count)
  {
    hide Disp, Product, BuiltDims, Block, NaturalExtent, BlocksFit;
    var dims, size := desc.dims, desc.elemLen;
    MulMono(1, n, count);
    PositiveProduct(dims);
    if IsContiguous(desc) {
      EveryPathIsTheSection(st, desc, n * count, h);
    } else {
      BuiltDimsAreDims(desc, count);
      var block := FirstElements(dims, count, size);
      assert SubarrayEntries(st, desc, count, h) == block;
      var lo, hi := HullOf(dims, count, size);
      BlocksInPlace(dims, n, count, size, hi - lo + size);
      if n == 1 {
        OneBlockInPlace(dims, count, hi - lo + size);
      } else {
        SeveralBlocksInPlace(dims, size, n, count, lo, hi);
      }
    }
  }

  /** Two blocks of two elements in every other element of an array: block 1 starts at byte 12 instead of 16. */
  lemma BlocksExample(st: State)
    ensures var desc := Descriptor(0, 4, Float, [Dim(4, 8)]);
            && !IsContiguous(desc)
            && |BlocksAsWritten(st, desc, 2, Named(MpiFloat), 2)| == 4
            && BlocksAsWritten(st, desc, 2, Named(MpiFloat), 2)[2] == Entry(12, 4)
            && FirstElements(desc.dims, 4, 4)[2] == Entry(16, 4)
  {
    var desc := Descriptor(0, 4, Float, [Dim(4, 8)]);
    BuiltDimsAreDims(desc, 2);
    TwoOfFour();
    hide Disp, Block, FirstElements, NaturalExtent;
    BlockEntry(2, FirstElements(desc.dims, 2, 4), 12, 1, 0);
  }

  lemma TwoOfFour()
    ensures NaturalExtent(FirstElements([Dim(4, 8)], 2, 4)) == 12
    ensures FirstElements([Dim(4, 8)], 2, 4)[0] == Entry(0, 4) && FirstElements([Dim(4, 8)], 4, 4)[2] == Entry(16, 4)
  {
    hide Disp, NaturalExtent, LowerBound, UpperBound;
    var dims := [Dim(4, 8)];
    Disp1(dims, 0);
    Disp1(dims, 1);
    Disp1(dims, 2);
    var lo, hi := HullOf(dims, 2, 4);
    assert Disp(dims, 0) == 0 && Disp(dims, 1) == 8;
    HullUnique(dims, 2, lo, hi, 0, 8);
  }

  lemma OneRowFits(e: int, sm: nat)
    requires e > 1
    ensures BlocksFit([Dim(e, sm)], sm, e, 1)
  {
    var dims := [Dim(e, sm)];
    assert dims[..0] == [] && Product(dims[..0]) == 1;
    hide Product;
    assert PrefixContiguous(dims, sm, e * 1);
  }

  /** Sections that are not contiguous and whose blocks fit: blocks that run backwards, and blocks that are
      the first and last of four rows, column by column. */
  lemma FittingExample(st: State)
    ensures var desc := Descriptor(0, 4, Float, [Dim(2, -4), Dim(2, 8)]);
            !PrefixContiguous(desc.dims, 4, 4)
            && BlocksAsWritten(st, desc, 2, Named(MpiFloat), 2) == FirstElements(desc.dims, 4, 4)
    ensures var desc := Descriptor(0, 4, Float, [Dim(2, 12), Dim(3, 16)]);
            !PrefixContiguous(desc.dims, 4, 6)
            && BlocksAsWritten(st, desc, 2, Named(MpiFloat), 3) == FirstElements(desc.dims, 6, 4)
  {
    FittingPair(st, Dim(2, -4), Dim(2, 8));
    FittingPair(st, Dim(2, 12), Dim(3, 16));
  }

  lemma FittingPair(st: State, row: Dim, column: Dim)
    requires row.extent == 2 && column.extent > 1 && row.sm != 4 && column.sm == Span(row, 4)
    ensures !PrefixContiguous([row, column], 4, column.extent * 2)
    ensures BlocksAsWritten(st, Descriptor(0, 4, Float, [row, column]), 2, Named(MpiFloat), column.extent)
         == FirstElements([row, column], column.extent * 2, 4)
  {
    var dims := [row, column];
    ProductOfTwo(row, column);
    assert dims[..0] == [] && Product(dims[..0]) == 1 && dims[0].sm != 4 * Product(dims[..0]);
    assert dims[1..] == [column];
    OneRowFits(column.extent, column.sm);
    hide Product, PrefixContiguous;
    assert BlocksFit(dims, 4, column.extent, 2);
    BlocksLandInPlace(st, Descriptor(0, 4, Float, dims), 2, Named(MpiFloat), column.extent);
  }
}
