/** MPI datatypes by their meaning: the ordered list of pieces they describe, and the bytes those pieces
    touch.  Constructors follow section 5.1.2 of MPI 4.0. */
module Typemaps {
  import opened CInt

  newtype byte = x: int | 0 <= x < 256

  /** `size` bytes at displacement `disp`: one basic element, or one segment of an I/O vector. */
  datatype Entry = Entry(disp: int, size: nat)

  type Typemap = seq<Entry>

  function Shift(t: Typemap, delta: int): (r: Typemap)
    ensures |r| == |t| && forall k :: 0 <= k < |t| ==> r[k] == Entry(t[k].disp + delta, t[k].size)
  {
    seq(|t|, k requires 0 <= k < |t| => Entry(t[k].disp + delta, t[k].size))
  }

  /** n copies of `oldtype`, one after the other, `extent` bytes apart, from displacement `at` on. */
  function Block(n: nat, oldtype: Typemap, extent: int, at: int): Typemap {
    if n == 0 then [] else Block(n - 1, oldtype, extent, at) + Shift(oldtype, at + (n - 1) * extent)
  }

  /** MPI_Type_create_hvector. */
  function Hvector(count: nat, blocklength: nat, stride: int, oldtype: Typemap, extent: int): Typemap {
    if count == 0 then []
    else Hvector(count - 1, blocklength, stride, oldtype, extent)
         + Block(blocklength, oldtype, extent, (count - 1) * stride)
  }

  /** MPI_Type_create_hindexed. */
  function Hindexed(blocklengths: seq<nat>, disps: seq<int>, oldtype: Typemap, extent: int): Typemap
    requires |blocklengths| == |disps|
  {
    if |disps| == 0 then []
    else
      var n := |disps| - 1;
      Hindexed(blocklengths[..n], disps[..n], oldtype, extent) + Block(blocklengths[n], oldtype, extent, disps[n])
  }

  /** Number of bytes of data (MPI_Type_size). */
  function Size(t: Typemap): nat {
    if |t| == 0 then 0 else Size(t[..|t| - 1]) + t[|t| - 1].size
  }

  function LowerBound(t: Typemap): int
    requires |t| > 0
  {
    if |t| == 1 then t[0].disp
    else var l := LowerBound(t[..|t| - 1]); if t[|t| - 1].disp < l then t[|t| - 1].disp else l
  }

  function UpperBound(t: Typemap): int
    requires |t| > 0
  {
    var last := t[|t| - 1].disp + t[|t| - 1].size;
    if |t| == 1 then last else var u := UpperBound(t[..|t| - 1]); if last > u then last else u
  }

  /** Span from the lowest to the highest byte, without alignment padding. */
  function NaturalExtent(t: Typemap): int {
    if |t| == 0 then 0 else UpperBound(t) - LowerBound(t)
  }

  // ---------------------------------------------------------------------------------------------
  // Reading the constructors entry by entry
  // ---------------------------------------------------------------------------------------------

  lemma BlockOfOne(oldtype: Typemap, extent: int, at: int)
    ensures Block(1, oldtype, extent, at) == Shift(oldtype, at)
  {
    assert Block(0, oldtype, extent, at) == [];
  }

  lemma {:induction false} BlockAt(n: nat, oldtype: Typemap, extent: int, at: int)
    ensures |Block(n, oldtype, extent, at)| == n * |oldtype|
    ensures |oldtype| == 1 ==> forall j :: 0 <= j < n ==>
              Block(n, oldtype, extent, at)[j] == Entry(oldtype[0].disp + at + j * extent, oldtype[0].size)
  {
    if n > 0 {
      BlockAt(n - 1, oldtype, extent, at);
      NextMultiple(|oldtype|, n - 1);
    }
  }

  lemma {:induction false} HvectorLength(count: nat, blocklength: nat, stride: int, oldtype: Typemap, extent: int)
    ensures |Hvector(count, blocklength, stride, oldtype, extent)| == count * (blocklength * |oldtype|)
  {
    if count > 0 {
      HvectorLength(count - 1, blocklength, stride, oldtype, extent);
      BlockAt(blocklength, oldtype, extent, (count - 1) * stride);
      NextMultiple(blocklength * |oldtype|, count - 1);
    }
  }

  /** Entry k of the hvector's block i is entry k of the block placed at i strides. */
  lemma {:induction false} HvectorAt(count: nat, blocklength: nat, stride: int, oldtype: Typemap, extent: int,
                                     i: nat, k: nat)
    requires i < count && k < blocklength * |oldtype|
    ensures |Hvector(count, blocklength, stride, oldtype, extent)| == count * (blocklength * |oldtype|)
    ensures i * (blocklength * |oldtype|) + k < count * (blocklength * |oldtype|)
    ensures |Block(blocklength, oldtype, extent, i * stride)| == blocklength * |oldtype|
    ensures Hvector(count, blocklength, stride, oldtype, extent)[i * (blocklength * |oldtype|) + k]
         == Block(blocklength, oldtype, extent, i * stride)[k]
  {
    var len := blocklength * |oldtype|;
    HvectorLength(count, blocklength, stride, oldtype, extent);
    HvectorLength(count - 1, blocklength, stride, oldtype, extent);
    BlockAt(blocklength, oldtype, extent, i * stride);
    NextMultiple(len, count - 1);
    MulMono(i + 1, count, len);
    NextMultiple(len, i);
    if i < count - 1 {
      HvectorAt(count - 1, blocklength, stride, oldtype, extent, i, k);
    }
  }

  lemma {:induction false} HindexedOfOnes(blocklengths: seq<nat>, disps: seq<int>, size: nat)
    requires |blocklengths| == |disps| && forall i :: 0 <= i < |disps| ==> blocklengths[i] == 1
    ensures |Hindexed(blocklengths, disps, [Entry(0, size)], size)| == |disps|
    ensures forall i :: 0 <= i < |disps| ==>
              Hindexed(blocklengths, disps, [Entry(0, size)], size)[i] == Entry(disps[i], size)
  {
    if |disps| > 0 {
      var n := |disps| - 1;
      HindexedOfOnes(blocklengths[..n], disps[..n], size);
      BlockAt(1, [Entry(0, size)], size, disps[n]);
    }
  }

  lemma {:induction false} SizeOfUniform(t: Typemap, size: nat)
    requires forall k :: 0 <= k < |t| ==> t[k].size == size
    ensures Size(t) == |t| * size
  {
    if |t| > 0 {
      SizeOfUniform(t[..|t| - 1], size);
    }
  }

  // ---------------------------------------------------------------------------------------------
  // Bytes
  // ---------------------------------------------------------------------------------------------

  function Range(from: int, n: nat): (r: seq<int>)
    ensures |r| == n && forall k :: 0 <= k < n ==> r[k] == from + k
  {
    seq(n, k => from + k)
  }

  /** The byte addresses a transfer of the typemap at `base` touches, in the order it touches them. */
  function Addresses(t: Typemap, base: int): seq<int> {
    if |t| == 0 then []
    else Addresses(t[..|t| - 1], base) + Range(base + t[|t| - 1].disp, t[|t| - 1].size)
  }

  lemma {:induction false} AddressesLength(t: Typemap, base: int)
    ensures |Addresses(t, base)| == Size(t)
  {
    if |t| > 0 {
      AddressesLength(t[..|t| - 1], base);
    }
  }

  lemma {:induction false} AddressesConcat(s: Typemap, t: Typemap, base: int)
    ensures Addresses(s + t, base) == Addresses(s, base) + Addresses(t, base)
  {
    if |t| == 0 {
      assert s + t == s;
    } else {
      var n := |t| - 1;
      assert (s + t)[..|s + t| - 1] == s + t[..n];
      AddressesConcat(s, t[..n], base);
    }
  }

  /** Byte b of entry m, when all entries have the same size. */
  lemma {:induction false} AddressAt(t: Typemap, base: int, size: nat, m: int, b: int)
    requires forall k :: 0 <= k < |t| ==> t[k].size == size
    requires 0 <= m < |t| && 0 <= b < size
    ensures |Addresses(t, base)| == |t| * size
    ensures 0 <= m * size + b < |t| * size
    ensures Addresses(t, base)[m * size + b] == base + t[m].disp + b
  {
    var n := |t| - 1;
    AddressesLength(t, base);
    SizeOfUniform(t, size);
    AddressesLength(t[..n], base);
    SizeOfUniform(t[..n], size);
    assert |t| * size == n * size + size;
    if m < n {
      AddressAt(t[..n], base, size, m, b);
    }
  }

  type Memory = map<int, byte>

  predicate Readable(mem: Memory, addresses: seq<int>) {
    forall k :: 0 <= k < |addresses| ==> addresses[k] in mem
  }

  function Load(mem: Memory, addresses: seq<int>): (r: seq<byte>)
    requires Readable(mem, addresses)
    ensures |r| == |addresses| && forall k :: 0 <= k < |r| ==> r[k] == mem[addresses[k]]
  {
    seq(|addresses|, k requires 0 <= k < |addresses| => mem[addresses[k]])
  }

  function Store(mem: Memory, addresses: seq<int>, data: seq<byte>): Memory
    requires |addresses| == |data|
  {
    if |data| == 0 then mem
    else Store(mem, addresses[..|data| - 1], data[..|data| - 1])[addresses[|data| - 1] := data[|data| - 1]]
  }

  /** The bytes at `from`, all read first, copied to `to`. */
  function Moved(mem: Memory, from: seq<int>, to: seq<int>): Memory
    requires Readable(mem, from) && |from| == |to|
  {
    Store(mem, to, Load(mem, from))
  }

  predicate Distinct(addresses: seq<int>) {
    forall i, j :: 0 <= i < j < |addresses| ==> addresses[i] != addresses[j]
  }

  /** A store writes each datum where it belongs and nothing anywhere else. */
  lemma {:induction false} StoreEffect(mem: Memory, addresses: seq<int>, data: seq<byte>)
    requires |addresses| == |data|
    ensures forall a :: a !in addresses ==>
              && (a in Store(mem, addresses, data) <==> a in mem)
              && (a in mem ==> Store(mem, addresses, data)[a] == mem[a])
    ensures forall k :: 0 <= k < |addresses| ==> addresses[k] in Store(mem, addresses, data)
    ensures Distinct(addresses) ==>
              forall k :: 0 <= k < |addresses| ==> Store(mem, addresses, data)[addresses[k]] == data[k]
  {
    if |data| > 0 {
      var n := |data| - 1;
      StoreEffect(mem, addresses[..n], data[..n]);
    }
  }
}
