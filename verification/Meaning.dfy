/** What the calls mean for the elements of the sections: the results that a Fortran program relies on. */
module Meaning {
  import opened CInt
  import opened Section
  import opened Layout
  import opened Typemaps
  import opened MpiState
  import opened MpiLibrary
  import opened CfiUtil
  import opened Indexed
  import opened Composition
  import opened Selection
  import opened Transfers

  // ---------------------------------------------------------------------------------------------
  // Every path describes the first `count` elements
  // ---------------------------------------------------------------------------------------------

  /** The descriptor and the predefined datatype agree on the size of an element. */
  predicate SameElements(desc: Descriptor, h: Handle) {
    h.Named? && BasicSize(h.basic) == desc.elemLen == ElementSize(desc.ctype) && 0 < desc.elemLen
  }

  lemma BlocksOfElements(dims: seq<Dim>, elemLen: nat, count: nat, size: nat)
    requires Positive(dims) && count <= Product(dims) && PrefixContiguous(dims, elemLen, count)
    ensures |Block(count, [Entry(0, size)], size, 0)| == count
    ensures Block(count, [Entry(0, size)], size, 0) == FirstElements(dims, count, elemLen)
       <==> count == 0 || size == elemLen
  {
    BlockAt(count, [Entry(0, size)], size, 0);
    ContiguousPrefix(dims, elemLen, count);
    var block, elements := Block(count, [Entry(0, size)], size, 0), FirstElements(dims, count, elemLen);
    if count > 0 && size != elemLen {
      assert block[0].size == size && elements[0].size == elemLen;
    } else if count > 0 {
      forall m | 0 <= m < count ensures block[m] == elements[m] {
        assert block[m] == Entry(0 + 0 + m * size, size);
        assert Disp(dims, m) == elemLen * m;
      }
    }
  }

  /** On a contiguous section the call passes the caller's datatype on; this means the section's first
      elements exactly when that datatype has the size of an element. */
  lemma ContiguousPathExact(st: State, desc: Descriptor, count: int, h: Handle)
    requires h.Named? && IsContiguous(desc) && WellFormed(desc.dims) && 0 <= count <= Product(desc.dims)
    ensures Entries(st, desc, count, h) == FirstElements(desc.dims, count, desc.elemLen)
       <==> count == 0 || BasicSize(h.basic) == desc.elemLen
  {
    if count > 0 {
      PositiveProduct(desc.dims);
      ContiguousEverywhere(desc, count);
      BlocksOfElements(desc.dims, desc.elemLen, count, BasicSize(h.basic));
    }
  }

  lemma BuiltDimsAreDims(desc: Descriptor, count: int)
    requires desc.elemLen == ElementSize(desc.ctype)
    ensures BuiltDims(desc, count) == desc.dims
  {
    assert desc.dims == [] || desc.dims == [desc.dims[0]] + desc.dims[1..];
  }

  /** Whichever path a call takes, and whichever form the created datatype has, what is transferred is the
      first `count` elements in array element order. */
  lemma EveryPathIsTheSection(st: State, desc: Descriptor, count: int, h: Handle)
    requires SameElements(desc, h) && WellFormed(desc.dims) && 0 <= count <= Product(desc.dims)
    ensures Entries(st, desc, count, h) == FirstElements(desc.dims, count, desc.elemLen)
  {
    BuiltDimsAreDims(desc, count);
    if IsContiguous(desc) { ContiguousPathExact(st, desc, count, h); }
  }

  /** A section that is not contiguous ends the program exactly if it is not accepted. */
  lemma StridedStops(st: State, desc: Descriptor, count: int, h: Handle)
    requires h.Named? && !IsContiguous(desc) && Describable(st, desc, h)
    ensures GoodBuffer(st, desc, h)
    ensures BufferCode(st, desc, count, h) == if AcceptsBuiltin(desc, count) then Success else Aborted
  {
    hide GuardsPass, Product, SizeCheck, IsContiguous, WellFormed, IsOpen;
  }

  /** So the four elements of character(8) do. */
  lemma CharacterStops(st: State)
    ensures var desc, h := Descriptor(0, 8, Char, [Dim(4, 16)]), Named(MpiChar);
            GoodBuffer(st, desc, h) && BufferCode(st, desc, 4, h) == Aborted
  {
    CharacterExample();
    hide BuiltinCode;
    StridedStops(st, Descriptor(0, 8, Char, [Dim(4, 16)]), 4, Named(MpiChar));
  }

  lemma OneMorePiece(n: nat, size: nat, at: int)
    ensures Block(0, [Entry(0, size)], size, 0) == [] && Addresses([], at) == CopyRange(at, size, 0, 0)
    ensures n > 0 ==>
              Block(n, [Entry(0, size)], size, 0)
              == Block(n - 1, [Entry(0, size)], size, 0) + [Entry((n - 1) * size, size)]
    ensures n > 0 ==> CopyRange(at, size, 0, n) == CopyRange(at, size, 0, n - 1) + Range(at + (n - 1) * size, size)
  {
    if n > 0 { assert Shift([Entry(0, size)], 0 + (n - 1) * size) == [Entry((n - 1) * size, size)]; }
  }

  lemma {:induction false} BlockPieces(n: nat, size: nat, at: int)
    ensures Addresses(Block(n, [Entry(0, size)], size, 0), at) == CopyRange(at, size, 0, n)
  {
    hide *;
    OneMorePiece(n, size, at);
    if n > 0 {
      BlockPieces(n - 1, size, at);
      AddressesConcat(Block(n - 1, [Entry(0, size)], size, 0), [Entry((n - 1) * size, size)], at);
      AddressesOfOne((n - 1) * size, size, at);
    }
  }

  lemma BlockIsRange(n: nat, size: nat, at: int)
    ensures Addresses(Block(n, [Entry(0, size)], size, 0), at) == Range(at, n * size)
  {
    hide *;
    BlockPieces(n, size, at);
    CopyRangeIsRange(at, size, 0, n);
  }

  /** What is accepted is the section's first elements. */
  lemma StridedBuffer(st: State, desc: Descriptor, count: nat, h: Handle)
    requires h.Named? && !IsContiguous(desc) && WellFormed(desc.dims) && desc.elemLen == ElementSize(desc.ctype)
    requires BufferCode(st, desc, count, h) == Success
    ensures 0 < desc.elemLen && count <= Product(desc.dims) && Buffer(st, desc, count, h) == SectionBytes(desc, count)
  {
    BuiltDimsAreDims(desc, count);
  }

  lemma CopiedBytes(desc: Descriptor, count: nat, mem: Memory, copy: Memory, at: int)
    requires 0 < desc.elemLen && count <= Product(desc.dims)
    requires IsCopyOf(mem, desc.base, desc.dims, desc.elemLen, copy, at)
    ensures SameData(mem, SectionBytes(desc, count), copy, Range(at, count * desc.elemLen))
  {
    hide Product, Disp, IsCopyOf, SameData;
    SegmentMeaning(mem, desc.base, desc.dims, desc.elemLen, copy, at, 0, count);
    CopyRangeIsRange(at, desc.elemLen, 0, count);
    assert SegmentElements(desc.dims, desc.elemLen, 0, count) == FirstElements(desc.dims, count, desc.elemLen);
  }

  lemma TransferIsRange(st: State, count: nat, h: Handle, at: int)
    requires h.Named?
    ensures Addresses(Transfer(st, count, h), at) == Range(at, count * BasicSize(h.basic))
    ensures Size(Transfer(st, count, h)) == count * BasicSize(h.basic)
  {
    hide Addresses, Block;
    BlockIsRange(count, BasicSize(h.basic), at);
    AddressesLength(Transfer(st, count, h), at);
  }

  lemma SameLength(mem: Memory, a: seq<int>, copy: Memory, b: seq<int>)
    ensures SameData(mem, a, copy, b) ==> |a| == |b|
  {
    if SameData(mem, a, copy, b) { assert |Load(mem, a)| == |Load(copy, b)|; }
  }

  /** On any other section the caller's predefined datatype is not looked at.  The call still does what was
      asked for, to take from the section what the datatype takes from a contiguous copy of it, exactly when
      the datatype has the size of an element. */
  lemma StridedPathExact(st: State, desc: Descriptor, count: nat, h: Handle, mem: Memory, copy: Memory, at: int)
    requires h.Named? && !IsContiguous(desc) && WellFormed(desc.dims) && desc.elemLen == ElementSize(desc.ctype)
    requires BufferCode(st, desc, count, h) == Success
    requires IsCopyOf(mem, desc.base, desc.dims, desc.elemLen, copy, at)
    ensures |Buffer(st, desc, count, h)| == Size(Transfer(st, count, h))
       <==> count == 0 || BasicSize(h.basic) == desc.elemLen
    ensures SameData(mem, Buffer(st, desc, count, h), copy, Addresses(Transfer(st, count, h), at))
       <==> count == 0 || BasicSize(h.basic) == desc.elemLen
  {
    var size, sent, asked := BasicSize(h.basic), Buffer(st, desc, count, h), Addresses(Transfer(st, count, h), at);
    hide *;
    StridedBuffer(st, desc, count, h);
    SectionLength(desc, count);
    CopiedBytes(desc, count, mem, copy, at);
    TransferIsRange(st, count, h, at);
    SameMultiple(count, size, desc.elemLen);
    SameLength(mem, sent, copy, asked);
  }

  /** Sixteen characters asked for, from every other element of an array of float: 64 bytes are transferred. */
  lemma DatatypeIgnoredExample(st: State)
    ensures var desc := Descriptor(0, 4, Float, [Dim(16, 8)]);
            && !IsContiguous(desc) && GoodBuffer(st, desc, Named(MpiChar))
            && BufferCode(st, desc, 16, Named(MpiChar)) == Success
            && |Buffer(st, desc, 16, Named(MpiChar))| == 64
            && Size(Transfer(st, 16, Named(MpiChar))) == 16
  {
    var desc, h := Descriptor(0, 4, Float, [Dim(16, 8)]), Named(MpiChar);
    OneDimension(Dim(16, 8));
    hide Product, GuardsPass, FirstElements, Transfer, Addresses;
    assert BufferCode(st, desc, 16, h) == Success;
    StridedBuffer(st, desc, 16, h);
    SectionLength(desc, 16);
    TransferIsRange(st, 16, h, 0);
  }

  /** Asking for more elements only appends, even when the two counts are described in different forms. */
  lemma PrefixStable(st: State, desc: Descriptor, count1: nat, count2: nat, h: Handle)
    requires SameElements(desc, h) && WellFormed(desc.dims) && count1 <= count2 <= Product(desc.dims)
    ensures Entries(st, desc, count1, h) <= Entries(st, desc, count2, h)
  {
    EveryPathIsTheSection(st, desc, count1, h);
    EveryPathIsTheSection(st, desc, count2, h);
  }

  // ---------------------------------------------------------------------------------------------
  // Bytes of elements
  // ---------------------------------------------------------------------------------------------

  /** Byte b of element m. */
  function ElementByte(desc: Descriptor, m: int, b: int): int {
    desc.base + Disp(desc.dims, m) + b
  }

  function SectionBytes(desc: Descriptor, count: nat): seq<int> {
    Addresses(FirstElements(desc.dims, count, desc.elemLen), desc.base)
  }

  lemma SectionByte(desc: Descriptor, count: nat, m: int, b: int)
    requires 0 <= m < count && 0 <= b < desc.elemLen
    ensures |SectionBytes(desc, count)| == count * desc.elemLen
    ensures 0 <= m * desc.elemLen + b < count * desc.elemLen
    ensures SectionBytes(desc, count)[m * desc.elemLen + b] == ElementByte(desc, m, b)
  {
    AddressAt(FirstElements(desc.dims, count, desc.elemLen), desc.base, desc.elemLen, m, b);
  }

  lemma SectionLength(desc: Descriptor, count: nat)
    ensures |SectionBytes(desc, count)| == count * desc.elemLen
  {
    AddressesLength(FirstElements(desc.dims, count, desc.elemLen), desc.base);
    SizeOfUniform(FirstElements(desc.dims, count, desc.elemLen), desc.elemLen);
  }

  /** Every address of the section is a byte of an element. */
  lemma WhichByte(desc: Descriptor, count: nat, k: int)
    requires 0 <= k < |SectionBytes(desc, count)|
    ensures desc.elemLen > 0 && 0 <= k / desc.elemLen < count && 0 <= k % desc.elemLen < desc.elemLen
    ensures SectionBytes(desc, count)[k] == ElementByte(desc, k / desc.elemLen, k % desc.elemLen)
    ensures k == (k / desc.elemLen) * desc.elemLen + k % desc.elemLen
  {
    SectionLength(desc, count);
    assert desc.elemLen > 0;
    assert k < desc.elemLen * count;
    DivBound(k, desc.elemLen, count);
    assert k == desc.elemLen * (k / desc.elemLen) + k % desc.elemLen;
    SectionByte(desc, count, k / desc.elemLen, k % desc.elemLen);
  }

  /** No two entries overlap, in any of the forms: what MPI demands of a buffer that is received into. */
  lemma SpacedSectionIsDistinct(desc: Descriptor, count: nat)
    requires WellFormed(desc.dims) && count <= Product(desc.dims) && Spaced(desc.dims, desc.elemLen)
    ensures Distinct(SectionBytes(desc, count))
  {
    var bytes := SectionBytes(desc, count);
    forall i, j | 0 <= i < j < |bytes| ensures bytes[i] != bytes[j] {
      WhichByte(desc, count, i);
      WhichByte(desc, count, j);
      PositiveProduct(desc.dims);
      if i / desc.elemLen != j / desc.elemLen {
        DispSpacing(desc.dims, desc.elemLen, i / desc.elemLen, j / desc.elemLen);
      }
    }
  }

  // ---------------------------------------------------------------------------------------------
  // Pack, then unpack
  // ---------------------------------------------------------------------------------------------

  /** `after` holds in the target's elements what `sent` holds in the source's. */
  ghost predicate ElementsArrived(sent: Memory, source: Descriptor, after: Memory, target: Descriptor, count: nat) {
    forall m, b :: 0 <= m < count && 0 <= b < target.elemLen ==>
      && ElementByte(source, m, b) in sent && ElementByte(target, m, b) in after
      && after[ElementByte(target, m, b)] == sent[ElementByte(source, m, b)]
  }

  ghost predicate OthersKept(before: Memory, after: Memory, written: seq<int>) {
    forall a :: a !in written ==> (a in after <==> a in before) && (a in before ==> after[a] == before[a])
  }

  /** Packing one section and unpacking into another copies element m to element m, for sections of any two
      shapes whose target elements do not overlap, and changes nothing but the packed bytes and the elements
      of the target. */
  lemma PackUnpackRoundTrip(mem: Memory, source: Descriptor, target: Descriptor, count: nat, buffer: int)
    requires source.elemLen == target.elemLen
    requires Distinct(SectionBytes(target, count))
    requires Readable(mem, SectionBytes(source, count))
    ensures |SectionBytes(source, count)| == |SectionBytes(target, count)| == count * source.elemLen
    ensures var packed := Range(buffer, count * source.elemLen);
            var between := Moved(mem, SectionBytes(source, count), packed);
            && Readable(between, packed)
            && var after := Moved(between, packed, SectionBytes(target, count));
               && ElementsArrived(mem, source, after, target, count)
               && OthersKept(mem, after, packed + SectionBytes(target, count))
  {
    SectionLength(source, count);
    SectionLength(target, count);
    var from, to := SectionBytes(source, count), SectionBytes(target, count);
    var packed := Range(buffer, count * source.elemLen);
    StoreEffect(mem, packed, Load(mem, from));
    var between := Moved(mem, from, packed);
    assert Readable(between, packed);
    StoreEffect(between, to, Load(between, packed));
    var after := Moved(between, packed, to);
    forall m, b | 0 <= m < count && 0 <= b < source.elemLen
      ensures ElementByte(target, m, b) in after && ElementByte(source, m, b) in mem
      ensures after[ElementByte(target, m, b)] == mem[ElementByte(source, m, b)]
    {
      SectionByte(source, count, m, b);
      SectionByte(target, count, m, b);
      var k := m * source.elemLen + b;
      assert after[to[k]] == Load(between, packed)[k] == between[packed[k]] == Load(mem, from)[k];
    }
  }

  // ---------------------------------------------------------------------------------------------
  // Broadcast
  // ---------------------------------------------------------------------------------------------

  /** The memories of all ranks before and after a broadcast. */
  predicate Broadcast(descs: seq<Descriptor>, before: seq<Memory>, after: seq<Memory>, root: nat, count: nat)
    requires root < |descs| == |before| == |after|
  {
    var message := SectionBytes(descs[root], count);
    && Readable(before[root], message) && after[root] == before[root]
    && forall r :: 0 <= r < |descs| && r != root ==>
         && |SectionBytes(descs[r], count)| == |message|
         && after[r] == Store(before[r], SectionBytes(descs[r], count), Load(before[root], message))
  }

  /** Every rank ends up with the root's elements, whatever the ranks' shapes, and keeps all other bytes. */
  lemma BroadcastAgreement(descs: seq<Descriptor>, before: seq<Memory>, after: seq<Memory>,
                           root: nat, count: nat, r: nat)
    requires root < |descs| == |before| == |after| && Broadcast(descs, before, after, root, count)
    requires r < |descs| && descs[r].elemLen == descs[root].elemLen
    requires Distinct(SectionBytes(descs[r], count))
    ensures ElementsArrived(before[root], descs[root], after[r], descs[r], count)
    ensures OthersKept(before[r], after[r], SectionBytes(descs[r], count))
  {
    var message, to := SectionBytes(descs[root], count), SectionBytes(descs[r], count);
    if r != root { StoreEffect(before[r], to, Load(before[root], message)); }
    forall m, b | 0 <= m < count && 0 <= b < descs[r].elemLen
      ensures ElementByte(descs[r], m, b) in after[r] && ElementByte(descs[root], m, b) in before[root]
      ensures after[r][ElementByte(descs[r], m, b)] == before[root][ElementByte(descs[root], m, b)]
    {
      SectionByte(descs[root], count, m, b);
      SectionByte(descs[r], count, m, b);
      var k := m * descs[r].elemLen + b;
      assert r != root ==> after[r][to[k]] == Load(before[root], message)[k];
    }
  }

  // ---------------------------------------------------------------------------------------------
  // Nonblocking receives over whole runs
  // ---------------------------------------------------------------------------------------------

  /** Byte b of element m holds its part of the data, if the data goes that far. */
  ghost predicate ByteArrived(after: Memory, desc: Descriptor, data: seq<byte>, m: nat, b: nat) {
    var k := m * desc.elemLen + b;
    k < |data| ==> ElementByte(desc, m, b) in after && after[ElementByte(desc, m, b)] == data[k]
  }

  /** The elements hold the data, in array element order, as far as it goes. */
  ghost predicate DataArrived(after: Memory, desc: Descriptor, count: nat, data: seq<byte>) {
    forall m, b :: 0 <= m < count && 0 <= b < desc.elemLen ==> ByteArrived(after, desc, data, m, b)
  }

  /** The bytes of the section that a message of this length reaches. */
  function ReachedBytes(desc: Descriptor, count: nat, length: nat): (r: seq<int>)
    ensures |r| == if length < |SectionBytes(desc, count)| then length else |SectionBytes(desc, count)|
  {
    if length < |SectionBytes(desc, count)| then SectionBytes(desc, count)[..length] else SectionBytes(desc, count)
  }

  lemma ArrivedIsStored(mem: Memory, desc: Descriptor, count: nat, data: seq<byte>)
    ensures var to := ReachedBytes(desc, count, |data|);
            |to| <= |data| && Arrived(mem, SectionBytes(desc, count), data) == Store(mem, to, data[..|to|])
  {
    hide Store, SectionBytes;
    var bytes := SectionBytes(desc, count);
    assert bytes[..|bytes|] == bytes && data[..|data|] == data;
  }

  lemma StoredAt(mem: Memory, to: seq<int>, data: seq<byte>)
    requires |to| == |data| && Distinct(to)
    ensures forall x :: 0 <= x < |to| ==> to[x] in Store(mem, to, data) && Store(mem, to, data)[to[x]] == data[x]
    ensures OthersKept(mem, Store(mem, to, data), to)
  {
    StoreEffect(mem, to, data);
  }

  lemma ReachedByte(desc: Descriptor, count: nat, length: nat, m: int, b: int)
    requires 0 <= m < count && 0 <= b < desc.elemLen && m * desc.elemLen + b < length
    ensures 0 <= m * desc.elemLen + b < |ReachedBytes(desc, count, length)|
    ensures ReachedBytes(desc, count, length)[m * desc.elemLen + b] == ElementByte(desc, m, b)
  {
    hide SectionBytes, ElementByte;
    SectionByte(desc, count, m, b);
  }

  lemma ByteStored(mem: Memory, desc: Descriptor, count: nat, data: seq<byte>, m: nat, b: nat)
    requires |ReachedBytes(desc, count, |data|)| <= |data| && Distinct(ReachedBytes(desc, count, |data|))
    requires m < count && b < desc.elemLen
    ensures var to := ReachedBytes(desc, count, |data|);
            ByteArrived(Store(mem, to, data[..|to|]), desc, data, m, b)
  {
    var to := ReachedBytes(desc, count, |data|);
    hide Store, SectionBytes, ElementByte, Distinct, ReachedBytes;
    if m * desc.elemLen + b < |data| {
      ReachedByte(desc, count, |data|, m, b);
      StoredAt(mem, to, data[..|to|]);
    }
  }

  lemma ArrivedInSection(mem: Memory, desc: Descriptor, count: nat, data: seq<byte>)
    requires Distinct(SectionBytes(desc, count))
    ensures DataArrived(Arrived(mem, SectionBytes(desc, count), data), desc, count, data)
    ensures OthersKept(mem, Arrived(mem, SectionBytes(desc, count), data), ReachedBytes(desc, count, |data|))
  {
    var to := ReachedBytes(desc, count, |data|);
    assert Distinct(to);
    hide Store, Arrived, SectionBytes, Distinct, ReachedBytes, OthersKept, ByteArrived;
    ArrivedIsStored(mem, desc, count, data);
    StoredAt(mem, to, data[..|to|]);
    forall m, b | 0 <= m < count && 0 <= b < desc.elemLen
      ensures ByteArrived(Store(mem, to, data[..|to|]), desc, data, m, b)
    {
      ByteStored(mem, desc, count, data, m, b);
    }
  }

  /** No address is in both lists. */
  predicate Apart(a: seq<int>, b: seq<int>) {
    forall x :: x in a ==> x !in b
  }

  lemma ArrivedElsewhere(mem: Memory, addresses: seq<int>, data: seq<byte>, bytes: seq<int>)
    requires Apart(addresses, bytes)
    ensures forall a :: a in bytes && a in mem ==>
              a in Arrived(mem, addresses, data) && Arrived(mem, addresses, data)[a] == mem[a]
  {
    var n := if |data| < |addresses| then |data| else |addresses|;
    StoreEffect(mem, addresses[..n], data[..n]);
    assert forall a :: a in bytes ==> a !in addresses[..n];
  }

  /** What has arrived stays while nothing else is written there. */
  lemma DataStays(mem: Memory, later: Memory, desc: Descriptor, count: nat, data: seq<byte>)
    requires DataArrived(mem, desc, count, data)
    requires forall a :: a in SectionBytes(desc, count) && a in mem ==> a in later && later[a] == mem[a]
    ensures DataArrived(later, desc, count, data)
  {
    hide SectionBytes, ElementByte;
    forall m, b | 0 <= m < count && 0 <= b < desc.elemLen ensures ByteArrived(later, desc, data, m, b) {
      assert ByteArrived(mem, desc, data, m, b);
      SectionByte(desc, count, m, b);
    }
  }

  lemma CompletedMemory(st: State, r: nat, data: seq<byte>)
    requires r in st.pending && Exists(st, st.pending[r].datatyp) && st.pending[r].receive
    ensures Completed(st, r, data).mem == Arrived(st.mem, OpAddresses(st, r), data)
  {
  }

  /** A receive posted for a section fills that section when it completes, as far as the message goes and
      whatever happens in between: other operations, other datatypes, and the free of its own datatype. */
  lemma PendingReceiveFillsSection(posted: State, now: State, r: nat, desc: Descriptor, count: nat, data: seq<byte>)
    requires MpiState.Valid(posted) && Reaches(posted, now) && r in posted.pending && r in now.pending
    requires posted.pending[r].receive && OpAddresses(posted, r) == SectionBytes(desc, count)
    requires Distinct(SectionBytes(desc, count))
    ensures Exists(now, now.pending[r].datatyp)
    ensures DataArrived(Completed(now, r, data).mem, desc, count, data)
    ensures OthersKept(now.mem, Completed(now, r, data).mem, ReachedBytes(desc, count, |data|))
  {
    hide Completed, Arrived, DataArrived, OthersKept, SectionBytes, ReachedBytes;
    PendingKeepsMeaning(posted, now, r);
    ArrivedInSection(now.mem, desc, count, data);
    CompletedMemory(now, r, data);
  }

  /** The datatype that a completed operation used is gone exactly when it has no handle and no other user. */
  lemma ReclaimedByLastUser(posted: State, now: State, r: nat, data: seq<byte>, id: nat)
    requires MpiState.Valid(posted) && Reaches(posted, now) && r in posted.pending && r in now.pending
    requires posted.pending[r].datatyp == Derived(id)
    ensures id in now.types && Exists(now, now.pending[r].datatyp)
    ensures id !in Completed(now, r, data).types <==>
              id !in Handles(now) && forall q :: q in now.pending && q != r ==> now.pending[q].datatyp != Derived(id)
  {
    PendingKeepsMeaning(posted, now, r);
    CompletedTypes(now, r, data);
    var end := Completed(now, r, data);
    if q :| q in now.pending && q != r && now.pending[q].datatyp == Derived(id) {
      assert q in end.pending && end.pending[q].datatyp == Derived(id);
    }
  }

  // ---------------------------------------------------------------------------------------------
  // Sendrecv
  // ---------------------------------------------------------------------------------------------

  /** The caller's datatype on the receive side means the elements exactly if they are contiguous. */
  lemma ContiguousPlacement(st: State, rdesc: Descriptor, rcount: nat, rh: Handle)
    requires SameElements(rdesc, rh) && Positive(rdesc.dims) && rcount <= Product(rdesc.dims)
    ensures Transfer(st, rcount, rh) == FirstElements(rdesc.dims, rcount, rdesc.elemLen)
       <==> PrefixContiguous(rdesc.dims, rdesc.elemLen, rcount)
  {
    var block, elements := Transfer(st, rcount, rh), FirstElements(rdesc.dims, rcount, rdesc.elemLen);
    BlockAt(rcount, [Entry(0, rdesc.elemLen)], rdesc.elemLen, 0);
    ContiguousPrefix(rdesc.dims, rdesc.elemLen, rcount);
    hide Disp, Product, Block, PrefixContiguous;
    forall m | 0 <= m < rcount
      ensures block[m] == elements[m] <==> Disp(rdesc.dims, m) == rdesc.elemLen * m
    {
      assert block[m] == Entry(0 + 0 + m * rdesc.elemLen, rdesc.elemLen);
    }
    if block == elements {
      assert Consecutive(rdesc.dims, rdesc.elemLen, rcount);
    }
  }

  lemma NoPrefix(dims: seq<Dim>, unit: int)
    requires WellFormed(dims)
    ensures PrefixContiguous(dims, unit, 0)
  {
    hide Product;
    forall d | 0 <= d < |dims| ensures Product(dims[..d]) >= 0 { ProductSign(dims[..d]); }
  }

  /** Because the code tests the send side twice, what happens on the receive side is right exactly if the
      send side is contiguous and the elements to be received are too, or the send side is strided and the
      receive side, contiguous or not, is accepted for a datatype of its own. */
  lemma SendrecvPlacement(st: State, sdesc: Descriptor, rdesc: Descriptor, rcount: nat, rh: Handle)
    requires SameElements(rdesc, rh) && WellFormed(rdesc.dims) && rcount <= Product(rdesc.dims)
    requires !IsContiguous(sdesc) ==> |rdesc.dims| >= 1
    ensures ReceiveSideCode(st, sdesc, rdesc, rcount, rh) == Success
            && ReceiveEntries(st, sdesc, rdesc, rcount, rh) == FirstElements(rdesc.dims, rcount, rdesc.elemLen)
       <==> if IsContiguous(sdesc) then PrefixContiguous(rdesc.dims, rdesc.elemLen, rcount)
            else GuardsPass(rdesc.dims) && RankAllows(rdesc.dims, rcount)
                 && (rcount * rdesc.elemLen <= INT_MAX || (rcount * rdesc.elemLen + 32766) % 0x1_0000_0000 == 0)
  {
    hide GuardsPass, SizeCheck, PrefixContiguous, Product, Disp, Block, BuiltDims;
    if IsContiguous(sdesc) && rcount == 0 {
      NoPrefix(rdesc.dims, rdesc.elemLen);
      BlockLast(0, EntriesOf(st, rh), ExtentOf(st, rh));
    } else if IsContiguous(sdesc) {
      PositiveProduct(rdesc.dims);
      ContiguousPlacement(st, rdesc, rcount, rh);
    } else {
      BuiltDimsAreDims(rdesc, rcount);
      SizeCheckModulo(rcount, rdesc.elemLen, rdesc.elemLen);
    }
  }

  /** Five of eight contiguous elements, described with rank 15: with a strided send side they cannot be
      received. */
  lemma SendrecvRefusedExample(st: State, sdesc: Descriptor)
    requires !IsContiguous(sdesc)
    ensures var rdesc := Descriptor(0, 4, Float, Cube(4) + seq(12, _ => Dim(1, 32)));
            && IsContiguous(rdesc) && WellFormed(rdesc.dims) && Product(rdesc.dims) == 8
            && ReceiveSideCode(st, sdesc, rdesc, 5, Named(MpiFloat)) == Aborted
  {
    hide Product, GuardsPass;
    CubeProduct(4);
    ProductOfUnits(Cube(4), seq(12, _ => Dim(1, 32)));
  }

  /** Two elements received into every other element of an array, with a contiguous send side: the second
      one lands 4 bytes on instead of 8. */
  lemma SendrecvExample(st: State, sdesc: Descriptor)
    requires IsContiguous(sdesc)
    ensures var rdesc := Descriptor(0, 4, Float, [Dim(2, 8)]);
            && !IsContiguous(rdesc)
            && ReceiveEntries(st, sdesc, rdesc, 2, Named(MpiFloat)) == [Entry(0, 4), Entry(4, 4)]
            && FirstElements(rdesc.dims, 2, 4) == [Entry(0, 4), Entry(8, 4)]
  {
    var dims := [Dim(2, 8)];
    BlockAt(2, [Entry(0, 4)], 4, 0);
    assert dims[1..] == [];
    DispStep(dims, 0, 0);
    DispStep(dims, 1, 0);
  }

  // ---------------------------------------------------------------------------------------------
  // User-defined datatypes
  // ---------------------------------------------------------------------------------------------

  lemma SameTotal(count: nat, n: nat, size: nat, elemLen: nat)
    ensures (count * n) * size == count * (n * elemLen) <==> count == 0 || n == 0 || size == elemLen
  {
    MulAssoc(count, n, elemLen);
    SameMultiple(count * n, size, elemLen);
    SameMultiple(count, n, 0);
  }

  lemma ComposedLengths(st: State, desc: Descriptor, count: nat, h: Handle)
    requires MpiState.Valid(st) && h.Derived? && Exists(st, h) && desc.elemLen > 0
    ensures Size(SubarrayEntries(st, desc, count, h)) == |Addresses(SubarrayEntries(st, desc, count, h), desc.base)|
         == (count * ElementCount(IovOf(st, h), desc.elemLen)) * ElementSize(desc.ctype)
    ensures Size(Transfer(st, count, h)) == count * Size(IovOf(st, h))
  {
    hide Compose, Addresses, Block, Size, ElementCount, ElementSize, Narrow, MpiState.Valid;
    ComposedLength(Narrow(desc.dims), desc.elemLen, ElementSize(desc.ctype), IovOf(st, h), count, ExtentOf(st, h),
                   desc.base);
    TransferLength(st, count, h, 0, 0);
    AddressesLength(IovOf(st, h), 0);
  }

  /** The composed datatype describes whole elements, of the element type's size, whatever the section's element
      length.  It describes as many bytes as the caller asks for exactly if these elements have as many as the
      segments; for a type that is no longer than the section's elements, exactly if it is as long and the
      segments are whole elements, or there is nothing to describe. */
  lemma ComposedSizeExact(st: State, desc: Descriptor, count: nat, h: Handle)
    requires MpiState.Valid(st) && h.Derived? && Exists(st, h) && desc.elemLen > 0
    ensures Size(SubarrayEntries(st, desc, count, h)) == Size(Transfer(st, count, h))
       <==> count == 0 || ElementCount(IovOf(st, h), desc.elemLen) * ElementSize(desc.ctype) == Size(IovOf(st, h))
    ensures ElementSize(desc.ctype) <= desc.elemLen ==>
              (Size(SubarrayEntries(st, desc, count, h)) == Size(Transfer(st, count, h))
               <==> count == 0 || Size(IovOf(st, h)) == 0
                    || (ElementSize(desc.ctype) == desc.elemLen && WholeSizes(IovOf(st, h), desc.elemLen)))
  {
    var iov, elemLen, size := IovOf(st, h), desc.elemLen, ElementSize(desc.ctype);
    ComposedLengths(st, desc, count, h);
    hide *;
    WholeTotal(iov, elemLen);
    MulAssoc(count, ElementCount(iov, elemLen), size);
    SameMultiple(count, ElementCount(iov, elemLen) * size, Size(iov));
    if Size(iov) == 0 { NoWholeElements(ElementCount(iov, elemLen), elemLen); }
    if size <= elemLen && count > 0 && Size(iov) > 0
       && (count * ElementCount(iov, elemLen)) * size == count * Size(iov) {
      SizesForced(iov, elemLen, size, count);
    }
  }

  lemma NoWholeElements(n: nat, elemLen: nat)
    requires 0 < elemLen && n * elemLen <= 0
    ensures n == 0
  {
    if n > 0 { MulMono(1, n, elemLen); }
  }

  /** The segments with what is lost of them taken away: the whole elements of each, from the one that the
      division finds. */
  function Rounded(iov: Typemap, elemLen: nat): (r: Typemap)
    requires elemLen > 0
    ensures |r| == |iov|
  {
    seq(|iov|, i requires 0 <= i < |iov| =>
      Entry(TruncDiv(iov[i].disp, elemLen) * elemLen, Whole(iov[i].size, elemLen) * elemLen))
  }

  lemma RoundedSegment(segment: Entry, elemLen: nat)
    requires elemLen > 0
    ensures TruncDiv(TruncDiv(segment.disp, elemLen) * elemLen, elemLen) == TruncDiv(segment.disp, elemLen)
    ensures Whole(Whole(segment.size, elemLen) * elemLen, elemLen) == Whole(segment.size, elemLen)
    ensures (TruncDiv(segment.disp, elemLen) * elemLen) % elemLen == 0
    ensures (Whole(segment.size, elemLen) * elemLen) % elemLen == 0
  {
    var t, n := TruncDiv(segment.disp, elemLen), segment.size / elemLen;
    DivModUnique(0, elemLen, t);
    DivModUnique(0, elemLen, n);
    assert 0 + elemLen * t == t * elemLen && 0 + elemLen * n == n * elemLen;
    TruncDivExact(t * elemLen, elemLen);
  }

  /** Each begins less than an element from where it was, towards zero, and is less than an element shorter. */
  lemma RoundedBegins(iov: Typemap, elemLen: nat, i: nat)
    requires elemLen > 0 && i < |iov|
    ensures var was, now := iov[i], Rounded(iov, elemLen)[i];
            && now.disp % elemLen == 0 && now.size % elemLen == 0 && now.size <= was.size < now.size + elemLen
            && (was.disp >= 0 ==> 0 <= now.disp <= was.disp < now.disp + elemLen)
            && (was.disp <= 0 ==> now.disp - elemLen < was.disp <= now.disp <= 0)
  {
    TruncDivBounds(iov[i].disp, elemLen);
    WholeBounds(iov[i].size, elemLen);
    RoundedSegment(iov[i], elemLen);
    TowardsZero(iov[i].disp, elemLen);
  }

  lemma TowardsZero(d: int, elemLen: nat)
    requires elemLen > 0
    ensures d >= 0 ==> 0 <= TruncDiv(d, elemLen) * elemLen
    ensures d <= 0 ==> TruncDiv(d, elemLen) * elemLen <= 0
  {
    Split(d, elemLen);
    Split(-d, elemLen);
    MulMono(0, if d >= 0 then d / elemLen else (-d) / elemLen, elemLen);
  }

  /** Segments of whole elements, at whole elements, are as they were. */
  lemma RoundedAligned(iov: Typemap, elemLen: nat)
    requires elemLen > 0
    ensures Aligned(Rounded(iov, elemLen), elemLen)
    ensures Aligned(iov, elemLen) ==> Rounded(iov, elemLen) == iov
  {
    hide TruncDiv, Whole;
    forall i | 0 <= i < |iov| ensures Rounded(iov, elemLen)[i].disp % elemLen == 0
                                      && Rounded(iov, elemLen)[i].size % elemLen == 0
                                      && (Aligned(iov, elemLen) ==> Rounded(iov, elemLen)[i] == iov[i]) {
      RoundedSegment(iov[i], elemLen);
      if Aligned(iov, elemLen) {
        TruncDivExact(iov[i].disp, elemLen);
        WholeExact(iov[i].size, elemLen);
      }
    }
  }

  lemma RoundedLast(iov: Typemap, elemLen: nat)
    requires elemLen > 0 && |iov| > 0
    ensures var n, r := |iov| - 1, Rounded(iov, elemLen);
            && r[..n] == Rounded(iov[..n], elemLen)
            && TruncDiv(r[n].disp, elemLen) == TruncDiv(iov[n].disp, elemLen)
            && Whole(r[n].size, elemLen) == Whole(iov[n].size, elemLen)
  {
    RoundedSegment(iov[|iov| - 1], elemLen);
    hide TruncDiv, Whole;
  }

  lemma {:induction false} RoundedCount(iov: Typemap, elemLen: nat)
    requires elemLen > 0
    ensures ElementCount(Rounded(iov, elemLen), elemLen) == ElementCount(iov, elemLen)
  {
    hide TruncDiv, Whole, Rounded;
    if |iov| > 0 {
      RoundedLast(iov, elemLen);
      RoundedCount(iov[..|iov| - 1], elemLen);
    }
  }

  lemma {:induction false} RoundedCopy(dims: seq<Dim>, elemLen: nat, size: nat, iov: Typemap, shift: int)
    requires elemLen > 0
    ensures CopyElements(dims, elemLen, size, Rounded(iov, elemLen), shift)
         == CopyElements(dims, elemLen, size, iov, shift)
    decreases |iov|
  {
    hide *;
    CopyElementsLast(dims, elemLen, size, iov, shift);
    CopyElementsLast(dims, elemLen, size, Rounded(iov, elemLen), shift);
    if |iov| > 0 {
      RoundedLast(iov, elemLen);
      RoundedCopy(dims, elemLen, size, iov[..|iov| - 1], shift);
    }
  }

  lemma {:induction false} RoundedCompose(dims: seq<Dim>, elemLen: nat, size: nat, iov: Typemap, count: nat, step: int)
    requires elemLen > 0
    ensures Compose(dims, elemLen, size, Rounded(iov, elemLen), count, step)
         == Compose(dims, elemLen, size, iov, count, step)
    decreases count
  {
    hide *;
    ComposeLast(dims, elemLen, size, iov, count, step);
    ComposeLast(dims, elemLen, size, Rounded(iov, elemLen), count, step);
    if count > 0 {
      RoundedCompose(dims, elemLen, size, iov, count - 1, step);
      RoundedCopy(dims, elemLen, size, iov, (count - 1) * step);
    }
  }

  lemma RoundedInside(elemLen: nat, iov: Typemap, count: nat, step: int, total: int)
    requires elemLen > 0 && Inside(elemLen, iov, count, step, total)
    ensures Inside(elemLen, Rounded(iov, elemLen), count, step, total)
  {
    hide TruncDiv, Whole, SegmentInside;
    var rounded := Rounded(iov, elemLen);
    forall i | 0 <= i < |iov| ensures TruncDiv(rounded[i].disp, elemLen) == TruncDiv(iov[i].disp, elemLen)
                                      && Whole(rounded[i].size, elemLen) == Whole(iov[i].size, elemLen) {
      RoundedSegment(iov[i], elemLen);
    }
    forall j | 0 <= j < count ensures CopyInside(elemLen, rounded, j, step, total) {
      assert CopyInside(elemLen, iov, j, step, total);
    }
  }

  lemma RoundedLength(iov: Typemap, elemLen: nat, count: nat, extent: int, at: int)
    requires elemLen > 0
    ensures |Addresses(Block(count, Rounded(iov, elemLen), extent, 0), at)|
         == count * (ElementCount(iov, elemLen) * elemLen)
  {
    hide *;
    RoundedAligned(iov, elemLen);
    RoundedCount(iov, elemLen);
    AlignedBytes(Rounded(iov, elemLen), elemLen);
    BlockLength(count, Rounded(iov, elemLen), extent, at);
  }

  lemma NoData(mem: Memory, a: seq<int>, copy: Memory, b: seq<int>)
    requires |a| == |b| == 0
    ensures SameData(mem, a, copy, b)
  {
  }

  lemma InsideIfAccepted(st: State, desc: Descriptor, count: nat, h: Handle)
    requires Exists(st, h) && desc.elemLen > 0 && IndexedCode(st, desc, count, h) == Success
    ensures Inside(desc.elemLen, IovOf(st, h), count, ExtentOf(st, h), Product(Narrow(desc.dims)))
  {
    hide Product, Narrow, Inside, AddressCode, ElementCount;
  }

  /** What the composed datatype means, as the code is written, whatever it is composed of: of a contiguous copy
      of the section that the loops visit, the whole elements of `count` copies of the user's datatype, but with
      elemLen times its extent between them; exactly if the element type has the section's element length, or
      there is nothing to describe. */
  lemma ComposedMeaning(st: State, desc: Descriptor, count: nat, h: Handle, mem: Memory, copy: Memory, at: int)
    requires MpiState.Valid(st) && h.Derived? && Exists(st, h) && desc.elemLen > 0
    requires IndexedCode(st, desc, count, h) == Success
    requires IsCopyOf(mem, desc.base, Narrow(desc.dims), desc.elemLen, copy, at)
    ensures SameData(mem, Addresses(SubarrayEntries(st, desc, count, h), desc.base),
                     copy, Addresses(Block(count, Rounded(IovOf(st, h), desc.elemLen), ExtentOf(st, h) * desc.elemLen,
                                           0), at))
       <==> SizeIsRight(desc.ctype, desc.elemLen, IovOf(st, h), count)
  {
    var dims, elemLen, size, iov := Narrow(desc.dims), desc.elemLen, ElementSize(desc.ctype), IovOf(st, h);
    var rounded, extent := Rounded(iov, elemLen), ExtentOf(st, h) * elemLen;
    var composed, meant := Addresses(SubarrayEntries(st, desc, count, h), desc.base),
                           Addresses(Block(count, rounded, extent, 0), at);
    ComposedLengths(st, desc, count, h);
    InsideIfAccepted(st, desc, count, h);
    assert SubarrayEntries(st, desc, count, h) == Compose(dims, elemLen, size, iov, count, ExtentOf(st, h));
    assert SizeIsRight(desc.ctype, elemLen, iov, count)
       <==> count == 0 || ElementCount(iov, elemLen) == 0 || size == elemLen;
    hide *;
    RoundedLength(iov, elemLen, count, extent, at);
    SameTotal(count, ElementCount(iov, elemLen), size, elemLen);
    SameLength(mem, composed, copy, meant);
    if count == 0 || ElementCount(iov, elemLen) == 0 {
      NoData(mem, composed, copy, meant);
    } else if size == elemLen {
      RoundedAligned(iov, elemLen);
      RoundedInside(elemLen, iov, count, ExtentOf(st, h), Product(dims));
      RoundedCompose(dims, elemLen, elemLen, iov, count, ExtentOf(st, h));
      ComposeMeaning(mem, desc.base, dims, elemLen, copy, at, rounded, count, ExtentOf(st, h));
    }
  }

  // ---------------------------------------------------------------------------------------------
  // Packing the section is packing a contiguous copy
  // ---------------------------------------------------------------------------------------------

  /** All of them are bytes of a contiguous array of so many. */
  predicate Within(xs: seq<int>, total: int) {
    forall k :: 0 <= k < |xs| ==> 0 <= xs[k] < total
  }

  lemma WithinConcat(xs: seq<int>, ys: seq<int>, total: int)
    requires Within(xs, total) && Within(ys, total)
    ensures Within(xs + ys, total)
  {
  }

  lemma FitsWithin(segment: Entry, shift: int, total: int)
    requires SegmentFits(segment, shift, total)
    ensures Within(Range(0 + (segment.disp + shift), segment.size), total)
  {
  }

  lemma {:induction false} CopyWithin(iov: Typemap, shift: int, total: int)
    requires SegmentsFit(iov, shift, total)
    ensures Within(Addresses(Shift(iov, shift), 0), total)
    decreases |iov|
  {
    ShiftedLast(iov, shift, 0);
    if |iov| > 0 {
      var n := |iov| - 1;
      assert forall i :: 0 <= i < n ==> iov[..n][i] == iov[i];
      assert SegmentsFit(iov[..n], shift, total) && SegmentFits(iov[n], shift, total);
      hide *;
      CopyWithin(iov[..n], shift, total);
      FitsWithin(iov[n], shift, total);
      WithinConcat(Addresses(Shift(iov[..n], shift), 0), Range(0 + (iov[n].disp + shift), iov[n].size), total);
    }
  }

  lemma {:induction false} BlockWithin(iov: Typemap, count: nat, extent: int, total: int)
    requires CopiesFit(iov, count, extent, total)
    ensures Within(Addresses(Block(count, iov, extent, 0), 0), total)
    decreases count
  {
    BlockLast(count, iov, extent);
    NoAddresses(0);
    if count > 0 {
      var j := count - 1;
      assert CopyFitsAt(iov, extent, j, total);
      assert CopiesFit(iov, j, extent, total) && SegmentsFit(iov, j * extent, total);
      hide *;
      BlockWithin(iov, j, extent, total);
      CopyWithin(iov, j * extent, total);
      AddressesConcat(Block(j, iov, extent, 0), Shift(iov, j * extent), 0);
      WithinConcat(Addresses(Block(j, iov, extent, 0), 0), Addresses(Shift(iov, j * extent), 0), total);
    }
  }

  /** The section and its copy agree on every byte. */
  lemma CopiedByte(mem: Memory, base: int, dims: seq<Dim>, elemLen: nat, copy: Memory, at: int, x: int)
    requires elemLen > 0 && IsCopyOf(mem, base, dims, elemLen, copy, at) && 0 <= x < Product(dims) * elemLen
    ensures var a := ByteOf(dims, elemLen, base, x);
            a in mem && at + x in copy && mem[a] == copy[at + x]
  {
    hide Product, Disp;
    WhichElement(x, Product(dims), elemLen);
    var m, b := x / elemLen, x % elemLen;
    assert ElementCopied(mem, base, dims, elemLen, copy, at, m);
    var here, there := Range(base + Disp(dims, m), elemLen), Range(at + m * elemLen, elemLen);
    assert here[b] == ByteOf(dims, elemLen, base, x) && there[b] == at + x;
    assert Load(mem, here)[b] == Load(copy, there)[b];
  }

  lemma MappedData(mem: Memory, base: int, dims: seq<Dim>, elemLen: nat, copy: Memory, at: int, xs: seq<int>,
                   there: seq<int>)
    requires elemLen > 0 && IsCopyOf(mem, base, dims, elemLen, copy, at) && Within(xs, Product(dims) * elemLen)
    requires |there| == |xs| && forall k :: 0 <= k < |xs| ==> there[k] == xs[k] + at
    ensures SameData(mem, Mapped(dims, elemLen, base, xs), copy, there)
  {
    var meant := Mapped(dims, elemLen, base, xs);
    hide IsCopyOf, ByteOf, Product;
    forall k | 0 <= k < |xs| ensures meant[k] in mem && there[k] in copy && mem[meant[k]] == copy[there[k]] {
      CopiedByte(mem, base, dims, elemLen, copy, at, xs[k]);
    }
    assert Load(mem, meant) == Load(copy, there);
  }

  lemma TransferWithin(st: State, desc: Descriptor, count: nat, h: Handle)
    requires MpiState.Valid(st) && Selects(st, desc, count, h)
    ensures Within(Addresses(Transfer(st, count, h), 0), Product(desc.dims) * desc.elemLen)
  {
    assert FaithfulIov(st.types[h.id]);
    hide Addresses, Block, CopiesFit, Product, Within;
    BlockWithin(IovOf(st, h), count, ExtentOf(st, h), Product(desc.dims) * desc.elemLen);
    BlockOfSameBytes(IovOf(st, h), EntriesOf(st, h), count, ExtentOf(st, h), 0);
  }

  /** The bytes meant hold the data of the copies of the user's datatype. */
  lemma MeantData(st: State, desc: Descriptor, count: nat, h: Handle, mem: Memory, copy: Memory, at: int)
    requires MpiState.Valid(st) && Selects(st, desc, count, h)
    requires IsCopyOf(mem, desc.base, desc.dims, desc.elemLen, copy, at)
    ensures SameData(mem, Meant(st, desc, count, h), copy, Addresses(Transfer(st, count, h), at))
    ensures |Meant(st, desc, count, h)| == |Addresses(Transfer(st, count, h), at)|
  {
    var xs := Addresses(Transfer(st, count, h), 0);
    assert Meant(st, desc, count, h) == Mapped(desc.dims, desc.elemLen, desc.base, xs);
    hide *;
    TransferWithin(st, desc, count, h);
    AddressesFrom(Transfer(st, count, h), at);
    MappedData(mem, desc.base, desc.dims, desc.elemLen, copy, at, xs, Addresses(Transfer(st, count, h), at));
  }

  function Mark(a: int, mark: int): byte {
    if a == mark then 1 else 0
  }

  /** A memory that holds the section, with 1 at one address and 0 at all others. */
  function Marked(dims: seq<Dim>, elemLen: nat, base: int, mark: int): Memory
    requires elemLen > 0
  {
    map a | a in (set x | 0 <= x < Product(dims) * elemLen :: ByteOf(dims, elemLen, base, x)) :: Mark(a, mark)
  }

  function MarkOfCopy(dims: seq<Dim>, elemLen: nat, base: int, mark: int, at: int, a: int): byte
    requires elemLen > 0
  {
    Mark(ByteOf(dims, elemLen, base, a - at), mark)
  }

  /** A contiguous copy of it. */
  function MarkedCopy(dims: seq<Dim>, elemLen: nat, base: int, mark: int, at: int): Memory
    requires elemLen > 0
  {
    map a | at <= a < at + Product(dims) * elemLen :: MarkOfCopy(dims, elemLen, base, mark, at, a)
  }

  lemma MarkedIsCopied(dims: seq<Dim>, elemLen: nat, base: int, mark: int, at: int)
    requires elemLen > 0
    ensures IsCopyOf(Marked(dims, elemLen, base, mark), base, dims, elemLen,
                     MarkedCopy(dims, elemLen, base, mark, at), at)
  {
    var mem, copy := Marked(dims, elemLen, base, mark), MarkedCopy(dims, elemLen, base, mark, at);
    hide Product, Disp, ByteOf;
    forall m | 0 <= m < Product(dims) ensures ElementCopied(mem, base, dims, elemLen, copy, at, m) {
      var here, there := Range(base + Disp(dims, m), elemLen), Range(at + m * elemLen, elemLen);
      forall b | 0 <= b < elemLen ensures here[b] in mem && there[b] in copy && mem[here[b]] == copy[there[b]] {
        ElementBound(m, elemLen, b, Product(dims));
        ByteOfElement(dims, elemLen, base, m, b);
        assert here[b] == ByteOf(dims, elemLen, base, m * elemLen + b) && there[b] == at + (m * elemLen + b);
      }
      assert Load(mem, here) == Load(copy, there);
    }
  }

  /** Where the composed datatype describes other bytes, some memory shows it. */
  lemma OtherBytesShow(st: State, desc: Descriptor, count: nat, h: Handle, composed: seq<int>, at: int)
      returns (mem: Memory, copy: Memory)
    requires MpiState.Valid(st) && Selects(st, desc, count, h) && composed != Meant(st, desc, count, h)
    ensures IsCopyOf(mem, desc.base, desc.dims, desc.elemLen, copy, at)
    ensures !SameData(mem, composed, copy, Addresses(Transfer(st, count, h), at))
  {
    var meant, there := Meant(st, desc, count, h), Addresses(Transfer(st, count, h), at);
    var k := if |composed| == |meant| then FirstDifference(composed, meant) else 0;
    var mark := if |composed| == |meant| then meant[k] else 0;
    mem := Marked(desc.dims, desc.elemLen, desc.base, mark);
    copy := MarkedCopy(desc.dims, desc.elemLen, desc.base, mark, at);
    MarkedIsCopied(desc.dims, desc.elemLen, desc.base, mark, at);
    MeantData(st, desc, count, h, mem, copy, at);
    assert meant == Meant(st, desc, count, h) && there == Addresses(Transfer(st, count, h), at);
    assert forall a :: a in mem ==> mem[a] == Mark(a, mark);
    assert Mark(mark, mark) == 1 && (|composed| == |meant| ==> Mark(composed[k], mark) == 0);
    hide *;
    SameLength(mem, composed, copy, there);
    if SameData(mem, composed, copy, there) { DataAt(mem, composed, meant, copy, there, k); }
  }

  lemma DataAt(mem: Memory, a: seq<int>, b: seq<int>, copy: Memory, c: seq<int>, k: nat)
    requires SameData(mem, a, copy, c) && SameData(mem, b, copy, c) && k < |a| == |b|
    ensures a[k] in mem && b[k] in mem && mem[a[k]] == mem[b[k]]
  {
    assert Load(mem, a)[k] == Load(copy, c)[k] && Load(mem, b)[k] == Load(copy, c)[k];
  }

  function FirstDifference(a: seq<int>, b: seq<int>): (k: nat)
    requires |a| == |b| && a != b
    ensures k < |a| && a[k] != b[k]
  {
    if a[0] != b[0] then 0 else
      assert a == [a[0]] + a[1..] && b == [b[0]] + b[1..];
      1 + FirstDifference(a[1..], b[1..])
  }

  /** Packing the section through the composed datatype packs, from whatever is in memory, what packing a
      contiguous copy of the section through the user's datatype packs. */
  ghost predicate PacksAsCopy(st: State, desc: Descriptor, count: nat, h: Handle, at: int)
    requires Exists(st, h) && desc.elemLen > 0
  {
    forall mem: Memory, copy: Memory :: IsCopyOf(mem, desc.base, desc.dims, desc.elemLen, copy, at) ==>
      SameData(mem, Addresses(SubarrayEntries(st, desc, count, h), desc.base),
               copy, Addresses(Transfer(st, count, h), at))
  }

  /** It does, in a call that succeeds, exactly under the condition. */
  lemma CompositionPreservesMeaning(st: State, desc: Descriptor, count: nat, h: Handle, at: int)
    requires MpiState.Valid(st) && Selects(st, desc, count, h) && Spaced(desc.dims, desc.elemLen)
    ensures IndexedCode(st, desc, count, h) == Success && PacksAsCopy(st, desc, count, h, at)
       <==> Faithful(st, desc, count, h)
  {
    var composed := Addresses(SubarrayEntries(st, desc, count, h), desc.base);
    hide MpiState.Valid, Spaced, Faithful, IndexedCode, SubarrayEntries, Meant, IsCopyOf, SameData, Addresses, Transfer;
    CompositionExact(st, desc, count, h);
    if composed == Meant(st, desc, count, h) {
      forall mem: Memory, copy: Memory | IsCopyOf(mem, desc.base, desc.dims, desc.elemLen, copy, at)
        ensures SameData(mem, composed, copy, Addresses(Transfer(st, count, h), at))
      {
        MeantData(st, desc, count, h, mem, copy, at);
      }
    } else {
      var mem, copy := OtherBytesShow(st, desc, count, h, composed, at);
    }
  }

  /** For any number of copies, once the step between copies is counted in elements. */
  lemma ElementStepPreservesMeaning(st: State, desc: Descriptor, count: nat, h: Handle,
                                    mem: Memory, copy: Memory, at: int)
    requires MpiState.Valid(st) && h.Derived? && IsOpen(st, h) && desc.elemLen > 0
    requires Aligned(IovOf(st, h), desc.elemLen) && ExtentOf(st, h) % desc.elemLen == 0
    requires Inside(desc.elemLen, IovOf(st, h), count, ExtentOf(st, h) / desc.elemLen, Product(desc.dims))
    requires IsCopyOf(mem, desc.base, desc.dims, desc.elemLen, copy, at)
    ensures SameData(mem, Addresses(Compose(desc.dims, desc.elemLen, desc.elemLen, IovOf(st, h), count,
                                            ExtentOf(st, h) / desc.elemLen), desc.base),
                     copy, Addresses(Transfer(st, count, h), at))
  {
    var step := ExtentOf(st, h) / desc.elemLen;
    ComposeMeaning(mem, desc.base, desc.dims, desc.elemLen, copy, at, IovOf(st, h), count, step);
    assert step * desc.elemLen == ExtentOf(st, h) by { TruncDivExact(ExtentOf(st, h), desc.elemLen); }
    BlockOfSameBytes(IovOf(st, h), EntriesOf(st, h), count, ExtentOf(st, h), at);
  }
}
