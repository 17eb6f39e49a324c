/** The calls with a datatype that the program has made: they transfer the bytes that it selects from the contiguous
    array that the section stands for. */
module UserDatatypes {
  import opened CInt
  import opened Section
  import opened Layout
  import opened Typemaps
  import opened MpiState
  import opened MpiLibrary
  import opened CfiUtil
  import opened Indexed
  import opened Composition
  import opened Selection
  import opened Meaning
  import Transfers
  import Collectives

  // ---------------------------------------------------------------------------------------------
  // The buffer is what the datatype selects
  // ---------------------------------------------------------------------------------------------

  /** In a contiguous section every byte is in its own place. */
  lemma ContiguousByte(desc: Descriptor, x: int)
    requires IsContiguous(desc) && NonNegative(desc.dims) && desc.elemLen > 0
    requires 0 <= x < Product(desc.dims) * desc.elemLen
    ensures ByteOf(desc.dims, desc.elemLen, desc.base, x) == desc.base + x
  {
    ProductSign(desc.dims);
    hide IsContiguous, Product, Disp;
    WhichElement(x, Product(desc.dims), desc.elemLen);
    ContiguousIsConsecutive(desc);
    assert Disp(desc.dims, x / desc.elemLen) == desc.elemLen * (x / desc.elemLen);
  }

  lemma ContiguousMeant(st: State, desc: Descriptor, count: nat, h: Handle)
    requires MpiState.Valid(st) && Selects(st, desc, count, h) && IsContiguous(desc)
    ensures Meant(st, desc, count, h) == Addresses(Transfer(st, count, h), desc.base)
  {
    var xs, there := Addresses(Transfer(st, count, h), 0), Addresses(Transfer(st, count, h), desc.base);
    assert NonNegative(desc.dims) && desc.elemLen > 0;
    TransferWithin(st, desc, count, h);
    hide Selects, IsContiguous, Product, ByteOf, Addresses, Transfer, MpiState.Valid;
    AddressesFrom(Transfer(st, count, h), desc.base);
    forall k | 0 <= k < |xs| ensures Meant(st, desc, count, h)[k] == there[k] {
      ContiguousByte(desc, xs[k]);
    }
  }

  /** The call can transfer what the datatype selects: the datatype is passed on and may be used, or the datatype
      composed with it is the right one. */
  predicate Described(st: State, desc: Descriptor, count: nat, h: Handle)
    requires Exists(st, h) && desc.elemLen > 0
  {
    if IsContiguous(desc) then Usable(st, h) else Faithful(st, desc, count, h)
  }

  /** Every call that takes the section as a buffer accepts it, and transfers exactly the bytes that the caller's
      datatype selects, in their order, if and only if this condition holds. */
  lemma BufferIsMeant(st: State, desc: Descriptor, count: nat, h: Handle)
    requires MpiState.Valid(st) && Selects(st, desc, count, h) && Spaced(desc.dims, desc.elemLen)
    requires Transfers.GoodBuffer(st, desc, h)
    ensures Transfers.BufferCode(st, desc, count, h) == Success
            && Transfers.Buffer(st, desc, count, h) == Meant(st, desc, count, h)
       <==> Described(st, desc, count, h)
  {
    hide MpiState.Valid, Spaced, Faithful, IndexedCode, Meant, Addresses, Transfer, IsContiguous, Compose;
    hide Usable, WellFormed, ToMpiType, IsOpen;
    if IsContiguous(desc) {
      ContiguousMeant(st, desc, count, h);
    } else {
      CompositionExact(st, desc, count, h);
    }
  }

  /** On any other input a section that is not contiguous stops the program, or reads outside, as its composition
      does; a contiguous one is refused by the library if the datatype has not been committed. */
  lemma CompositionDecides(st: State, desc: Descriptor, count: int, h: Handle)
    requires h.Derived? && Transfers.GoodBuffer(st, desc, h)
    ensures !IsContiguous(desc) ==> Transfers.BufferCode(st, desc, count, h) == IndexedCode(st, desc, count, h)
    ensures IsContiguous(desc) ==>
              Transfers.BufferCode(st, desc, count, h)
              == if !Usable(st, h) then ErrType else if count < 0 then ErrCount else Success
  {
    hide Inside, Product, Narrow, Size, ElementCount, IsContiguous, WellFormed;
  }

  /** The receive side of CFI_MPI_Sendrecv: with a strided send side under the same condition, contiguous or not; and
      with a contiguous send side exactly if the selected bytes are where a contiguous array has them. */
  lemma ReceiveSideIsMeant(st: State, sdesc: Descriptor, rdesc: Descriptor, count: nat, h: Handle)
    requires MpiState.Valid(st) && Selects(st, rdesc, count, h) && Spaced(rdesc.dims, rdesc.elemLen)
    ensures Transfers.ReceiveSideCode(st, sdesc, rdesc, count, h) == Success
            && Addresses(Transfers.ReceiveEntries(st, sdesc, rdesc, count, h), rdesc.base)
            == Meant(st, rdesc, count, h)
       <==> if IsContiguous(sdesc) then Usable(st, h) && InOwnPlaces(st, rdesc, count, h)
            else Faithful(st, rdesc, count, h)
  {
    hide MpiState.Valid, Spaced, Faithful, IndexedCode, Meant, Addresses, Transfer, IsContiguous, Compose;
    hide Usable, WellFormed, ToMpiType, InOwnPlaces;
    if IsContiguous(sdesc) {
      OwnPlacesExact(st, rdesc, count, h);
    } else {
      CompositionExact(st, rdesc, count, h);
    }
  }

  /** The selected bytes of the section are where a contiguous array has them. */
  predicate InOwnPlaces(st: State, desc: Descriptor, count: nat, h: Handle)
    requires Exists(st, h) && desc.elemLen > 0
  {
    var xs := Addresses(Transfer(st, count, h), 0);
    forall k :: 0 <= k < |xs| ==> ByteOf(desc.dims, desc.elemLen, desc.base, xs[k]) == desc.base + xs[k]
  }

  lemma OwnPlacesExact(st: State, desc: Descriptor, count: nat, h: Handle)
    requires Exists(st, h) && desc.elemLen > 0
    ensures Addresses(Transfer(st, count, h), desc.base) == Meant(st, desc, count, h)
       <==> InOwnPlaces(st, desc, count, h)
  {
    hide ByteOf, Addresses, Transfer;
    AddressesFrom(Transfer(st, count, h), desc.base);
    var xs, there := Addresses(Transfer(st, count, h), 0), Addresses(Transfer(st, count, h), desc.base);
    var meant := Meant(st, desc, count, h);
    assert |meant| == |there| == |xs|;
    assert forall k :: 0 <= k < |xs| ==> meant[k] == ByteOf(desc.dims, desc.elemLen, desc.base, xs[k]);
    assert forall k :: 0 <= k < |xs| ==> there[k] == desc.base + xs[k];
    if InOwnPlaces(st, desc, count, h) {
      assert forall k :: 0 <= k < |xs| ==> meant[k] == there[k];
    }
    if there == meant {
      forall k | 0 <= k < |xs| ensures ByteOf(desc.dims, desc.elemLen, desc.base, xs[k]) == desc.base + xs[k] {
        assert meant[k] == there[k];
      }
    }
  }

  // ---------------------------------------------------------------------------------------------
  // Pack and unpack
  // ---------------------------------------------------------------------------------------------

  /** The argument is in order, and what the datatype selects can be transferred. */
  predicate GoodArgument(st: State, desc: Descriptor, count: nat, h: Handle) {
    && Selects(st, desc, count, h) && Spaced(desc.dims, desc.elemLen) && Transfers.GoodBuffer(st, desc, h)
    && Described(st, desc, count, h)
  }

  lemma ArgumentMeans(st: State, desc: Descriptor, count: nat, h: Handle)
    requires MpiState.Valid(st) && GoodArgument(st, desc, count, h)
    ensures Transfers.GoodBuffer(st, desc, h) && Transfers.BufferCode(st, desc, count, h) == Success
    ensures Transfers.Buffer(st, desc, count, h) == Meant(st, desc, count, h)
    ensures |Meant(st, desc, count, h)| == count * Size(IovOf(st, h))
    ensures !Transfers.Stops(st, desc, count, h)
  {
    hide Transfers.GoodBuffer, Spaced, Described, MpiState.Valid, Transfers.Buffer, Transfers.BufferCode;
    hide CopiesFit, Product, Addresses, Transfer, Size;
    BufferIsMeant(st, desc, count, h);
    TransferLength(st, count, h, 0, 0);
    AddressesLength(Transfer(st, count, h), 0);
    AddressesLength(IovOf(st, h), 0);
    NotStopped(st, desc, count, h);
  }

  lemma NotStopped(st: State, desc: Descriptor, count: nat, h: Handle)
    requires Transfers.GoodBuffer(st, desc, h) && Transfers.BufferCode(st, desc, count, h) == Success
    ensures !Transfers.Stops(st, desc, count, h)
  {
    hide Transfers.GoodBuffer;
  }

  /** Another memory, and the same datatypes: the same argument. */
  lemma SameArgument(st: State, later: State, desc: Descriptor, count: nat, h: Handle)
    requires GoodArgument(st, desc, count, h) && later.types == st.types
    ensures GoodArgument(later, desc, count, h) && Meant(later, desc, count, h) == Meant(st, desc, count, h)
    ensures IovOf(later, h) == IovOf(st, h)
  {
    hide Spaced, CopiesFit, Product, Mapped, PlacesRight, IsContiguous, WellFormed;
  }

  /** The bytes are where they were sent, in order, and nothing else has changed. */
  ghost predicate BytesMoved(before: Memory, from: seq<int>, after: Memory, to: seq<int>)
    requires |from| == |to|
  {
    && (forall k :: 0 <= k < |to| ==> from[k] in before && to[k] in after && after[to[k]] == before[from[k]])
    && OthersKept(before, after, to)
  }

  lemma MovedBytes(before: Memory, from: seq<int>, to: seq<int>)
    requires Readable(before, from) && |from| == |to| && Distinct(to)
    ensures BytesMoved(before, from, Moved(before, from, to), to)
  {
    StoreEffect(before, to, Load(before, from));
  }

  /** CFI_MPI_Pack with a user's datatype: the bytes that it selects from the section, in their order. */
  method PackSelected(lib: Mpi, desc: Descriptor, count: nat, h: Handle, buffer: Descriptor, size: int, position: int)
    returns (rc: Code, newPosition: int)
    requires lib.Valid() && GoodArgument(lib.state, desc, count, h)
    requires Readable(lib.state.mem, Meant(lib.state, desc, count, h))
    modifies lib
    ensures lib.Valid() && old(lib.history) <= lib.history
    ensures |Meant(old(lib.state), desc, count, h)| == count * Size(IovOf(old(lib.state), h))
    ensures rc == if !IsContiguous(buffer) then ErrArg
                  else if count * Size(IovOf(old(lib.state), h)) > size - position then ErrTruncate
                  else Success
    ensures rc != Success ==> newPosition == position && Transfers.Restored(old(lib.state), lib.state)
    ensures rc == Success ==>
              var from := Meant(old(lib.state), desc, count, h);
              && newPosition == position + |from|
              && BytesMoved(old(lib.state).mem, from, lib.state.mem, Range(buffer.base + position, |from|))
              && Transfers.Restored(old(lib.state).(mem := lib.state.mem), lib.state)
  {
    ValidState(lib);
    ArgumentMeans(lib.state, desc, count, h);
    hide GoodArgument, Mpi.Valid, Meant, Transfers.GoodBuffer, Transfers.BufferCode, Transfers.Buffer, BytesMoved;
    hide Readable, Moved, IsContiguous, MpiState.Valid, Transfers.Stops, Size;
    ghost var from := Meant(lib.state, desc, count, h);
    MovedBytes(lib.state.mem, from, Range(buffer.base + position, |from|));
    rc, newPosition := Transfers.Pack(lib, desc, count, h, buffer, size, position);
  }

  /** CFI_MPI_Unpack with a user's datatype, whose bytes do not overlap. */
  method UnpackSelected(lib: Mpi, buffer: Descriptor, size: int, position: int, desc: Descriptor, count: nat, h: Handle)
    returns (rc: Code, newPosition: int)
    requires lib.Valid() && GoodArgument(lib.state, desc, count, h) && Distinct(Meant(lib.state, desc, count, h))
    requires Readable(lib.state.mem, Range(buffer.base + position, |Meant(lib.state, desc, count, h)|))
    modifies lib
    ensures lib.Valid() && old(lib.history) <= lib.history
    ensures |Meant(old(lib.state), desc, count, h)| == count * Size(IovOf(old(lib.state), h))
    ensures rc == if !IsContiguous(buffer) then ErrArg
                  else if count * Size(IovOf(old(lib.state), h)) > size - position then ErrTruncate
                  else Success
    ensures rc != Success ==> newPosition == position && Transfers.Restored(old(lib.state), lib.state)
    ensures rc == Success ==>
              var to := Meant(old(lib.state), desc, count, h);
              && newPosition == position + |to|
              && BytesMoved(old(lib.state).mem, Range(buffer.base + position, |to|), lib.state.mem, to)
              && Transfers.Restored(old(lib.state).(mem := lib.state.mem), lib.state)
  {
    ValidState(lib);
    ArgumentMeans(lib.state, desc, count, h);
    hide GoodArgument, Mpi.Valid, Meant, Transfers.GoodBuffer, Transfers.BufferCode, Transfers.Buffer, BytesMoved;
    hide Readable, Moved, IsContiguous, MpiState.Valid, Transfers.Stops, Size, Distinct;
    ghost var to := Meant(lib.state, desc, count, h);
    MovedBytes(lib.state.mem, Range(buffer.base + position, |to|), to);
    rc, newPosition := Transfers.Unpack(lib, buffer, size, position, desc, count, h);
  }

  /** What is packed is what the datatype takes from any contiguous copy of the section. */
  lemma PackedAsCopy(st: State, desc: Descriptor, count: nat, h: Handle, after: Memory, packed: seq<int>,
                     copy: Memory, at: int)
    requires MpiState.Valid(st) && Selects(st, desc, count, h)
    requires IsCopyOf(st.mem, desc.base, desc.dims, desc.elemLen, copy, at)
    requires |packed| == |Meant(st, desc, count, h)| && BytesMoved(st.mem, Meant(st, desc, count, h), after, packed)
    ensures SameData(after, packed, copy, Addresses(Transfer(st, count, h), at))
  {
    var meant, there := Meant(st, desc, count, h), Addresses(Transfer(st, count, h), at);
    MeantData(st, desc, count, h, st.mem, copy, at);
    hide MpiState.Valid, Selects, Meant, IsCopyOf, Addresses, Transfer, OthersKept;
    forall k | 0 <= k < |packed| ensures packed[k] in after && there[k] in copy && after[packed[k]] == copy[there[k]] {
      assert Load(st.mem, meant)[k] == Load(copy, there)[k];
    }
    assert Load(after, packed) == Load(copy, there);
  }

  /** Packed from one section and unpacked into another: the bytes that the datatype selects are the same. */
  ghost predicate CarriedOver(before: Memory, from: seq<int>, after: Memory, to: seq<int>, packed: seq<int>)
    requires |from| == |to|
  {
    && (forall k :: 0 <= k < |to| ==> from[k] in before && to[k] in after && after[to[k]] == before[from[k]])
    && OthersKept(before, after, packed + to)
  }

  lemma CarriedBytes(before: Memory, from: seq<int>, between: Memory, packed: seq<int>, after: Memory, to: seq<int>)
    requires |from| == |packed| == |to|
    requires BytesMoved(before, from, between, packed) && BytesMoved(between, packed, after, to)
    ensures CarriedOver(before, from, after, to, packed)
  {
  }

  lemma PackedReadable(before: Memory, from: seq<int>, after: Memory, to: seq<int>)
    requires |from| == |to| && BytesMoved(before, from, after, to)
    ensures Readable(after, to)
  {
  }

  /** Packing what a datatype selects from one section, and unpacking it into another. */
  method RoundTrip(lib: Mpi, source: Descriptor, target: Descriptor, buffer: Descriptor, count: nat, h: Handle,
                   size: int, position: int) returns (rc: Code)
    requires lib.Valid() && GoodArgument(lib.state, source, count, h) && GoodArgument(lib.state, target, count, h)
    requires Readable(lib.state.mem, Meant(lib.state, source, count, h))
    requires Distinct(Meant(lib.state, target, count, h))
    modifies lib
    ensures lib.Valid() && old(lib.history) <= lib.history
    ensures rc == if !IsContiguous(buffer) then ErrArg
                  else if count * Size(IovOf(old(lib.state), h)) > size - position then ErrTruncate
                  else Success
    ensures var from, to := Meant(old(lib.state), source, count, h), Meant(old(lib.state), target, count, h);
            && |from| == |to|
            && (rc == Success ==>
                  && CarriedOver(old(lib.state).mem, from, lib.state.mem, to, Range(buffer.base + position, |from|))
                  && Transfers.Restored(old(lib.state).(mem := lib.state.mem), lib.state))
  {
    ghost var before := lib.state;
    ghost var from, to := Meant(before, source, count, h), Meant(before, target, count, h);
    ghost var packed := Range(buffer.base + position, |from|);
    ValidState(lib);
    ArgumentMeans(before, target, count, h);
    hide GoodArgument, Mpi.Valid, MpiState.Valid, Meant, BytesMoved, CarriedOver, Readable, IsContiguous, Size;
    hide Distinct, Transfers.GoodBuffer, Transfers.BufferCode, Transfers.Buffer, Transfers.Stops;
    var at;
    rc, at := PackSelected(lib, source, count, h, buffer, size, position);
    if rc != Success { return; }
    ghost var between := lib.state;
    SameArgument(before, between, target, count, h);
    PackedReadable(before.mem, from, between.mem, packed);
    rc, at := UnpackSelected(lib, buffer, size, position, target, count, h);
    CarriedBytes(before.mem, from, between.mem, packed, lib.state.mem, to);
  }

  // ---------------------------------------------------------------------------------------------
  // Nonblocking calls
  // ---------------------------------------------------------------------------------------------

  /** CFI_MPI_Isend and CFI_MPI_Irecv with a user's datatype: the operation covers what it selects. */
  method StartSelected(lib: Mpi, receive: bool, desc: Descriptor, count: nat, h: Handle)
    returns (rc: Code, request: nat)
    requires lib.Valid() && GoodArgument(lib.state, desc, count, h)
    modifies lib
    ensures lib.Valid() && old(lib.history) <= lib.history && rc == Success
    ensures Transfers.Started(old(lib.state), lib.state, receive, Meant(old(lib.state), desc, count, h), rc, request)
  {
    ValidState(lib);
    ArgumentMeans(lib.state, desc, count, h);
    hide GoodArgument, Mpi.Valid, Meant, Transfers.GoodBuffer, Transfers.BufferCode, Transfers.Buffer, MpiState.Valid;
    rc, request := Transfers.Start(lib, receive, desc, count, h);
  }

  /** The selected bytes hold the message, as far as it goes, and nothing else has changed. */
  ghost predicate MessageAt(before: Memory, after: Memory, to: seq<int>, data: seq<byte>) {
    && (forall k :: 0 <= k < |to| && k < |data| ==> to[k] in after && after[to[k]] == data[k])
    && OthersKept(before, after, if |data| < |to| then to[..|data|] else to)
  }

  /** Over any run, a receive that was started in this way fills the selected bytes when it completes, also when the
      program has freed its datatype in the meantime. */
  lemma PendingReceiveFillsSelected(posted: State, now: State, r: nat, to: seq<int>, data: seq<byte>)
    requires MpiState.Valid(posted) && Reaches(posted, now) && r in posted.pending && r in now.pending
    requires posted.pending[r].receive && OpAddresses(posted, r) == to && Distinct(to)
    ensures Exists(now, now.pending[r].datatyp)
    ensures MessageAt(now.mem, Completed(now, r, data).mem, to, data)
  {
    hide Completed, Arrived, OpAddresses, MpiState.Valid, Reaches, MessageAt, Distinct;
    PendingKeepsMeaning(posted, now, r);
    CompletedMemory(now, r, data);
    ArrivedAt(now.mem, to, data);
  }

  lemma ArrivedAt(mem: Memory, to: seq<int>, data: seq<byte>)
    requires Distinct(to)
    ensures MessageAt(mem, Arrived(mem, to, data), to, data)
  {
    var n := if |data| < |to| then |data| else |to|;
    StoreEffect(mem, to[..n], data[..n]);
    assert to[..|to|] == to;
    assert forall k :: 0 <= k < n ==> to[..n][k] == to[k];
  }

  // ---------------------------------------------------------------------------------------------
  // Broadcast and gather
  // ---------------------------------------------------------------------------------------------

  /** CFI_MPI_Bcast with a user's datatype: the root's message is what it selects, and any other process has a message
      of that length at what it selects. */
  method BcastSelected(lib: Mpi, desc: Descriptor, count: nat, h: Handle, isRoot: bool, incoming: seq<byte>)
    returns (rc: Code, outgoing: seq<byte>)
    requires lib.Valid() && GoodArgument(lib.state, desc, count, h)
    requires Readable(lib.state.mem, Meant(lib.state, desc, count, h))
    modifies lib
    ensures lib.Valid() && old(lib.history) <= lib.history
    ensures rc == if !isRoot && |incoming| != count * Size(IovOf(old(lib.state), h)) then ErrTruncate else Success
    ensures rc == Success && isRoot ==>
              && outgoing == Load(old(lib.state).mem, Meant(old(lib.state), desc, count, h))
              && Transfers.Restored(old(lib.state), lib.state)
    ensures rc == Success && !isRoot ==>
              && |incoming| == |Meant(old(lib.state), desc, count, h)|
              && Transfers.Restored(old(lib.state).(mem := Store(old(lib.state).mem,
                                                                 Meant(old(lib.state), desc, count, h), incoming)),
                                    lib.state)
  {
    ValidState(lib);
    ArgumentMeans(lib.state, desc, count, h);
    hide GoodArgument, Mpi.Valid, Meant, Transfers.GoodBuffer, Transfers.BufferCode, Transfers.Buffer, MpiState.Valid;
    hide Readable, Store, Transfers.Restored, Transfers.Stops, Size;
    rc, outgoing := Collectives.Bcast(lib, desc, count, h, isRoot, incoming);
  }

  /** Byte k of block j of n. */
  lemma {:induction false} BlockByte(n: nat, t: Typemap, extent: int, base: int, j: nat, k: nat)
    requires j < n && k < |Addresses(t, 0)|
    ensures |Addresses(Block(n, t, extent, 0), base)| == n * |Addresses(t, 0)|
    ensures 0 <= j * |Addresses(t, 0)| + k < n * |Addresses(t, 0)|
    ensures Addresses(Block(n, t, extent, 0), base)[j * |Addresses(t, 0)| + k]
         == base + Addresses(t, 0)[k] + j * extent
    decreases n
  {
    var len := |Addresses(t, 0)|;
    hide *;
    BlockLast(n, t, extent);
    BlockLength(n - 1, t, extent, base);
    BlockLength(n, t, extent, base);
    AddressesConcat(Block(n - 1, t, extent, 0), Shift(t, (n - 1) * extent), base);
    AddressesShift(t, (n - 1) * extent, base);
    AddressesFrom(t, base + (n - 1) * extent);
    NextMultiple(len, n - 1);
    NextMultiple(len, j);
    MulMono(0, j, len);
    MulMono(j + 1, n, len);
    if j < n - 1 { BlockByte(n - 1, t, extent, base, j, k); }
  }

  /** The distance between the blocks of two neighbouring processes, as the code describes it: `count` extents of the
      datatype on a contiguous section, and the span of one block's datatype on any other. */
  function BlockStep(st: State, desc: Descriptor, count: nat, h: Handle): int
    requires Exists(st, h) && (h.Derived? ==> desc.elemLen > 0)
  {
    if IsContiguous(desc) then count * ExtentOf(st, h) else NaturalExtent(SubarrayEntries(st, desc, count, h))
  }

  lemma BlocksOfBlocks(n: nat, count: nat, t: Typemap, extent: int, base: int, j: nat, k: nat)
    requires j < n && k < |Addresses(Block(count, t, extent, 0), base)|
    ensures var len := |Addresses(Block(count, t, extent, 0), base)|;
            && |Addresses(Block(n * count, t, extent, 0), base)| == n * len
            && 0 <= j * len + k < n * len
            && Addresses(Block(n * count, t, extent, 0), base)[j * len + k]
            == Addresses(Block(count, t, extent, 0), base)[k] + j * (count * extent)
  {
    var one := |Addresses(t, 0)|;
    hide *;
    BlockLength(count, t, extent, base);
    BlockLength(n * count, t, extent, base);
    MulAssoc(n, count, one);
    if one == 0 {
      assert false;
    } else {
      WhichElement(k, count, one);
      var c, b := k / one, k % one;
      BlockByte(count, t, extent, base, c, b);
      InBlocks(n, count, j, c);
      BlockByte(n * count, t, extent, base, j * count + c, b);
      Distribute(j * count, c, one);
      MulAssoc(j, count, one);
      Distribute(j * count, c, extent);
      MulAssoc(j, count, extent);
      NextMultiple(count * one, j);
      MulMono(j + 1, n, count * one);
      MulMono(0, j, count * one);
    }
  }

  lemma InBlocks(n: nat, count: nat, j: nat, c: nat)
    requires j < n && c < count
    ensures 0 <= j * count + c < n * count
  {
    MulMono(0, j, count);
    MulMono(j + 1, n, count);
    NextMultiple(count, j);
  }

  lemma ContiguousBlocks(st: State, desc: Descriptor, count: nat, h: Handle, n: nat, j: nat, k: nat)
    requires Exists(st, h) && IsContiguous(desc)
    requires j < n && k < |Addresses(Transfer(st, count, h), desc.base)|
    ensures var buffer := Addresses(Transfer(st, count, h), desc.base);
            var blocks := Addresses(Collectives.BlocksAsWritten(st, desc, count, h, n), desc.base);
            && |blocks| == n * |buffer| && 0 <= j * |buffer| + k < n * |buffer|
            && blocks[j * |buffer| + k] == buffer[k] + j * (count * ExtentOf(st, h))
  {
    hide Addresses, Block, IsContiguous;
    MulMono(0, n, count);
    BlocksOfBlocks(n, count, EntriesOf(st, h), ExtentOf(st, h), desc.base, j, k);
  }

  /** Byte k of block j of n is byte k of the one block, moved by j steps. */
  predicate BlockMoved(blocks: seq<int>, one: seq<int>, n: nat, step: int, j: nat, k: nat) {
    && |blocks| == n * |one|
    && (j < n && k < |one| ==>
          0 <= j * |one| + k < |blocks| && blocks[j * |one| + k] == one[k] + j * step)
  }

  lemma BlocksOfBuffer(st: State, desc: Descriptor, count: nat, h: Handle, n: nat, j: nat, k: nat)
    requires Transfers.GoodBuffer(st, desc, h) && desc.elemLen > 0
    requires j < n && k < |Transfers.Buffer(st, desc, count, h)|
    ensures BlockMoved(Addresses(Collectives.BlocksAsWritten(st, desc, count, h, n), desc.base),
                       Transfers.Buffer(st, desc, count, h), n, BlockStep(st, desc, count, h), j, k)
  {
    if IsContiguous(desc) {
      hide Addresses, SubarrayEntries, Block, IsContiguous;
      ContiguousBlocks(st, desc, count, h, n, j, k);
    } else {
      hide Addresses, SubarrayEntries, NaturalExtent, Block, IsContiguous, WellFormed, IsOpen;
      var block := SubarrayEntries(st, desc, count, h);
      AddressesFrom(block, desc.base);
      BlockByte(n, block, NaturalExtent(block), desc.base, j, k);
    }
  }

  /** The root's side of a gather with a user's datatype: block j is what it selects, moved by j steps. */
  lemma BlocksAreMoved(st: State, desc: Descriptor, count: nat, h: Handle, n: nat, j: nat, k: nat)
    requires MpiState.Valid(st) && GoodArgument(st, desc, count, h)
    requires j < n && k < |Meant(st, desc, count, h)|
    ensures BlockMoved(Addresses(Collectives.BlocksAsWritten(st, desc, count, h, n), desc.base),
                       Meant(st, desc, count, h), n, BlockStep(st, desc, count, h), j, k)
  {
    ArgumentMeans(st, desc, count, h);
    hide *;
    BlocksOfBuffer(st, desc, count, h, n, j, k);
  }

  /** A gather of what user's datatypes select, with both sides in order, fails only on the root, and only if the
      contributions are not as long as the blocks. */
  lemma GatherAccepts(st: State, input: Descriptor, scount: nat, sh: Handle,
                      output: Descriptor, rcount: nat, rh: Handle, isRoot: bool, n: nat, contributions: seq<byte>)
    requires MpiState.Valid(st) && GoodArgument(st, input, scount, sh) && GoodArgument(st, output, rcount, rh)
    ensures Transfers.GoodBuffer(st, input, sh) && Transfers.GoodBuffer(st, output, rh)
    ensures Collectives.GatherOutcome(st, input, scount, sh, output, rcount, rh, isRoot, n, contributions)
         == if isRoot
               && |contributions| != |Addresses(Collectives.BlocksAsWritten(st, output, rcount, rh, n), output.base)|
            then ErrTruncate else Success
  {
    ArgumentMeans(st, input, scount, sh);
    ArgumentMeans(st, output, rcount, rh);
    hide GoodArgument, MpiState.Valid, Transfers.GoodBuffer, Transfers.BufferCode, Transfers.Buffer, Transfers.Stops;
    hide Collectives.BlocksAsWritten, Addresses, Meant;
  }

  // ---------------------------------------------------------------------------------------------
  // Every second character of every second character
  // ---------------------------------------------------------------------------------------------

  /** MPI_Type_vector(26, 1, 2, MPI_CHARACTER). */
  function Letters(): Typemap {
    Hvector(26, 1, 2, [Entry(0, 1)], 1)
  }

  /** The program has made and committed that datatype. */
  predicate HasLetters(st: State, h: Handle) {
    h.Derived? && Usable(st, h) && EntriesOf(st, h) == Letters() && IovOf(st, h) == Letters()
  }

  /** A(1:104:2), with the first element at address `base`. */
  function Alternate(base: int): Descriptor {
    Descriptor(base, 1, Char, [Dim(52, 2)])
  }

  lemma LettersAt()
    ensures |Letters()| == 26 && forall k :: 0 <= k < 26 ==> Letters()[k] == Entry(2 * k, 1)
  {
    hide Hvector, Block;
    HvectorLength(26, 1, 2, [Entry(0, 1)], 1);
    forall k | 0 <= k < 26 ensures Letters()[k] == Entry(2 * k, 1) {
      HvectorAt(26, 1, 2, [Entry(0, 1)], 1, k, 0);
      BlockAt(1, [Entry(0, 1)], 1, k * 2);
    }
  }

  lemma AlternateSection(base: int)
    ensures var dims := Alternate(base).dims;
            && Product(dims) == 52 && Narrow(dims) == dims && Addressable(dims) == 52 && NonNegative(dims)
            && Spaced(dims, 1) && !IsContiguous(Alternate(base)) && WellFormed(dims)
  {
    OneDim(Dim(52, 2));
    assert Narrowed(52) == 52;
    hide Narrowed, Product;
    assert [Dim(52, 2)][1..] == [];
  }

  /** Each letter of one copy lies among the 52 characters. */
  lemma LettersInside(extent: int)
    ensures CopiesFit(Letters(), 1, extent, 52) && Inside(1, Letters(), 1, extent, 52)
    ensures WholeElements(Letters(), 1) && ElementCount(Letters(), 1) <= 26 && Size(Letters()) == 26
  {
    LettersAt();
    hide Letters;
    SizeOfUniform(Letters(), 1);
    ElementCountBound(Letters(), 1);
    forall j | 0 <= j < 1 ensures CopyFitsAt(Letters(), extent, j, 52) && CopyInside(1, Letters(), j, extent, 52) {
      assert j == 0 && 0 * extent == 0;
      forall i | 0 <= i < 26
        ensures SegmentFits(Letters()[i], j * extent, 52)
        ensures SegmentInside(TruncDiv(Letters()[i].disp, 1) + j * extent, Whole(Letters()[i].size, 1), 52)
      {
        assert Letters()[i] == Entry(2 * i, 1) && TruncDiv(2 * i, 1) == 2 * i;
      }
    }
  }

  lemma LettersSelected(st: State, h: Handle, base: int)
    requires HasLetters(st, h)
    ensures Selects(st, Alternate(base), 1, h)
  {
    AlternateSection(base);
    LettersInside(ExtentOf(st, h));
    hide Letters, Product, Narrow, Addressable, CopiesFit, IsContiguous, WellFormed, Spaced, Inside, Size;
    hide WholeElements, EntriesOf, Usable, ElementCount;
    assert Exists(st, h) by { LettersExist(st, h); }
  }

  lemma LettersExist(st: State, h: Handle)
    requires HasLetters(st, h)
    ensures IsOpen(st, h)
  {
    hide Letters;
  }

  lemma LettersBuffer(st: State, h: Handle, base: int)
    requires HasLetters(st, h)
    ensures Transfers.GoodBuffer(st, Alternate(base), h)
  {
    AlternateSection(base);
    LettersExist(st, h);
    hide IsOpen, IsContiguous, WellFormed, HasLetters;
  }

  lemma LettersPlaced(st: State, h: Handle, base: int)
    requires HasLetters(st, h)
    ensures Faithful(st, Alternate(base), 1, h)
  {
    AlternateSection(base);
    LettersInside(ExtentOf(st, h));
    hide Letters, Product, Narrow, Addressable, CopiesFit, IsContiguous, WellFormed, Spaced, Inside, Size;
    hide WholeElements, ElementCount;
  }

  lemma LetterByte(base: int, k: int)
    requires 0 <= k < 26
    ensures |Addresses(Letters(), 0)| == 26 && Addresses(Letters(), 0)[k] == 2 * k
    ensures ByteOf([Dim(52, 2)], 1, base, 2 * k) == base + 4 * k
  {
    LettersAt();
    hide Letters, Addresses, Disp;
    AddressAt(Letters(), 0, 1, k, 0);
    DispStep([Dim(52, 2)], 2 * k, 0);
    DispZero([Dim(52, 2)][1..]);
  }

  /** Every fourth address. */
  function Fourths(base: int): (r: seq<int>)
    ensures |r| == 26 && forall k :: 0 <= k < 26 ==> r[k] == base + 4 * k
  {
    seq(26, k => base + 4 * k)
  }

  lemma LettersMapped(base: int)
    ensures Mapped([Dim(52, 2)], 1, base, Addresses(Letters(), 0)) == Fourths(base)
  {
    hide *;
    LetterByte(base, 0);
    var mapped := Mapped([Dim(52, 2)], 1, base, Addresses(Letters(), 0));
    forall k | 0 <= k < 26 ensures mapped[k] == base + 4 * k { LetterByte(base, k); }
  }

  lemma LettersMeant(st: State, h: Handle, base: int)
    requires HasLetters(st, h)
    ensures Meant(st, Alternate(base), 1, h) == Fourths(base)
  {
    TransferOfOne(st, h);
    hide Letters, Addresses, Transfer, Mapped, Usable;
    LettersMapped(base);
  }

  /** The send and the receive of the repository's own test: accepted, and every fourth of the 104 characters. */
  lemma SerializationExample(st: State, h: Handle, base: int)
    requires MpiState.Valid(st) && HasLetters(st, h)
    ensures GoodArgument(st, Alternate(base), 1, h)
    ensures Transfers.BufferCode(st, Alternate(base), 1, h) == Success
    ensures Transfers.Buffer(st, Alternate(base), 1, h) == Fourths(base)
  {
    LettersSelected(st, h, base);
    LettersBuffer(st, h, base);
    LettersPlaced(st, h, base);
    AlternateSection(base);
    LettersMeant(st, h, base);
    hide MpiState.Valid, HasLetters, Selects, Faithful, Meant, IsContiguous, Spaced, Transfers.GoodBuffer;
    hide Transfers.Buffer, Transfers.BufferCode, Product, Narrow, WellFormed;
    ArgumentMeans(st, Alternate(base), 1, h);
  }
}
