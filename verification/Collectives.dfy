/** source/mpi_coll.c: broadcast and gather of sections. */
module Collectives {
  import opened CInt
  import opened Section
  import opened Layout
  import opened Typemaps
  import opened MpiState
  import opened MpiLibrary
  import opened CfiUtil
  import opened Indexed
  import opened Transfers

  /** The error class of a broadcast on one process: the message must be as long as the buffer. */
  function BcastOutcome(code: Code, addresses: seq<int>, isRoot: bool, incoming: seq<byte>): Code {
    if code == Success && !isRoot && |incoming| != |addresses| then ErrTruncate else code
  }

  /** The outcome of a broadcast on one process: the root's buffer is the message, and any other process has
      stored the message. */
  ghost predicate Shared(before: State, after: State, addresses: seq<int>, isRoot: bool, incoming: seq<byte>,
                         rc: Code, outgoing: seq<byte>)
  {
    && (rc == Success && isRoot ==>
          && Readable(before.mem, addresses) && outgoing == Load(before.mem, addresses) && Restored(before, after))
    && (rc == Success && !isRoot ==>
          |addresses| == |incoming| && Restored(before.(mem := Store(before.mem, addresses, incoming)), after))
    && (Returns(rc) && rc != Success ==> Restored(before, after))
    && (!Returns(rc) ==> SameOperations(before, after))
  }

  /** CFI_MPI_Bcast on one process. */
  method Bcast(lib: Mpi, desc: Descriptor, count: int, h: Handle, isRoot: bool, incoming: seq<byte>)
    returns (rc: Code, outgoing: seq<byte>)
    requires lib.Valid() && GoodBuffer(lib.state, desc, h)
    requires isRoot && BufferCode(lib.state, desc, count, h) == Success ==>
               Readable(lib.state.mem, Buffer(lib.state, desc, count, h))
    modifies lib
    ensures lib.Valid() && old(lib.history) <= lib.history
    ensures rc == BcastOutcome(BufferCode(old(lib.state), desc, count, h), Buffer(old(lib.state), desc, count, h),
                               isRoot, incoming)
    ensures Shared(old(lib.state), lib.state, Buffer(old(lib.state), desc, count, h), isRoot, incoming, rc, outgoing)
  {
    hide SubarrayCode, SubarrayEntries, MpiState.Valid, Mpi.Traced;
    if IsContiguous(desc) {
      rc, outgoing := lib.Bcast(desc.base, count, h, isRoot, incoming);
    } else {
      var subarray;
      outgoing := incoming;
      rc, subarray := SubarrayType(lib, desc, count, h);
      if rc != Success { return; }
      NewDatatype(old(lib.state), subarray.id, SubarrayEntries(old(lib.state), desc, count, h), desc.base);
      hide WithType, Freed, Touched, UseCode, Ready, Addresses;
      rc, outgoing := lib.Bcast(desc.base, 1, subarray, isRoot, incoming);
      FreedAfterUse(old(lib.state), subarray.id, SubarrayEntries(old(lib.state), desc, count, h), lib.state.mem);
      var freed := lib.TypeFree(subarray);
    }
  }

  // ---------------------------------------------------------------------------------------------
  // Gather
  // ---------------------------------------------------------------------------------------------

  /** What the root of a gather uses for n blocks of `count` elements; MPI_Allgather's receive side and
      MPI_Scatter's send side are the same. */
  function BlocksAsWritten(st: State, desc: Descriptor, count: int, h: Handle, n: nat): Typemap
    requires Exists(st, h) && (!IsContiguous(desc) && h.Derived? ==> desc.elemLen > 0)
  {
    if IsContiguous(desc) then (if n * count >= 0 then Transfer(st, n * count, h) else [])
    else var block := SubarrayEntries(st, desc, count, h); Block(n, block, NaturalExtent(block), 0)
  }

  /** The outcome of a gather on one process. */
  ghost predicate Gathered(before: State, after: State, sent: seq<int>, isRoot: bool, stored: seq<int>,
                           contributions: seq<byte>, rc: Code, outgoing: seq<byte>)
  {
    && (rc == Success ==> Readable(before.mem, sent) && outgoing == Load(before.mem, sent))
    && (rc == Success && isRoot ==>
          |stored| == |contributions| && Restored(before.(mem := Store(before.mem, stored, contributions)), after))
    && (Returns(rc) && (rc != Success || !isRoot) ==> Restored(before, after))
    && (!Returns(rc) ==> SameOperations(before, after))
  }

  /** The error class of a gather on one process: first the datatypes of both sides, on every process, then
      the library's checks, of the receive side only on the root. */
  function GatherOutcome(st: State, input: Descriptor, scount: int, sh: Handle,
                         output: Descriptor, rcount: int, rh: Handle,
                         isRoot: bool, n: nat, contributions: seq<byte>): Code
    requires GoodBuffer(st, input, sh) && GoodBuffer(st, output, rh)
  {
    if Stops(st, input, scount, sh) then BufferCode(st, input, scount, sh)
    else if Stops(st, output, rcount, rh) then BufferCode(st, output, rcount, rh)
    else if BufferCode(st, input, scount, sh) != Success then BufferCode(st, input, scount, sh)
    else if !isRoot then Success
    else if BufferCode(st, output, rcount, rh) != Success then BufferCode(st, output, rcount, rh)
    else if |contributions| != |Addresses(BlocksAsWritten(st, output, rcount, rh, n), output.base)| then ErrTruncate
    else Success
  }

  /** Where a process is not the root, MPI ignores the receive side; here an output section that is too small
      for one block still ends the program. */
  lemma NonRootExample(st: State, input: Descriptor, scount: int, sh: Handle, n: nat, contributions: seq<byte>)
    requires GoodBuffer(st, input, sh) && BufferCode(st, input, scount, sh) == Success
    ensures var output, h := Descriptor(0, 4, Float, [Dim(1, 8)]), Named(MpiFloat);
            && GoodBuffer(st, output, h)
            && GatherOutcome(st, input, scount, sh, output, 2, h, false, n, contributions) == Aborted
  {
    hide SubarrayCode;
    TooFewElements(st);
  }

  lemma TooFewElements(st: State)
    ensures SubarrayCode(st, Descriptor(0, 4, Float, [Dim(1, 8)]), 2, Named(MpiFloat)) == Aborted
  {
    OneDimension(Dim(1, 8));
  }

  /** A side that is contiguous needs no datatype. */
  function WithUnless(st: State, skip: bool, id: nat, entries: Typemap): (r: State)
    ensures r.mem == st.mem
  {
    if skip then st else WithType(st, id, entries)
  }

  function FreedUnless(st: State, skip: bool, id: nat): State
    requires skip || id in st.types
  {
    if skip then st else Freed(st, id)
  }

  lemma BothReleased(st: State, skip1: bool, id1: nat, entries1: Typemap, skip2: bool, id2: nat, entries2: Typemap,
                     mem: Memory)
    requires MpiState.Valid(st) && st.nextType <= id1 && st.nextType <= id2 && (!skip1 && !skip2 ==> id1 < id2)
    ensures var used := WithUnless(WithUnless(st, skip1, id1, entries1), skip2, id2, entries2).(mem := mem);
            && (skip1 || IsOpen(used, Derived(id1)))
            && (skip2 || IsOpen(FreedUnless(used, skip1, id1), Derived(id2)))
            && Restored(st.(mem := mem), FreedUnless(FreedUnless(used, skip1, id1), skip2, id2))
  {
    if !skip1 && !skip2 {
      BothFreedAfterUse(st, id1, entries1, id2, entries2, mem);
    } else if !skip1 {
      FreedAfterUse(st, id1, entries1, mem);
    } else if !skip2 {
      FreedAfterUse(st, id2, entries2, mem);
    }
  }

  /** In `later`, the datatype that stands for a buffer means what the buffer means in `st`. */
  predicate StandsFor(st: State, later: State, desc: Descriptor, count: int, h: Handle, id: nat)
    requires Exists(st, h) && (!IsContiguous(desc) && h.Derived? ==> desc.elemLen > 0)
  {
    if IsContiguous(desc)
    then Exists(later, h) && (Usable(later, h) <==> Usable(st, h))
         && EntriesOf(later, h) == EntriesOf(st, h) && ExtentOf(later, h) == ExtentOf(st, h)
    else var entries := Entries(st, desc, count, h);
         id in later.types && later.types[id] == TypeInfo(entries, entries, NaturalExtent(entries), true, true)
  }

  lemma StandsForOwn(st: State, middle: State, desc: Descriptor, count: int, h: Handle, id: nat)
    requires Exists(st, h) && (h.Derived? ==> h.id != id)
    requires !IsContiguous(desc) && h.Derived? ==> desc.elemLen > 0
    requires Exists(middle, h) && (Usable(middle, h) <==> Usable(st, h))
    requires EntriesOf(middle, h) == EntriesOf(st, h) && ExtentOf(middle, h) == ExtentOf(st, h)
    ensures StandsFor(st, WithUnless(middle, IsContiguous(desc), id, Entries(st, desc, count, h)), desc, count, h, id)
  {
    WithTypeIs(middle, id, Entries(st, desc, count, h));
  }

  lemma StandsForStill(st: State, later: State, desc: Descriptor, count: int, h: Handle, id: nat,
                       skip: bool, other: nat, entries: Typemap)
    requires Exists(st, h) && (h.Derived? ==> h.id != other)
    requires !IsContiguous(desc) && h.Derived? ==> desc.elemLen > 0
    requires StandsFor(st, later, desc, count, h, id) && (skip || IsContiguous(desc) || id != other)
    ensures StandsFor(st, WithUnless(later, skip, other, entries), desc, count, h, id)
  {
    WithTypeIs(later, other, entries);
  }

  lemma HandleKept(st: State, skip: bool, id: nat, entries: Typemap, h: Handle)
    requires Exists(st, h) && (h.Derived? ==> h.id != id)
    ensures var after := WithUnless(st, skip, id, entries);
            && Exists(after, h) && (Usable(after, h) <==> Usable(st, h))
            && EntriesOf(after, h) == EntriesOf(st, h) && ExtentOf(after, h) == ExtentOf(st, h)
  {
  }

  /** So a transfer touches the buffer, and n blocks are the blocks as written. */
  lemma StandInTouches(st: State, later: State, desc: Descriptor, count: int, h: Handle, id: nat,
                       c: int, t: Handle, n: nat)
    requires GoodBuffer(st, desc, h) && !Stops(st, desc, count, h) && StandsFor(st, later, desc, count, h, id)
    requires if IsContiguous(desc) then c == count && t == h else c == 1 && t == Derived(id)
    ensures UseCode(later, c, t) == BufferCode(st, desc, count, h)
    ensures Ready(later, c, t) ==> Touched(later, desc.base, c, t) == Buffer(st, desc, count, h)
    ensures Ready(later, c, t) ==> n * c >= 0
    ensures Ready(later, c, t) ==>
              Touched(later, desc.base, n * c, t) == Addresses(BlocksAsWritten(st, desc, count, h, n), desc.base)
  {
    hide SubarrayEntries, SubarrayCode, NaturalExtent, Block, Addresses;
    if Ready(later, c, t) {
      MulMono(0, c, n);
      TransferOfOne(later, t);
      if !IsContiguous(desc) { assert n * c == n; }
    }
  }

  /** One side's count and datatype, new ones unless the side is contiguous. */
  method Argument(lib: Mpi, desc: Descriptor, count: int, h: Handle)
    returns (rc: Code, c: int, t: Handle, ghost id: nat)
    requires lib.Valid() && GoodBuffer(lib.state, desc, h)
    modifies lib
    ensures lib.Valid() && old(lib.history) <= lib.history
    ensures SameOperations(old(lib.state), lib.state)
    ensures rc == if IsContiguous(desc) then Success else SubarrayCode(old(lib.state), desc, count, h)
    ensures rc == Success ==> old(lib.state).nextType <= id
    ensures rc == Success ==> if IsContiguous(desc) then c == count && t == h else c == 1 && t == Derived(id)
    ensures rc == Success ==>
              lib.state == WithUnless(old(lib.state), IsContiguous(desc), id, Entries(old(lib.state), desc, count, h))
  {
    hide SubarrayCode, SubarrayEntries, Mpi.Traced;
    rc, c, t, id := Success, count, h, lib.state.nextType;
    if !IsContiguous(desc) {
      c := 1;
      rc, t := SubarrayType(lib, desc, count, h);
      if rc == Success { id := t.id; }
    }
  }

  lemma GoodBufferKept(st: State, skip: bool, id: nat, entries: Typemap, desc: Descriptor, count: int, h: Handle)
    requires MpiState.Valid(st) && st.nextType <= id && GoodBuffer(st, desc, h)
    ensures var after := WithUnless(st, skip, id, entries);
            && GoodBuffer(after, desc, h)
            && (!IsContiguous(desc) ==> SubarrayCode(after, desc, count, h) == SubarrayCode(st, desc, count, h))
            && Entries(after, desc, count, h) == Entries(st, desc, count, h)
  {
    if h.Derived? { assert h.id < st.nextType; }
    if !skip {
      if IsContiguous(desc) {
        HandleKept(st, skip, id, entries, h);
      } else {
        OthersUnchanged(st, id, entries, desc, count, h);
      }
    }
  }

  /** Both sides' arguments in order. */
  method Arguments(lib: Mpi, input: Descriptor, scount: int, sh: Handle, output: Descriptor, rcount: int, rh: Handle)
    returns (rc: Code, inCount: int, inType: Handle, outCount: int, outType: Handle, ghost id1: nat, ghost id2: nat)
    requires lib.Valid()
    requires GoodBuffer(lib.state, input, sh) && GoodBuffer(lib.state, output, rh)
    modifies lib
    ensures lib.Valid() && old(lib.history) <= lib.history
    ensures SameOperations(old(lib.state), lib.state)
    ensures rc == if Stops(old(lib.state), input, scount, sh) then BufferCode(old(lib.state), input, scount, sh)
                  else if Stops(old(lib.state), output, rcount, rh) then BufferCode(old(lib.state), output, rcount, rh)
                  else Success
    ensures rc == Success ==> old(lib.state).nextType <= id1 && old(lib.state).nextType <= id2
    ensures rc == Success ==> (!IsContiguous(input) && !IsContiguous(output) ==> id1 < id2)
    ensures rc == Success ==>
              if IsContiguous(input) then inCount == scount && inType == sh
              else inCount == 1 && inType == Derived(id1)
    ensures rc == Success ==>
              if IsContiguous(output) then outCount == rcount && outType == rh
              else outCount == 1 && outType == Derived(id2)
    ensures rc == Success ==>
              lib.state == WithUnless(WithUnless(old(lib.state), IsContiguous(input), id1,
                                                 Entries(old(lib.state), input, scount, sh)),
                                      IsContiguous(output), id2, Entries(old(lib.state), output, rcount, rh))
  {
    hide SubarrayCode, Entries, MpiState.Valid, Mpi.Traced, IsContiguous;
    ghost var start := lib.state;
    outCount, outType, id2 := rcount, rh, 0;
    rc, inCount, inType, id1 := Argument(lib, input, scount, sh);
    if rc != Success { return; }
    GoodBufferKept(start, IsContiguous(input), id1, Entries(start, input, scount, sh), output, rcount, rh);
    rc, outCount, outType, id2 := Argument(lib, output, rcount, rh);
  }

  /** What the library sees through the arguments. */
  lemma ArgumentsMean(st: State, input: Descriptor, scount: int, sh: Handle,
                      output: Descriptor, rcount: int, rh: Handle, id1: nat, id2: nat)
    requires MpiState.Valid(st) && GoodBuffer(st, input, sh) && GoodBuffer(st, output, rh)
    requires st.nextType <= id1 && st.nextType <= id2 && (!IsContiguous(input) && !IsContiguous(output) ==> id1 < id2)
    ensures var used := WithUnless(WithUnless(st, IsContiguous(input), id1, Entries(st, input, scount, sh)),
                                   IsContiguous(output), id2, Entries(st, output, rcount, rh));
            StandsFor(st, used, input, scount, sh, id1) && StandsFor(st, used, output, rcount, rh, id2)
  {
    hide Entries, NaturalExtent;
    var entries1, entries2 := Entries(st, input, scount, sh), Entries(st, output, rcount, rh);
    var middle := WithUnless(st, IsContiguous(input), id1, entries1);
    assert (sh.Derived? ==> sh.id < st.nextType) && (rh.Derived? ==> rh.id < st.nextType);
    hide WithUnless, MpiState.Valid;
    StandsForOwn(st, st, input, scount, sh, id1);
    StandsForStill(st, middle, input, scount, sh, id1, IsContiguous(output), id2, entries2);
    HandleKept(st, IsContiguous(input), id1, entries1, rh);
    StandsForOwn(st, middle, output, rcount, rh, id2);
  }

  /** CFI_MPI_Gather on one of n processes: each side has a datatype of its own if it is not contiguous. */
  method Gather(lib: Mpi, input: Descriptor, scount: int, sh: Handle, output: Descriptor, rcount: int, rh: Handle,
                isRoot: bool, n: nat, contributions: seq<byte>) returns (rc: Code, outgoing: seq<byte>)
    requires lib.Valid()
    requires GoodBuffer(lib.state, input, sh) && GoodBuffer(lib.state, output, rh)
    requires BufferCode(lib.state, input, scount, sh) == Success ==>
               Readable(lib.state.mem, Buffer(lib.state, input, scount, sh))
    modifies lib
    ensures lib.Valid() && old(lib.history) <= lib.history
    ensures rc == GatherOutcome(old(lib.state), input, scount, sh, output, rcount, rh, isRoot, n, contributions)
    ensures Gathered(old(lib.state), lib.state, Buffer(old(lib.state), input, scount, sh), isRoot,
                     Addresses(BlocksAsWritten(old(lib.state), output, rcount, rh, n), output.base),
                     contributions, rc, outgoing)
  {
    hide Entries, SubarrayCode, MpiState.Valid, NaturalExtent, WithUnless, StandsFor, Mpi.Traced;
    hide Touched, Transfer, BlocksAsWritten;
    ghost var start := lib.state;
    outgoing := [];
    var inCount, inType, outCount, outType;
    ghost var id1, id2;
    rc, inCount, inType, outCount, outType, id1, id2 := Arguments(lib, input, scount, sh, output, rcount, rh);
    if rc != Success { return; }
    ArgumentsMean(start, input, scount, sh, output, rcount, rh, id1, id2);
    StandInTouches(start, lib.state, input, scount, sh, id1, inCount, inType, n);
    StandInTouches(start, lib.state, output, rcount, rh, id2, outCount, outType, n);
    ghost var used := lib.state;
    assert used.mem == start.mem;
    rc, outgoing := lib.Gather(input.base, inCount, inType, output.base, outCount, outType, isRoot, n, contributions);
    BothReleased(start, IsContiguous(input), id1, Entries(start, input, scount, sh),
                 IsContiguous(output), id2, Entries(start, output, rcount, rh), lib.state.mem);
    assert lib.state == used.(mem := lib.state.mem);
    Release(lib, input, inType, id1);
    Release(lib, output, outType, id2);
  }

  method Release(lib: Mpi, desc: Descriptor, t: Handle, ghost id: nat)
    requires lib.Valid()
    requires !IsContiguous(desc) ==> t == Derived(id) && IsOpen(lib.state, t)
    modifies lib
    ensures lib.Valid() && old(lib.history) <= lib.history
    ensures IsContiguous(desc) || id in old(lib.state).types
    ensures lib.state == FreedUnless(old(lib.state), IsContiguous(desc), id)
  {
    if !IsContiguous(desc) { var freed := lib.TypeFree(t); }
  }
}
