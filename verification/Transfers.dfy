/** source/mpi_p2p.c: the calls that take a section as their buffer.  A contiguous section is passed on as
    it is; for any other the call creates and commits a datatype, uses it once and frees it. */
module Transfers {
  import opened Section
  import opened Layout
  import opened Typemaps
  import opened MpiState
  import opened MpiLibrary
  import opened Indexed

  /** What a call with this section, count and datatype transfers. */
  function Entries(st: State, desc: Descriptor, count: int, h: Handle): Typemap
    requires Exists(st, h) && (!IsContiguous(desc) && h.Derived? ==> desc.elemLen > 0)
  {
    if !IsContiguous(desc) then SubarrayEntries(st, desc, count, h)
    else if count >= 0 then Transfer(st, count, h) else []
  }

  /** The call's demands on one buffer argument. */
  predicate GoodBuffer(st: State, desc: Descriptor, h: Handle) {
    if IsContiguous(desc) then IsOpen(st, h) else Describable(st, desc, h)
  }

  function Buffer(st: State, desc: Descriptor, count: int, h: Handle): seq<int>
    requires GoodBuffer(st, desc, h)
  {
    Addresses(Entries(st, desc, count, h), desc.base)
  }

  /** How creating and committing the section's datatype ends: VAPAA_Assert stops the program if it fails. */
  function SubarrayCode(st: State, desc: Descriptor, count: int, h: Handle): (rc: Code)
    requires Exists(st, h) && (h.Derived? ==> desc.elemLen > 0)
    ensures rc == Success || !Returns(rc)
  {
    if Returns(CreateCode(st, desc, count, h)) && CreateCode(st, desc, count, h) != Success then Aborted
    else CreateCode(st, desc, count, h)
  }

  /** The call does not come back because of this argument. */
  predicate Stops(st: State, desc: Descriptor, count: int, h: Handle)
    requires GoodBuffer(st, desc, h)
  {
    !IsContiguous(desc) && SubarrayCode(st, desc, count, h) != Success
  }

  /** The error class of the argument. */
  function BufferCode(st: State, desc: Descriptor, count: int, h: Handle): Code
    requires GoodBuffer(st, desc, h)
  {
    if IsContiguous(desc) then UseCode(st, count, h) else SubarrayCode(st, desc, count, h)
  }

  /** Same datatypes, pending operations and memory: only numbers for datatypes may have been used up. */
  predicate Restored(before: State, after: State) {
    after == before.(nextType := after.nextType)
  }

  /** Create, commit, and the assertions behind both. */
  method SubarrayType(lib: Mpi, desc: Descriptor, count: int, h: Handle) returns (rc: Code, subarray: Handle)
    requires lib.Valid() && Describable(lib.state, desc, h)
    modifies lib
    ensures lib.Valid() && old(lib.history) <= lib.history
    ensures SameOperations(old(lib.state), lib.state)
    ensures rc == SubarrayCode(old(lib.state), desc, count, h)
    ensures rc == Success ==>
              && subarray.Derived? && old(lib.state).nextType <= subarray.id
              && lib.state == WithType(old(lib.state), subarray.id, SubarrayEntries(old(lib.state), desc, count, h))
  {
    hide CreateCode, SubarrayEntries;
    rc, subarray := CreateDatatype(lib, desc, count, h);
    if rc != Success { return if Returns(rc) then Aborted else rc, subarray; }
    rc := lib.TypeCommit(subarray);
  }

  /** A datatype that was just made and committed, used once, is the section's bytes. */
  lemma NewDatatype(st: State, id: nat, entries: Typemap, base: int)
    ensures var now, h := WithType(st, id, entries), Derived(id);
            && now.mem == st.mem && UseCode(now, 1, h) == Success && Ready(now, 1, h)
            && Touched(now, base, 1, h) == Addresses(entries, base)
  {
    TransferOfOne(WithType(st, id, entries), Derived(id));
    hide Addresses, NaturalExtent;
  }

  /** The outcome of a pack or unpack that moves the bytes at `from` to `to`, with `room` bytes left in the
      packed buffer: all of it and the new position, or an error and nothing. */
  ghost predicate Transferred(before: State, after: State, code: Code, from: seq<int>, to: seq<int>, room: int,
                              position: int, rc: Code, newPosition: int)
    requires |from| == |to|
  {
    && rc == RoomCode(code, |from|, room)
    && (rc == Success ==>
          && Readable(before.mem, from) && newPosition == position + |from|
          && Restored(before.(mem := Moved(before.mem, from, to)), after))
    && (Returns(rc) && rc != Success ==> newPosition == position && Restored(before, after))
    && (!Returns(rc) ==> SameOperations(before, after))
  }

  method PackSubarray(lib: Mpi, indesc: Descriptor, incount: int, h: Handle, outbuf: int, outsize: int, position: int)
    returns (rc: Code, newPosition: int)
    requires lib.Valid() && GoodBuffer(lib.state, indesc, h) && !IsContiguous(indesc)
    requires !Stops(lib.state, indesc, incount, h) ==> Readable(lib.state.mem, Buffer(lib.state, indesc, incount, h))
    modifies lib
    ensures lib.Valid() && old(lib.history) <= lib.history
    ensures var addresses := Buffer(old(lib.state), indesc, incount, h);
            Transferred(old(lib.state), lib.state, BufferCode(old(lib.state), indesc, incount, h),
                        addresses, Range(outbuf + position, |addresses|), outsize - position, position, rc, newPosition)
  {
    hide WithType, Freed, Touched, UseCode, Ready, Addresses;
    hide SubarrayCode, SubarrayEntries, Moved, MpiState.Valid, Mpi.Traced;
    var subarray;
    rc, subarray := SubarrayType(lib, indesc, incount, h);
    if rc != Success { return rc, position; }
    NewDatatype(old(lib.state), subarray.id, SubarrayEntries(old(lib.state), indesc, incount, h), indesc.base);
    rc, newPosition := lib.Pack(indesc.base, 1, subarray, outbuf, outsize, position);
    FreedAfterUse(old(lib.state), subarray.id, SubarrayEntries(old(lib.state), indesc, incount, h), lib.state.mem);
    var freed := lib.TypeFree(subarray);
  }

  /** CFI_MPI_Pack. */
  method Pack(lib: Mpi, indesc: Descriptor, incount: int, h: Handle, outdesc: Descriptor, outsize: int, position: int)
    returns (rc: Code, newPosition: int)
    requires lib.Valid() && GoodBuffer(lib.state, indesc, h)
    requires BufferCode(lib.state, indesc, incount, h) == Success ==>
               Readable(lib.state.mem, Buffer(lib.state, indesc, incount, h))
    modifies lib
    ensures lib.Valid() && old(lib.history) <= lib.history
    ensures !IsContiguous(outdesc) ==> rc == ErrArg && newPosition == position && lib.state == old(lib.state)
    ensures IsContiguous(outdesc) ==>
              var addresses := Buffer(old(lib.state), indesc, incount, h);
              Transferred(old(lib.state), lib.state, BufferCode(old(lib.state), indesc, incount, h),
                          addresses, Range(outdesc.base + position, |addresses|),
                          outsize - position, position, rc, newPosition)
  {
    hide SubarrayCode, SubarrayEntries, Moved, MpiState.Valid, Mpi.Traced;
    if !IsContiguous(outdesc) {
      rc, newPosition := ErrArg, position;
    } else if IsContiguous(indesc) {
      rc, newPosition := lib.Pack(indesc.base, incount, h, outdesc.base, outsize, position);
    } else {
      rc, newPosition := PackSubarray(lib, indesc, incount, h, outdesc.base, outsize, position);
    }
  }

  method UnpackSubarray(lib: Mpi, inbuf: int, insize: int, position: int, outdesc: Descriptor, outcount: int, h: Handle)
    returns (rc: Code, newPosition: int)
    requires lib.Valid() && GoodBuffer(lib.state, outdesc, h) && !IsContiguous(outdesc)
    requires !Stops(lib.state, outdesc, outcount, h)
             && |Buffer(lib.state, outdesc, outcount, h)| <= insize - position ==>
               Readable(lib.state.mem, Range(inbuf + position, |Buffer(lib.state, outdesc, outcount, h)|))
    modifies lib
    ensures lib.Valid() && old(lib.history) <= lib.history
    ensures var addresses := Buffer(old(lib.state), outdesc, outcount, h);
            Transferred(old(lib.state), lib.state, BufferCode(old(lib.state), outdesc, outcount, h),
                        Range(inbuf + position, |addresses|), addresses, insize - position, position, rc, newPosition)
  {
    hide WithType, Freed, Touched, UseCode, Ready, Addresses;
    hide SubarrayCode, SubarrayEntries, Moved, MpiState.Valid, Mpi.Traced;
    var subarray;
    rc, subarray := SubarrayType(lib, outdesc, outcount, h);
    if rc != Success { return rc, position; }
    NewDatatype(old(lib.state), subarray.id, SubarrayEntries(old(lib.state), outdesc, outcount, h), outdesc.base);
    rc, newPosition := lib.Unpack(inbuf, insize, position, outdesc.base, 1, subarray);
    FreedAfterUse(old(lib.state), subarray.id, SubarrayEntries(old(lib.state), outdesc, outcount, h), lib.state.mem);
    var freed := lib.TypeFree(subarray);
  }

  /** CFI_MPI_Unpack. */
  method Unpack(lib: Mpi, indesc: Descriptor, insize: int, position: int, outdesc: Descriptor, outcount: int, h: Handle)
    returns (rc: Code, newPosition: int)
    requires lib.Valid() && GoodBuffer(lib.state, outdesc, h)
    requires RoomCode(BufferCode(lib.state, outdesc, outcount, h), |Buffer(lib.state, outdesc, outcount, h)|,
                      insize - position) == Success ==>
               Readable(lib.state.mem, Range(indesc.base + position, |Buffer(lib.state, outdesc, outcount, h)|))
    modifies lib
    ensures lib.Valid() && old(lib.history) <= lib.history
    ensures !IsContiguous(indesc) ==> rc == ErrArg && newPosition == position && lib.state == old(lib.state)
    ensures IsContiguous(indesc) ==>
              var addresses := Buffer(old(lib.state), outdesc, outcount, h);
              Transferred(old(lib.state), lib.state, BufferCode(old(lib.state), outdesc, outcount, h),
                          Range(indesc.base + position, |addresses|), addresses,
                          insize - position, position, rc, newPosition)
  {
    hide SubarrayCode, SubarrayEntries, Moved, MpiState.Valid, Mpi.Traced;
    if !IsContiguous(indesc) {
      rc, newPosition := ErrArg, position;
    } else if IsContiguous(outdesc) {
      rc, newPosition := lib.Unpack(indesc.base, insize, position, outdesc.base, outcount, h);
    } else {
      rc, newPosition := UnpackSubarray(lib, indesc.base, insize, position, outdesc, outcount, h);
    }
  }

  /** The outcome of starting an operation: it is pending with the buffer's bytes, a new datatype has no handle,
      and nothing else has changed. */
  ghost predicate Started(before: State, after: State, receive: bool, addresses: seq<int>, rc: Code, request: nat) {
    && (rc == Success ==>
          && request == before.nextRequest && request !in before.pending && after.nextRequest == request + 1
          && request in after.pending && after.pending == before.pending[request := after.pending[request]]
          && after.pending[request].receive == receive
          && Exists(after, after.pending[request].datatyp) && OpAddresses(after, request) == addresses
          && after.mem == before.mem
          && (forall id :: id in before.types ==> id in after.types && after.types[id] == before.types[id])
          && (forall id :: id in after.types && id !in before.types ==>
                !after.types[id].open && after.pending[request].datatyp == Derived(id)))
    && (Returns(rc) && rc != Success ==> Restored(before, after))
    && (!Returns(rc) ==> SameOperations(before, after))
  }

  lemma PostedIsStarted(st: State, op: Op)
    requires MpiState.Valid(st) && Usable(st, op.datatyp)
    ensures Started(st, Posted(st, op), op.receive, Addresses(Transfer(st, op.count, op.datatyp), op.base), Success,
                    st.nextRequest)
  {
    hide Addresses, Block, FaithfulIov;
    assert st.nextRequest !in st.pending;
  }

  lemma StartedFrom(st: State, after: State, id: nat, info: TypeInfo, op: Op, addresses: seq<int>)
    requires st.nextRequest !in st.pending && id !in st.types && !info.open && op.datatyp == Derived(id)
    requires after.pending == st.pending[st.nextRequest := op] && after.types == st.types[id := info]
    requires after.mem == st.mem && after.nextRequest == st.nextRequest + 1
    requires OpAddresses(after, st.nextRequest) == addresses
    ensures Started(st, after, op.receive, addresses, Success, st.nextRequest)
  {
    hide OpAddresses;
  }

  lemma FreedIsStarted(st: State, id: nat, entries: Typemap, receive: bool, base: int)
    requires MpiState.Valid(st) && st.nextType <= id
    ensures var posted := Posted(WithType(st, id, entries), Op(receive, base, 1, Derived(id)));
            && id in posted.types
            && Started(st, Freed(posted, id), receive, Addresses(entries, base), Success, st.nextRequest)
  {
    FreedWhilePending(st, id, entries, receive, base);
    var op, info := Op(receive, base, 1, Derived(id)), TypeInfo(entries, entries, NaturalExtent(entries), true, false);
    assert id in Posted(WithType(st, id, entries), op).types;
    hide *;
    StartedFrom(st, Freed(Posted(WithType(st, id, entries), op), id), id, info, op, Addresses(entries, base));
  }

  /** CFI_MPI_Isend and CFI_MPI_Irecv: the datatype is freed as soon as the operation is posted. */
  method Start(lib: Mpi, receive: bool, desc: Descriptor, count: int, h: Handle) returns (rc: Code, request: nat)
    requires lib.Valid() && GoodBuffer(lib.state, desc, h)
    modifies lib
    ensures lib.Valid() && old(lib.history) <= lib.history
    ensures rc == BufferCode(old(lib.state), desc, count, h)
    ensures Started(old(lib.state), lib.state, receive, Buffer(old(lib.state), desc, count, h), rc, request)
  {
    hide SubarrayCode, SubarrayEntries, Mpi.Traced, OpAddresses, Addresses, Transfer, NaturalExtent, Freed;
    if IsContiguous(desc) {
      rc, request := lib.StartTransfer(receive, desc.base, count, h);
      if rc == Success { PostedIsStarted(old(lib.state), Op(receive, desc.base, count, h)); }
    } else {
      var subarray;
      rc, subarray := SubarrayType(lib, desc, count, h);
      if rc != Success { return rc, 0; }
      FreedIsStarted(old(lib.state), subarray.id, SubarrayEntries(old(lib.state), desc, count, h), receive, desc.base);
      hide Started;
      rc, request := lib.StartTransfer(receive, desc.base, 1, subarray);
      var freed := lib.TypeFree(subarray);
    }
  }

  /** What the receive side of Sendrecv uses: its own datatype only if the SEND side is not contiguous,
      because the code tests the send side twice. */
  function ReceiveEntries(st: State, sdesc: Descriptor, rdesc: Descriptor, rcount: int, rh: Handle): Typemap
    requires Exists(st, rh) && (!IsContiguous(sdesc) && rh.Derived? ==> rdesc.elemLen > 0)
  {
    if !IsContiguous(sdesc) then SubarrayEntries(st, rdesc, rcount, rh)
    else if rcount >= 0 then Transfer(st, rcount, rh) else []
  }

  /** The receive side's error class. */
  function ReceiveSideCode(st: State, sdesc: Descriptor, rdesc: Descriptor, rcount: int, rh: Handle): Code
    requires Exists(st, rh) && (!IsContiguous(sdesc) && rh.Derived? ==> rdesc.elemLen > 0)
  {
    if IsContiguous(sdesc) then UseCode(st, rcount, rh) else SubarrayCode(st, rdesc, rcount, rh)
  }

  /** A message longer than the receive buffer is an error, once both arguments are in order. */
  function ExchangeCode(send: Code, receive: Code, received: seq<int>, incoming: seq<byte>): Code {
    if send != Success then send
    else if receive != Success then receive
    else if |incoming| > |received| then ErrTruncate
    else Success
  }

  /** A datatype that has just been created does not change what another one describes. */
  lemma OthersUnchanged(st: State, id: nat, entries: Typemap, desc: Descriptor, count: int, h: Handle)
    requires MpiState.Valid(st) && st.nextType <= id && Describable(st, desc, h)
    ensures Describable(WithType(st, id, entries), desc, h)
    ensures CreateCode(WithType(st, id, entries), desc, count, h) == CreateCode(st, desc, count, h)
    ensures SubarrayEntries(WithType(st, id, entries), desc, count, h) == SubarrayEntries(st, desc, count, h)
  {
    hide NaturalExtent, Compose, RecordCode, WellFormed;
    WithTypeIs(st, id, entries);
    if h.Derived? {
      assert h.id < st.nextType;
    }
  }

  /** The outcome of an exchange: the message that left, the one that arrived, and nothing else. */
  ghost predicate Exchanged(before: State, after: State, sent: seq<int>, received: seq<int>, incoming: seq<byte>,
                            rc: Code, outgoing: seq<byte>)
  {
    && (rc == Success ==>
          && Readable(before.mem, sent) && outgoing == Load(before.mem, sent)
          && Restored(before.(mem := Arrived(before.mem, received, incoming)), after))
    && (Returns(rc) && rc != Success ==> Restored(before, after))
    && (!Returns(rc) ==> SameOperations(before, after))
  }

  method BothSubarrayTypes(lib: Mpi, sdesc: Descriptor, scount: int, sh: Handle,
                           rdesc: Descriptor, rcount: int, rh: Handle)
    returns (rc: Code, subarrayS: Handle, subarrayR: Handle)
    requires lib.Valid()
    requires Describable(lib.state, sdesc, sh) && Describable(lib.state, rdesc, rh)
    modifies lib
    ensures lib.Valid() && old(lib.history) <= lib.history
    ensures SameOperations(old(lib.state), lib.state)
    ensures rc == ExchangeCode(SubarrayCode(old(lib.state), sdesc, scount, sh),
                               SubarrayCode(old(lib.state), rdesc, rcount, rh), [], [])
    ensures rc == Success ==>
              && subarrayS.Derived? && subarrayR.Derived? && old(lib.state).nextType <= subarrayS.id < subarrayR.id
              && lib.state == WithType(WithType(old(lib.state), subarrayS.id,
                                                SubarrayEntries(old(lib.state), sdesc, scount, sh)),
                                       subarrayR.id, SubarrayEntries(old(lib.state), rdesc, rcount, rh))
  {
    hide CreateCode, SubarrayEntries, Mpi.Traced;
    subarrayR := Null;
    rc, subarrayS := SubarrayType(lib, sdesc, scount, sh);
    if rc != Success { return; }
    OthersUnchanged(old(lib.state), subarrayS.id, SubarrayEntries(old(lib.state), sdesc, scount, sh),
                    rdesc, rcount, rh);
    rc, subarrayR := SubarrayType(lib, rdesc, rcount, rh);
  }

  lemma NewKeepsOther(st: State, id: nat, entries: Typemap, h: Handle, base: int)
    requires Ready(st, 1, h) && h != Derived(id)
    ensures var now := WithType(st, id, entries);
            && Ready(now, 1, h) && UseCode(now, 1, h) == UseCode(st, 1, h)
            && Touched(now, base, 1, h) == Touched(st, base, 1, h)
  {
    WithTypeIs(st, id, entries);
    hide Addresses, NaturalExtent, WithType, Block;
  }

  /** The same for two. */
  lemma NewDatatypes(st: State, id1: nat, entries1: Typemap, base1: int, id2: nat, entries2: Typemap, base2: int)
    requires id1 < id2
    ensures var now, h1, h2 := WithType(WithType(st, id1, entries1), id2, entries2), Derived(id1), Derived(id2);
            && now.mem == st.mem && UseCode(now, 1, h1) == UseCode(now, 1, h2) == Success
            && Ready(now, 1, h1) && Touched(now, base1, 1, h1) == Addresses(entries1, base1)
            && Ready(now, 1, h2) && Touched(now, base2, 1, h2) == Addresses(entries2, base2)
  {
    hide *;
    NewDatatype(st, id1, entries1, base1);
    NewDatatype(WithType(st, id1, entries1), id2, entries2, base2);
    NewKeepsOther(WithType(st, id1, entries1), id2, entries2, Derived(id1), base1);
  }

  /** The exchange through two datatypes, which are both freed. */
  method SendrecvSubarrays(lib: Mpi, sdesc: Descriptor, scount: int, sh: Handle,
                           rdesc: Descriptor, rcount: int, rh: Handle, incoming: seq<byte>)
    returns (rc: Code, outgoing: seq<byte>)
    requires lib.Valid()
    requires Describable(lib.state, sdesc, sh) && Describable(lib.state, rdesc, rh)
    requires SubarrayCode(lib.state, sdesc, scount, sh) == Success ==>
               Readable(lib.state.mem, Addresses(SubarrayEntries(lib.state, sdesc, scount, sh), sdesc.base))
    modifies lib
    ensures lib.Valid() && old(lib.history) <= lib.history
    ensures rc == ExchangeCode(SubarrayCode(old(lib.state), sdesc, scount, sh),
                               SubarrayCode(old(lib.state), rdesc, rcount, rh),
                               Addresses(SubarrayEntries(old(lib.state), rdesc, rcount, rh), rdesc.base), incoming)
    ensures Exchanged(old(lib.state), lib.state,
                      Addresses(SubarrayEntries(old(lib.state), sdesc, scount, sh), sdesc.base),
                      Addresses(SubarrayEntries(old(lib.state), rdesc, rcount, rh), rdesc.base), incoming, rc, outgoing)
  {
    hide WithType, Freed, Touched, UseCode, Ready, Addresses;
    hide SubarrayCode, SubarrayEntries, MpiState.Valid, Arrived, Mpi.Traced;
    ghost var start := lib.state;
    var subarrayS, subarrayR;
    outgoing := [];
    rc, subarrayS, subarrayR := BothSubarrayTypes(lib, sdesc, scount, sh, rdesc, rcount, rh);
    if rc != Success { return; }
    NewDatatypes(start, subarrayS.id, SubarrayEntries(start, sdesc, scount, sh), sdesc.base,
                 subarrayR.id, SubarrayEntries(start, rdesc, rcount, rh), rdesc.base);
    rc, outgoing := lib.Sendrecv(sdesc.base, 1, subarrayS, rdesc.base, 1, subarrayR, incoming);
    BothFreedAfterUse(start, subarrayS.id, SubarrayEntries(start, sdesc, scount, sh),
                      subarrayR.id, SubarrayEntries(start, rdesc, rcount, rh), lib.state.mem);
    var freed := lib.TypeFree(subarrayS);
    freed := lib.TypeFree(subarrayR);
  }

  /** CFI_MPI_Sendrecv, as written. */
  method Sendrecv(lib: Mpi, sdesc: Descriptor, scount: int, sh: Handle,
                  rdesc: Descriptor, rcount: int, rh: Handle, incoming: seq<byte>)
    returns (rc: Code, outgoing: seq<byte>)
    requires lib.Valid() && GoodBuffer(lib.state, sdesc, sh)
    requires if IsContiguous(sdesc) then IsOpen(lib.state, rh) else Describable(lib.state, rdesc, rh)
    requires BufferCode(lib.state, sdesc, scount, sh) == Success ==>
               Readable(lib.state.mem, Buffer(lib.state, sdesc, scount, sh))
    modifies lib
    ensures lib.Valid() && old(lib.history) <= lib.history
    ensures rc == ExchangeCode(BufferCode(old(lib.state), sdesc, scount, sh),
                               ReceiveSideCode(old(lib.state), sdesc, rdesc, rcount, rh),
                               Addresses(ReceiveEntries(old(lib.state), sdesc, rdesc, rcount, rh), rdesc.base),
                               incoming)
    ensures Exchanged(old(lib.state), lib.state, Buffer(old(lib.state), sdesc, scount, sh),
                      Addresses(ReceiveEntries(old(lib.state), sdesc, rdesc, rcount, rh), rdesc.base),
                      incoming, rc, outgoing)
  {
    hide SubarrayCode, SubarrayEntries, MpiState.Valid, Arrived, Addresses, Transfer, Mpi.Traced;
    if IsContiguous(sdesc) && IsContiguous(sdesc) {
      rc, outgoing := lib.Sendrecv(sdesc.base, scount, sh, rdesc.base, rcount, rh, incoming);
    } else {
      rc, outgoing := SendrecvSubarrays(lib, sdesc, scount, sh, rdesc, rcount, rh, incoming);
    }
  }
}
