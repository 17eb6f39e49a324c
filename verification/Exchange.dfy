/** CFI_MPI_Sendrecv on elements: what is sent, where the received message lands, and two processes that exchange
    elements of their sections. */
module Exchange {
  import opened CInt
  import opened Section
  import opened Layout
  import opened Typemaps
  import opened MpiState
  import opened MpiLibrary
  import opened CfiUtil
  import opened Indexed
  import opened Composition
  import opened Meaning
  import opened Elements
  import Transfers

  /** The bytes that receive the message: those of the section's first elements if the SEND side is strided, and if it
      is contiguous those from the receive buffer's address on, whatever the receive side looks like. */
  function ReceivedBytes(source: Descriptor, target: Descriptor, count: nat): seq<int> {
    if IsContiguous(source) then Range(target.base, count * target.elemLen) else SectionBytes(target, count)
  }

  /** The call does not come back: a side needs a datatype that is refused, and it is the send side that decides for
      both. */
  predicate Refused(source: Descriptor, scount: nat, target: Descriptor, rcount: nat) {
    !IsContiguous(source) && !(AcceptsBuiltin(source, scount) && AcceptsBuiltin(target, rcount))
  }

  lemma ReceiveSide(st: State, source: Descriptor, target: Descriptor, count: nat, h: Handle)
    requires GoodElements(target, count, h)
    ensures Transfers.ReceiveSideCode(st, source, target, count, h)
         == if IsContiguous(source) || AcceptsBuiltin(target, count) then Success else Aborted
    ensures Addresses(Transfers.ReceiveEntries(st, source, target, count, h), target.base)
         == ReceivedBytes(source, target, count)
  {
    hide IsContiguous, Addresses, GuardsPass, SizeCheck, Product, Disp;
    if IsContiguous(source) {
      TransferIsRange(st, count, h, target.base);
    } else {
      BuiltDimsAreDims(target, count);
    }
  }

  lemma ReceivedLength(source: Descriptor, target: Descriptor, count: nat)
    ensures |ReceivedBytes(source, target, count)| == |SectionBytes(target, count)| == count * target.elemLen
  {
    hide SectionBytes, IsContiguous;
    SectionLength(target, count);
  }

  lemma SendSide(st: State, source: Descriptor, count: nat, h: Handle)
    requires GoodElements(source, count, h)
    ensures Transfers.GoodBuffer(st, source, h)
    ensures Transfers.Buffer(st, source, count, h) == SectionBytes(source, count)
    ensures Transfers.BufferCode(st, source, count, h)
         == if IsContiguous(source) || AcceptsBuiltin(source, count) then Success else Aborted
  {
    hide IsContiguous, BuiltinCode, SectionBytes, GoodElements;
    ElementsBuffer(st, source, count, h);
  }

  /** The elements land where they belong: the send side is strided, or the receive side's are one after the other. */
  predicate Placed(source: Descriptor, target: Descriptor, count: nat) {
    !IsContiguous(source) || PrefixContiguous(target.dims, target.elemLen, count)
  }

  lemma PlacedInSection(source: Descriptor, target: Descriptor, count: nat, h: Handle)
    requires GoodElements(target, count, h) && Placed(source, target, count)
    ensures ReceivedBytes(source, target, count) == SectionBytes(target, count)
  {
    hide Product, Disp, Addresses;
    if IsContiguous(source) && count > 0 {
      PositiveProduct(target.dims);
      BlocksOfElements(target.dims, target.elemLen, count, target.elemLen);
      BlockIsRange(count, target.elemLen, target.base);
    } else if IsContiguous(source) {
      SectionLength(target, count);
    }
  }

  /** What the call has done: the message, and as much of the incoming one as fits, at the bytes above. */
  ghost predicate Exchanged(before: State, after: State, source: Descriptor, scount: nat, target: Descriptor,
                            rcount: nat, incoming: seq<byte>, outgoing: seq<byte>)
    requires |incoming| <= |ReceivedBytes(source, target, rcount)|
  {
    && Readable(before.mem, SectionBytes(source, scount)) && outgoing == Load(before.mem, SectionBytes(source, scount))
    && after.mem == Store(before.mem, ReceivedBytes(source, target, rcount)[..|incoming|], incoming)
    && Transfers.Restored(before.(mem := after.mem), after)
  }

  lemma ArrivedIsStore(mem: Memory, addresses: seq<int>, data: seq<byte>)
    requires |data| <= |addresses|
    ensures Arrived(mem, addresses, data) == Store(mem, addresses[..|data|], data)
  {
    hide Store;
    assert data[..|data|] == data;
  }

  lemma ExchangedAs(before: State, after: State, source: Descriptor, scount: nat, target: Descriptor, rcount: nat,
                    incoming: seq<byte>, outgoing: seq<byte>)
    requires Transfers.Exchanged(before, after, SectionBytes(source, scount), ReceivedBytes(source, target, rcount),
                                 incoming, Success, outgoing)
    requires |incoming| <= |ReceivedBytes(source, target, rcount)|
    ensures Exchanged(before, after, source, scount, target, rcount, incoming, outgoing)
  {
    hide ReceivedBytes, SectionBytes, Store, Arrived, Readable;
    ArrivedIsStore(before.mem, ReceivedBytes(source, target, rcount), incoming);
  }

  lemma SendrecvCode(source: Descriptor, scount: nat, target: Descriptor, rcount: nat, send: Code, receive: Code,
                     incoming: seq<byte>)
    requires send == if IsContiguous(source) || AcceptsBuiltin(source, scount) then Success else Aborted
    requires receive == if IsContiguous(source) || AcceptsBuiltin(target, rcount) then Success else Aborted
    ensures Transfers.ExchangeCode(send, receive, ReceivedBytes(source, target, rcount), incoming)
         == if Refused(source, scount, target, rcount) then Aborted
            else if |incoming| > rcount * target.elemLen then ErrTruncate else Success
  {
    ReceivedLength(source, target, rcount);
    hide IsContiguous, AcceptsBuiltin, ReceivedBytes;
  }

  /** CFI_MPI_Sendrecv of elements. */
  method SendrecvElements(lib: Mpi, source: Descriptor, scount: nat, sh: Handle, target: Descriptor, rcount: nat,
                          rh: Handle, incoming: seq<byte>) returns (rc: Code, outgoing: seq<byte>)
    requires lib.Valid() && GoodElements(source, scount, sh) && GoodElements(target, rcount, rh)
    requires |target.dims| >= 1 && Readable(lib.state.mem, SectionBytes(source, scount))
    modifies lib
    ensures lib.Valid() && old(lib.history) <= lib.history
    ensures rc == if Refused(source, scount, target, rcount) then Aborted
                  else if |incoming| > rcount * target.elemLen then ErrTruncate else Success
    ensures rc == ErrTruncate ==> Transfers.Restored(old(lib.state), lib.state)
    ensures |ReceivedBytes(source, target, rcount)| == rcount * target.elemLen
    ensures rc == Success ==>
              Exchanged(old(lib.state), lib.state, source, scount, target, rcount, incoming, outgoing)
  {
    ghost var before := lib.state;
    assert if IsContiguous(source) then IsOpen(lib.state, rh) else Describable(lib.state, target, rh);
    hide *;
    SendSide(lib.state, source, scount, sh);
    ReceiveSide(lib.state, source, target, rcount, rh);
    ReceivedLength(source, target, rcount);
    SendrecvCode(source, scount, target, rcount, Transfers.BufferCode(lib.state, source, scount, sh),
                 Transfers.ReceiveSideCode(lib.state, source, target, rcount, rh), incoming);
    rc, outgoing := Transfers.Sendrecv(lib, source, scount, sh, target, rcount, rh, incoming);
    Outcome(before, lib.state, source, scount, target, rcount, incoming, rc, outgoing);
  }

  lemma Outcome(before: State, after: State, source: Descriptor, scount: nat, target: Descriptor, rcount: nat,
                incoming: seq<byte>, rc: Code, outgoing: seq<byte>)
    requires Transfers.Exchanged(before, after, SectionBytes(source, scount), ReceivedBytes(source, target, rcount),
                                 incoming, rc, outgoing)
    ensures rc == ErrTruncate ==> Transfers.Restored(before, after)
    ensures rc == Success && |incoming| <= |ReceivedBytes(source, target, rcount)| ==>
              Exchanged(before, after, source, scount, target, rcount, incoming, outgoing)
  {
    hide ReceivedBytes, SectionBytes, Arrived, Transfers.Restored, Exchanged;
    if rc == Success && |incoming| <= |ReceivedBytes(source, target, rcount)| {
      ExchangedAs(before, after, source, scount, target, rcount, incoming, outgoing);
    }
  }

  // ---------------------------------------------------------------------------------------------
  // Two processes
  // ---------------------------------------------------------------------------------------------

  /** One process's elements are in the other's section, and nothing else has changed there. */
  ghost predicate Delivered(sent: Memory, source: Descriptor, before: Memory, after: Memory, target: Descriptor,
                            count: nat)
  {
    && ElementsArrived(sent, source, after, target, count)
    && OthersKept(before, after, SectionBytes(target, count))
  }

  /** The message of one process, stored in the section of the other. */
  lemma MessageDelivered(sent: Memory, source: Descriptor, before: Memory, target: Descriptor, count: nat)
    requires source.elemLen == target.elemLen && Readable(sent, SectionBytes(source, count))
    requires Distinct(SectionBytes(target, count))
    ensures |SectionBytes(target, count)| == |SectionBytes(source, count)|
    ensures Delivered(sent, source, before,
                      Store(before, SectionBytes(target, count), Load(sent, SectionBytes(source, count))),
                      target, count)
  {
    hide SectionBytes, ElementsArrived, OthersKept, Distinct, Store;
    SameMessageLength(source, target, count);
    var after := Store(before, SectionBytes(target, count), Load(sent, SectionBytes(source, count)));
    BroadcastAgreement([source, target], [sent, before], [sent, after], 0, count, 1);
  }

  /** What one process's call has done, when it sends `count` elements and receives as many. */
  lemma Received(before: State, after: State, source: Descriptor, target: Descriptor, count: nat, h: Handle,
                 sent: Memory, from: Descriptor, outgoing: seq<byte>)
    requires GoodElements(target, count, h) && from.elemLen == target.elemLen
    requires Readable(sent, SectionBytes(from, count)) && Distinct(SectionBytes(target, count))
    requires Placed(source, target, count)
    requires |Load(sent, SectionBytes(from, count))| <= |ReceivedBytes(source, target, count)|
    requires Exchanged(before, after, source, count, target, count, Load(sent, SectionBytes(from, count)), outgoing)
    ensures Delivered(sent, from, before.mem, after.mem, target, count)
  {
    var message, to := Load(sent, SectionBytes(from, count)), SectionBytes(target, count);
    assert Exchanged(before, after, source, count, target, count, message, outgoing) ==>
           after.mem == Store(before.mem, ReceivedBytes(source, target, count)[..|message|], message);
    hide *;
    PlacedInSection(source, target, count, h);
    SameMessageLength(from, target, count);
    assert |message| == |SectionBytes(from, count)|;
    assert to[..|to|] == to;
    MessageDelivered(sent, from, before.mem, target, count);
  }

  /** Two processes exchange `count` elements each, between sections of any shapes. */
  method Swap(a: Mpi, b: Mpi, fromA: Descriptor, toA: Descriptor, fromB: Descriptor, toB: Descriptor, count: nat,
              h: Handle) returns (ok: bool)
    requires a != b && a.Valid() && b.Valid()
    requires GoodElements(fromA, count, h) && GoodElements(toA, count, h)
    requires GoodElements(fromB, count, h) && GoodElements(toB, count, h) && |toA.dims| >= 1 && |toB.dims| >= 1
    requires Distinct(SectionBytes(toA, count)) && Distinct(SectionBytes(toB, count))
    requires Readable(a.state.mem, SectionBytes(fromA, count)) && Readable(b.state.mem, SectionBytes(fromB, count))
    modifies a, b
    ensures a.Valid() && b.Valid() && old(a.history) <= a.history && old(b.history) <= b.history
    ensures ok <==> !Refused(fromA, count, toA, count) && !Refused(fromB, count, toB, count)
    ensures ok && Placed(fromA, toA, count) ==>
              Delivered(old(b.state.mem), fromB, old(a.state.mem), a.state.mem, toA, count)
    ensures ok && Placed(fromB, toB, count) ==>
              Delivered(old(a.state.mem), fromA, old(b.state.mem), b.state.mem, toB, count)
    ensures ok ==> Transfers.Restored(old(a.state).(mem := a.state.mem), a.state)
    ensures ok ==> Transfers.Restored(old(b.state).(mem := b.state.mem), b.state)
  {
    ghost var beforeA, beforeB := a.state, b.state;
    assert toA.elemLen == toB.elemLen == fromA.elemLen == fromB.elemLen;
    SameMessageLength(fromB, toA, count);
    SameMessageLength(fromA, toB, count);
    ReceivedLength(fromA, toA, count);
    ReceivedLength(fromB, toB, count);
    var message := Load(b.state.mem, SectionBytes(fromB, count));
    hide GoodElements, SectionBytes, ReceivedBytes, Refused, Placed, Delivered, Distinct, Store, Mpi.Valid;
    hide Transfers.Restored, Readable;
    var rc, sent := SendrecvElements(a, fromA, count, h, toA, count, h, message);
    if rc != Success { return false; }
    var reply;
    rc, reply := SendrecvElements(b, fromB, count, h, toB, count, h, sent);
    if rc != Success { return false; }
    ok := true;
    if Placed(fromA, toA, count) {
      Received(beforeA, a.state, fromA, toA, count, h, beforeB.mem, fromB, sent);
    }
    if Placed(fromB, toB, count) {
      Received(beforeB, b.state, fromB, toB, count, h, beforeA.mem, fromA, reply);
    }
  }
}
