/** The calls on elements: sections with a predefined datatype of their elements' size, packed and unpacked
    again, broadcast, and gathered, from the calls of all processes to the elements of their arrays. */
module Elements {
  import opened CInt
  import opened Section
  import opened Layout
  import opened Typemaps
  import opened MpiState
  import opened MpiLibrary
  import opened CfiUtil
  import opened Indexed
  import opened Meaning
  import opened BlockPlacement
  import Transfers
  import Collectives

  // ---------------------------------------------------------------------------------------------
  // Pack, then unpack
  // ---------------------------------------------------------------------------------------------

  /** The argument is a section of at least `count` elements, with a predefined datatype of their size. */
  predicate GoodElements(desc: Descriptor, count: nat, h: Handle) {
    SameElements(desc, h) && WellFormed(desc.dims) && count <= Product(desc.dims)
  }

  /** How a call ends with such an argument, whatever the state and the datatype. */
  function ElementsCode(desc: Descriptor, count: nat): (rc: Code)
    ensures rc in {Success, Aborted}
  {
    if IsContiguous(desc) || BuiltinCode(desc, count) == Success then Success else Aborted
  }

  /** It succeeds for a contiguous section, and for any other while an int holds the number of its elements and of the
      bytes asked for, within the limit of rank 15. */
  lemma ElementsCodeExact(desc: Descriptor, count: nat, h: Handle)
    requires GoodElements(desc, count, h) && 0 < count
    ensures ElementsCode(desc, count) == Success <==>
              || IsContiguous(desc)
              || (&& Product(desc.dims) <= INT_MAX && RankAllows(desc.dims, count)
                  && (count * desc.elemLen <= INT_MAX || (count * desc.elemLen + 32766) % 0x1_0000_0000 == 0))
  {
    ElementTypes(desc.ctype);
    PositiveProduct(desc.dims);
    hide IsContiguous, BuiltinCode, ElementSize, TypeWidth, RankAllows, Product;
    ElementsAccepted(desc, count);
  }

  lemma ElementsBuffer(st: State, desc: Descriptor, count: nat, h: Handle)
    requires GoodElements(desc, count, h)
    ensures Transfers.GoodBuffer(st, desc, h)
    ensures Transfers.Buffer(st, desc, count, h) == SectionBytes(desc, count)
    ensures Transfers.BufferCode(st, desc, count, h) == ElementsCode(desc, count)
    ensures Transfers.Stops(st, desc, count, h) <==> ElementsCode(desc, count) != Success
  {
    EveryPathIsTheSection(st, desc, count, h);
  }

  /** The outcome of packing a section and unpacking into another: every element in its place, and nothing
      else changed but the packed bytes. */
  ghost predicate CarriedOver(before: State, after: State, source: Descriptor, target: Descriptor, count: nat,
                              packed: seq<int>)
  {
    && ElementsArrived(before.mem, source, after.mem, target, count)
    && OthersKept(before.mem, after.mem, packed + SectionBytes(target, count))
    && Transfers.Restored(before.(mem := after.mem), after)
  }

  lemma MovedTwice(before: State, between: State, after: State, source: Descriptor, target: Descriptor,
                   count: nat, at: int)
    requires source.elemLen == target.elemLen && Distinct(SectionBytes(target, count))
    requires Readable(before.mem, SectionBytes(source, count))
    ensures var packed := Range(at, |SectionBytes(source, count)|);
            && |SectionBytes(target, count)| == |packed|
            && Readable(Moved(before.mem, SectionBytes(source, count), packed), packed)
    ensures var packed := Range(at, |SectionBytes(source, count)|);
            && Transfers.Restored(before.(mem := Moved(before.mem, SectionBytes(source, count), packed)), between)
            && Transfers.Restored(between.(mem := Moved(between.mem, packed, SectionBytes(target, count))), after) ==>
              CarriedOver(before, after, source, target, count, packed)
  {
    hide SectionBytes, Moved, ElementsArrived, OthersKept;
    PackUnpackRoundTrip(before.mem, source, target, count, at);
  }

  /** CFI_MPI_Pack of elements. */
  method PackElements(lib: Mpi, source: Descriptor, buffer: Descriptor, count: nat, h: Handle, size: int, position: int)
    returns (rc: Code, newPosition: int)
    requires lib.Valid() && GoodElements(source, count, h)
    requires Readable(lib.state.mem, SectionBytes(source, count))
    modifies lib
    ensures lib.Valid() && old(lib.history) <= lib.history
    ensures !IsContiguous(buffer) ==> rc == ErrArg && lib.state == old(lib.state)
    ensures IsContiguous(buffer) ==>
              var from := SectionBytes(source, count);
              Transfers.Transferred(old(lib.state), lib.state, ElementsCode(source, count),
                                    from, Range(buffer.base + position, |from|), size - position, position,
                                    rc, newPosition)
  {
    hide *;
    ElementsBuffer(lib.state, source, count, h);
    rc, newPosition := Transfers.Pack(lib, source, count, h, buffer, size, position);
  }

  /** CFI_MPI_Unpack of elements. */
  method UnpackElements(lib: Mpi, buffer: Descriptor, target: Descriptor, count: nat, h: Handle,
                        size: int, position: int)
    returns (rc: Code, newPosition: int)
    requires lib.Valid() && GoodElements(target, count, h) && IsContiguous(buffer)
    requires Readable(lib.state.mem, Range(buffer.base + position, |SectionBytes(target, count)|))
    modifies lib
    ensures lib.Valid() && old(lib.history) <= lib.history
    ensures var to := SectionBytes(target, count);
            Transfers.Transferred(old(lib.state), lib.state, ElementsCode(target, count),
                                  Range(buffer.base + position, |to|), to, size - position, position,
                                  rc, newPosition)
  {
    hide *;
    ElementsBuffer(lib.state, target, count, h);
    rc, newPosition := Transfers.Unpack(lib, buffer, size, position, target, count, h);
  }

  /** Packing elements of one section and unpacking them into another of any shape. */
  method RoundTrip(lib: Mpi, source: Descriptor, target: Descriptor, buffer: Descriptor, count: nat, h: Handle,
                   size: int, position: int)
    returns (packing: Code, packedTo: int, unpacking: Code, unpackedTo: int)
    requires lib.Valid() && GoodElements(source, count, h) && GoodElements(target, count, h)
    requires Distinct(SectionBytes(target, count)) && Readable(lib.state.mem, SectionBytes(source, count))
    modifies lib
    ensures lib.Valid() && old(lib.history) <= lib.history
    ensures |SectionBytes(source, count)| == count * source.elemLen
    ensures packing == if !IsContiguous(buffer) then ErrArg
                       else if ElementsCode(source, count) != Success then Aborted
                       else if count * source.elemLen > size - position then ErrTruncate
                       else Success
    ensures unpacking == if packing == Success then ElementsCode(target, count) else packing
    ensures packing == unpacking == Success ==>
              && packedTo == unpackedTo == position + count * source.elemLen
              && CarriedOver(old(lib.state), lib.state, source, target, count,
                             Range(buffer.base + position, |SectionBytes(source, count)|))
  {
    assert source.elemLen == target.elemLen;
    SectionLength(source, count);
    hide ElementsCode, SectionBytes, CarriedOver, GoodElements, Moved, Mpi.Valid, Transfers.Restored;
    hide IsContiguous, Distinct;
    ghost var before := lib.state;
    packing, packedTo := PackElements(lib, source, buffer, count, h, size, position);
    unpacking, unpackedTo := packing, packedTo;
    if packing != Success { return; }
    ghost var between := lib.state;
    MovedTwice(before, between, between, source, target, count, buffer.base + position);
    unpacking, unpackedTo := UnpackElements(lib, buffer, target, count, h, size, position);
    MovedTwice(before, between, lib.state, source, target, count, buffer.base + position);
  }

  // ---------------------------------------------------------------------------------------------
  // Broadcast among all processes
  // ---------------------------------------------------------------------------------------------

  /** CFI_MPI_Bcast of elements on one process, where the message has their length. */
  method BcastElements(lib: Mpi, desc: Descriptor, count: nat, h: Handle, isRoot: bool, incoming: seq<byte>)
    returns (rc: Code, outgoing: seq<byte>)
    requires lib.Valid() && GoodElements(desc, count, h)
    requires if isRoot then Readable(lib.state.mem, SectionBytes(desc, count))
             else |incoming| == |SectionBytes(desc, count)|
    modifies lib
    ensures lib.Valid() && old(lib.history) <= lib.history
    ensures rc == ElementsCode(desc, count)
    ensures rc == Success && isRoot ==>
              && outgoing == Load(old(lib.state.mem), SectionBytes(desc, count))
              && Transfers.Restored(old(lib.state), lib.state)
    ensures rc == Success && !isRoot ==>
              Transfers.Restored(old(lib.state).(mem := Store(old(lib.state.mem), SectionBytes(desc, count), incoming)),
                                 lib.state)
  {
    hide ElementsCode, SectionBytes, GoodElements, MpiState.Valid, Mpi.Traced, Store, Transfers.Restored;
    hide Transfers.Buffer, Transfers.GoodBuffer, Transfers.BufferCode;
    ElementsBuffer(lib.state, desc, count, h);
    rc, outgoing := Collectives.Bcast(lib, desc, count, h, isRoot, incoming);
  }

  /** The processes' sections have elements of the same size, and enough of them. */
  predicate GoodSections(descs: seq<Descriptor>, hs: seq<Handle>, elemLen: nat, count: nat)
    requires |descs| == |hs|
  {
    forall i :: 0 <= i < |descs| ==> GoodElements(descs[i], count, hs[i]) && descs[i].elemLen == elemLen
  }

  ghost predicate ReadyAll(libs: seq<Mpi>, descs: seq<Descriptor>, hs: seq<Handle>, elemLen: nat, count: nat)
    requires |libs| == |descs| == |hs|
    reads libs
  {
    && (forall i, j :: 0 <= i < j < |libs| ==> libs[i] != libs[j])
    && (forall i :: 0 <= i < |libs| ==> libs[i].Valid())
    && GoodSections(descs, hs, elemLen, count)
  }

  /** One state per process. */
  ghost function States(libs: seq<Mpi>): (r: seq<State>)
    reads libs
    ensures |r| == |libs| && forall i :: 0 <= i < |libs| ==> r[i] == libs[i].state
  {
    seq(|libs|, i requires 0 <= i < |libs| reads libs => libs[i].state)
  }

  function Memories(states: seq<State>): (r: seq<Memory>)
    ensures |r| == |states| && forall i :: 0 <= i < |states| ==> r[i] == states[i].mem
  {
    seq(|states|, i requires 0 <= i < |states| => states[i].mem)
  }

  /** The process has stored the message, and done nothing else. */
  ghost predicate Stored(before: State, after: State, desc: Descriptor, count: nat, message: seq<byte>) {
    && |SectionBytes(desc, count)| == |message|
    && Transfers.Restored(before.(mem := Store(before.mem, SectionBytes(desc, count), message)), after)
  }

  /** Every process whose elements do not overlap has the root's elements, and its other bytes are as before. */
  ghost predicate Agreement(descs: seq<Descriptor>, before: seq<Memory>, after: seq<Memory>, root: nat, count: nat)
    requires root < |descs| == |before| == |after|
  {
    forall r :: 0 <= r < |descs| && Distinct(SectionBytes(descs[r], count)) ==>
      && ElementsArrived(before[root], descs[root], after[r], descs[r], count)
      && OthersKept(before[r], after[r], SectionBytes(descs[r], count))
  }

  lemma BroadcastToAll(descs: seq<Descriptor>, before: seq<Memory>, after: seq<Memory>, root: nat, count: nat)
    requires root < |descs| == |before| == |after| && Broadcast(descs, before, after, root, count)
    requires forall r :: 0 <= r < |descs| ==> descs[r].elemLen == descs[root].elemLen
    ensures Agreement(descs, before, after, root, count)
  {
    hide SectionBytes, ElementsArrived, OthersKept, Distinct, Broadcast;
    forall r | 0 <= r < |descs| && Distinct(SectionBytes(descs[r], count))
      ensures ElementsArrived(before[root], descs[root], after[r], descs[r], count)
      ensures OthersKept(before[r], after[r], SectionBytes(descs[r], count))
    {
      BroadcastAgreement(descs, before, after, root, count, r);
    }
  }

  /** All processes together, the others having stored what the root sent. */
  lemma AllStored(before: seq<State>, after: seq<State>, descs: seq<Descriptor>, root: nat, count: nat,
                  message: seq<byte>)
    requires root < |descs| == |before| == |after|
    requires forall r :: 0 <= r < |descs| ==> descs[r].elemLen == descs[root].elemLen
    requires Readable(before[root].mem, SectionBytes(descs[root], count))
    requires message == Load(before[root].mem, SectionBytes(descs[root], count))
    requires Transfers.Restored(before[root], after[root])
    requires forall r :: 0 <= r < |descs| && r != root ==> Stored(before[r], after[r], descs[r], count, message)
    ensures Broadcast(descs, Memories(before), Memories(after), root, count)
    ensures Agreement(descs, Memories(before), Memories(after), root, count)
    ensures forall r :: 0 <= r < |descs| ==> Transfers.Restored(before[r].(mem := after[r].mem), after[r])
  {
    hide SectionBytes, Agreement, Store;
    BroadcastToAll(descs, Memories(before), Memories(after), root, count);
  }

  /** The calls of all processes but the root. */
  method BcastOthers(libs: seq<Mpi>, descs: seq<Descriptor>, hs: seq<Handle>, root: nat, count: nat,
                     message: seq<byte>) returns (ok: bool)
    requires root < |libs| == |descs| == |hs| && ReadyAll(libs, descs, hs, descs[root].elemLen, count)
    requires |message| == |SectionBytes(descs[root], count)|
    modifies libs
    ensures forall i :: 0 <= i < |libs| ==> libs[i].Valid() && old(libs[i].history) <= libs[i].history
    ensures ok <==> forall i :: 0 <= i < |libs| && i != root ==> ElementsCode(descs[i], count) == Success
    ensures ok ==> forall i :: 0 <= i < |libs| && i != root ==>
              Stored(old(libs[i].state), libs[i].state, descs[i], count, message)
    ensures libs[root].state == old(libs[root].state)
  {
    hide ElementsCode, SectionBytes, GoodElements, Mpi.Valid, Store, Transfers.Restored, Readable;
    ghost var before := States(libs);
    for i := 0 to |libs|
      invariant forall j :: 0 <= j < |libs| ==> libs[j].Valid() && old(libs[j].history) <= libs[j].history
      invariant forall j :: 0 <= j < i && j != root ==> ElementsCode(descs[j], count) == Success
      invariant forall j :: 0 <= j < i && j != root ==> Stored(before[j], libs[j].state, descs[j], count, message)
      invariant forall j :: i <= j < |libs| || j == root ==> libs[j].state == before[j]
    {
      if i != root {
        SameMessageLength(descs[root], descs[i], count);
        var rc, ignored := BcastElements(libs[i], descs[i], count, hs[i], false, message);
        if rc != Success { return false; }
        assert Stored(before[i], libs[i].state, descs[i], count, message);
      }
    }
    ok := true;
  }

  /** The calls of all processes, the root's first; the message is what the root's call sends. */
  method BcastAll(libs: seq<Mpi>, descs: seq<Descriptor>, hs: seq<Handle>, root: nat, count: nat) returns (ok: bool)
    requires root < |libs| == |descs| == |hs| && ReadyAll(libs, descs, hs, descs[root].elemLen, count)
    requires Readable(libs[root].state.mem, SectionBytes(descs[root], count))
    modifies libs
    ensures forall i :: 0 <= i < |libs| ==> libs[i].Valid() && old(libs[i].history) <= libs[i].history
    ensures ok <==> forall i :: 0 <= i < |libs| ==> ElementsCode(descs[i], count) == Success
    ensures ok ==> Broadcast(descs, Memories(old(States(libs))), Memories(States(libs)), root, count)
    ensures ok ==> Agreement(descs, Memories(old(States(libs))), Memories(States(libs)), root, count)
    ensures ok ==> forall i :: 0 <= i < |libs| ==>
              Transfers.Restored(old(libs[i].state).(mem := libs[i].state.mem), libs[i].state)
  {
    hide ElementsCode, SectionBytes, GoodElements, Mpi.Valid, Agreement, Broadcast, Stored;
    hide Transfers.Restored, Readable;
    ghost var before := States(libs);
    var rc, message := BcastElements(libs[root], descs[root], count, hs[root], true, []);
    if rc != Success { return false; }
    ok := BcastOthers(libs, descs, hs, root, count, message);
    if ok { AllStored(before, States(libs), descs, root, count, message); }
  }

  lemma SameMessageLength(a: Descriptor, b: Descriptor, count: nat)
    requires a.elemLen == b.elemLen
    ensures |SectionBytes(a, count)| == |SectionBytes(b, count)|
  {
    SectionLength(a, count);
    SectionLength(b, count);
  }

  // ---------------------------------------------------------------------------------------------
  // Gather from all processes
  // ---------------------------------------------------------------------------------------------

  function Flatten(messages: seq<seq<byte>>): seq<byte> {
    if |messages| == 0 then [] else Flatten(messages[..|messages| - 1]) + messages[|messages| - 1]
  }

  lemma {:induction false} FlattenAt(messages: seq<seq<byte>>, len: nat, j: nat, x: nat)
    requires forall i :: 0 <= i < |messages| ==> |messages[i]| == len
    requires j < |messages| && x < len
    ensures |Flatten(messages)| == |messages| * len && j * len + x < |messages| * len
    ensures Flatten(messages)[j * len + x] == messages[j][x]
  {
    var n := |messages| - 1;
    FlattenLength(messages, len);
    FlattenLength(messages[..n], len);
    BlockBounds(|messages|, len, j, x);
    NextMultiple(len, n);
    if j < n { FlattenAt(messages[..n], len, j, x); }
  }

  lemma {:induction false} FlattenLength(messages: seq<seq<byte>>, len: nat)
    requires forall i :: 0 <= i < |messages| ==> |messages[i]| == len
    ensures |Flatten(messages)| == |messages| * len
  {
    if |messages| > 0 {
      FlattenLength(messages[..|messages| - 1], len);
      NextMultiple(len, |messages| - 1);
    }
  }

  /** The root's section holds n blocks of `count` elements, and the library places them where they belong. */
  predicate GoodBlocks(output: Descriptor, count: nat, n: nat) {
    && 0 < count && 0 < n && 0 < n * count <= Product(output.dims)
    && (IsContiguous(output) || n == 1 || BlocksFit(output.dims, output.elemLen, n, count))
  }

  lemma BlocksBuffer(st: State, output: Descriptor, count: nat, h: Handle, n: nat)
    requires GoodElements(output, count, h) && GoodBlocks(output, count, n)
    ensures Addresses(Collectives.BlocksAsWritten(st, output, count, h, n), output.base)
         == SectionBytes(output, n * count)
  {
    BlocksLandInPlace(st, output, count, h, n);
  }

  /** Both sections can be described, on every process. */
  predicate BothAccepted(input: Descriptor, output: Descriptor, count: nat) {
    ElementsCode(input, count) == Success && ElementsCode(output, count) == Success
  }

  /** CFI_MPI_Gather of elements on one process. */
  method GatherElements(lib: Mpi, input: Descriptor, output: Descriptor, count: nat, h: Handle, isRoot: bool, n: nat,
                        contributions: seq<byte>) returns (rc: Code, outgoing: seq<byte>)
    requires lib.Valid() && GoodElements(input, count, h) && GoodElements(output, count, h)
    requires Readable(lib.state.mem, SectionBytes(input, count))
    requires isRoot ==> GoodBlocks(output, count, n) && |contributions| == |SectionBytes(output, n * count)|
    modifies lib
    ensures lib.Valid() && old(lib.history) <= lib.history
    ensures rc == if BothAccepted(input, output, count) then Success else Aborted
    ensures rc == Success ==> outgoing == Load(old(lib.state.mem), SectionBytes(input, count))
    ensures rc == Success && !isRoot ==> Transfers.Restored(old(lib.state), lib.state)
    ensures rc == Success && isRoot ==>
              Transfers.Restored(old(lib.state).(mem := Store(old(lib.state.mem), SectionBytes(output, n * count),
                                                              contributions)), lib.state)
  {
    hide ElementsCode, SectionBytes, GoodElements, GoodBlocks, MpiState.Valid, Mpi.Traced, Store;
    hide Transfers.Restored, Transfers.Buffer, Transfers.GoodBuffer, Transfers.BufferCode, Transfers.Stops;
    hide Addresses, Collectives.BlocksAsWritten, IsContiguous;
    ElementsBuffer(lib.state, input, count, h);
    ElementsBuffer(lib.state, output, count, h);
    if isRoot { BlocksBuffer(lib.state, output, count, h, n); }
    rc, outgoing := Collectives.Gather(lib, input, count, h, output, count, h, isRoot, n, contributions);
  }

  /** Element `first` + k of the output is element k of the input. */
  ghost predicate BlockArrived(input: Descriptor, before: Memory, output: Descriptor, after: Memory,
                               first: int, count: nat)
  {
    forall k, b :: 0 <= k < count && 0 <= b < output.elemLen ==>
      && ElementByte(input, k, b) in before && ElementByte(output, first + k, b) in after
      && after[ElementByte(output, first + k, b)] == before[ElementByte(input, k, b)]
  }

  /** Element j * count + k of the root's section is element k of process j's. */
  ghost predicate ElementsGathered(inputs: seq<Descriptor>, before: seq<Memory>, output: Descriptor, after: Memory,
                                   count: nat)
    requires |inputs| == |before|
  {
    forall j :: 0 <= j < |inputs| ==> BlockArrived(inputs[j], before[j], output, after, j * count, count)
  }

  lemma GatheredLength(inputs: seq<Descriptor>, output: Descriptor, messages: seq<seq<byte>>, count: nat)
    requires |messages| == |inputs|
    requires forall j :: 0 <= j < |inputs| ==>
               |messages[j]| == |SectionBytes(inputs[j], count)| && inputs[j].elemLen == output.elemLen
    ensures forall j :: 0 <= j < |inputs| ==> |messages[j]| == count * output.elemLen
    ensures |Flatten(messages)| == |SectionBytes(output, |inputs| * count)|
  {
    hide SectionBytes;
    forall j | 0 <= j < |inputs| ensures |messages[j]| == count * output.elemLen { SectionLength(inputs[j], count); }
    FlattenLength(messages, count * output.elemLen);
    SectionLength(output, |inputs| * count);
    MulAssoc(|inputs|, count, output.elemLen);
  }

  lemma GatheredIndex(n: nat, count: nat, len: nat, j: nat, k: nat, b: nat)
    requires j < n && k < count && b < len
    ensures 0 <= j * count + k < n * count && 0 <= k * len + b < count * len
    ensures (j * count + k) * len + b == j * (count * len) + (k * len + b)
    ensures (n * count) * len == n * (count * len)
  {
    BlockBounds(n, count, j, k);
    BlockBounds(count, len, k, b);
    MulAssoc(j, count, len);
    MulAssoc(n, count, len);
    assert (j * count + k) * len == (j * count) * len + k * len;
  }

  /** Where byte b of element k of message j is, in the messages and in the section. */
  lemma GatheredByte(output: Descriptor, messages: seq<seq<byte>>, count: nat, j: nat, k: nat, b: nat) returns (at: nat)
    requires j < |messages| && k < count && b < output.elemLen
    requires forall i :: 0 <= i < |messages| ==> |messages[i]| == count * output.elemLen
    ensures at < |SectionBytes(output, |messages| * count)| == |Flatten(messages)|
    ensures 0 <= k * output.elemLen + b < count * output.elemLen
    ensures SectionBytes(output, |messages| * count)[at] == ElementByte(output, j * count + k, b)
    ensures Flatten(messages)[at] == messages[j][k * output.elemLen + b]
  {
    hide *;
    var n, len := |messages|, output.elemLen;
    GatheredIndex(n, count, len, j, k, b);
    SectionByte(output, n * count, j * count + k, b);
    FlattenAt(messages, count * len, j, k * len + b);
    at := (j * count + k) * len + b;
  }

  lemma ElementGathered(input: Descriptor, before: Memory, output: Descriptor, after: Memory,
                        messages: seq<seq<byte>>, count: nat, j: nat, k: nat, b: nat)
    requires j < |messages| && k < count && b < output.elemLen == input.elemLen
    requires forall i :: 0 <= i < |messages| ==> |messages[i]| == count * output.elemLen
    requires Readable(before, SectionBytes(input, count)) && messages[j] == Load(before, SectionBytes(input, count))
    requires var to := SectionBytes(output, |messages| * count);
             |to| == |Flatten(messages)|
             && forall x :: 0 <= x < |to| ==> to[x] in after && after[to[x]] == Flatten(messages)[x]
    ensures ElementByte(input, k, b) in before && ElementByte(output, j * count + k, b) in after
    ensures after[ElementByte(output, j * count + k, b)] == before[ElementByte(input, k, b)]
  {
    var bytes := SectionBytes(input, count);
    assert forall x :: 0 <= x < |bytes| ==> bytes[x] in before;
    hide *;
    SectionByte(input, count, k, b);
    var at := GatheredByte(output, messages, count, j, k, b);
  }

  lemma BlockGathered(input: Descriptor, before: Memory, output: Descriptor, after: Memory,
                      messages: seq<seq<byte>>, count: nat, j: nat)
    requires j < |messages| && output.elemLen == input.elemLen
    requires forall i :: 0 <= i < |messages| ==> |messages[i]| == count * output.elemLen
    requires Readable(before, SectionBytes(input, count)) && messages[j] == Load(before, SectionBytes(input, count))
    requires var to := SectionBytes(output, |messages| * count);
             |to| == |Flatten(messages)|
             && forall x :: 0 <= x < |to| ==> to[x] in after && after[to[x]] == Flatten(messages)[x]
    ensures BlockArrived(input, before, output, after, j * count, count)
  {
    hide SectionBytes, Flatten, ElementByte, Readable;
    forall k, b | 0 <= k < count && 0 <= b < output.elemLen
      ensures ElementByte(input, k, b) in before && ElementByte(output, j * count + k, b) in after
      ensures after[ElementByte(output, j * count + k, b)] == before[ElementByte(input, k, b)]
    {
      ElementGathered(input, before, output, after, messages, count, j, k, b);
    }
  }

  lemma GatherArrives(inputs: seq<Descriptor>, before: seq<Memory>, output: Descriptor, mem: Memory,
                      messages: seq<seq<byte>>, count: nat)
    requires |inputs| == |before| == |messages| && Distinct(SectionBytes(output, |inputs| * count))
    requires forall j :: 0 <= j < |inputs| ==>
               && inputs[j].elemLen == output.elemLen && Readable(before[j], SectionBytes(inputs[j], count))
               && messages[j] == Load(before[j], SectionBytes(inputs[j], count))
    ensures |Flatten(messages)| == |SectionBytes(output, |inputs| * count)|
    ensures var after := Store(mem, SectionBytes(output, |inputs| * count), Flatten(messages));
            && ElementsGathered(inputs, before, output, after, count)
            && OthersKept(mem, after, SectionBytes(output, |inputs| * count))
  {
    hide SectionBytes, Flatten, Store, Readable, Distinct, OthersKept, BlockArrived;
    var to := SectionBytes(output, |inputs| * count);
    GatheredLength(inputs, output, messages, count);
    StoredAt(mem, to, Flatten(messages));
    var after := Store(mem, to, Flatten(messages));
    forall j | 0 <= j < |inputs| ensures BlockArrived(inputs[j], before[j], output, after, j * count, count) {
      BlockGathered(inputs[j], before[j], output, after, messages, count, j);
    }
  }

  /** One process has sent its message; the root's call is still to come. */
  ghost predicate Contributed(before: State, after: State, input: Descriptor, output: Descriptor, count: nat,
                              isRoot: bool, message: seq<byte>)
  {
    && Readable(before.mem, SectionBytes(input, count)) && message == Load(before.mem, SectionBytes(input, count))
    && (isRoot ==> after == before)
    && (!isRoot ==> BothAccepted(input, output, count) && Transfers.Restored(before, after))
  }

  /** One process's call, or, for the root, its own section. */
  method Contribution(lib: Mpi, input: Descriptor, output: Descriptor, count: nat, h: Handle, isRoot: bool, n: nat)
    returns (ok: bool, message: seq<byte>)
    requires lib.Valid() && GoodElements(input, count, h) && GoodElements(output, count, h)
    requires Readable(lib.state.mem, SectionBytes(input, count))
    modifies lib
    ensures lib.Valid() && old(lib.history) <= lib.history
    ensures ok <==> isRoot || BothAccepted(input, output, count)
    ensures ok ==> Contributed(old(lib.state), lib.state, input, output, count, isRoot, message)
  {
    hide ElementsCode, SectionBytes, GoodElements, Mpi.Valid, Transfers.Restored, Readable;
    ok, message := true, Load(lib.state.mem, SectionBytes(input, count));
    if !isRoot {
      var rc;
      rc, message := GatherElements(lib, input, output, count, h, false, n, []);
      ok := rc == Success;
    }
  }

  /** The calls of all processes but the root; the root's message is its own section. */
  method Contribute(libs: seq<Mpi>, inputs: seq<Descriptor>, outputs: seq<Descriptor>, hs: seq<Handle>,
                    root: nat, count: nat) returns (ok: bool, messages: seq<seq<byte>>)
    requires root < |libs| == |inputs| == |outputs| == |hs|
    requires ReadyAll(libs, inputs, hs, outputs[root].elemLen, count)
    requires GoodSections(outputs, hs, outputs[root].elemLen, count)
    requires forall i :: 0 <= i < |libs| ==> Readable(libs[i].state.mem, SectionBytes(inputs[i], count))
    modifies libs
    ensures forall i :: 0 <= i < |libs| ==> libs[i].Valid() && old(libs[i].history) <= libs[i].history
    ensures ok <==> forall i :: 0 <= i < |libs| && i != root ==> BothAccepted(inputs[i], outputs[i], count)
    ensures ok ==> |messages| == |libs|
    ensures ok ==> forall i :: 0 <= i < |libs| ==>
              Contributed(old(libs[i].state), libs[i].state, inputs[i], outputs[i], count, i == root, messages[i])
  {
    hide BothAccepted, SectionBytes, GoodElements, Mpi.Valid, Contributed, Readable, Product, IsContiguous;
    ghost var before := States(libs);
    messages := [];
    for i := 0 to |libs|
      invariant forall j :: 0 <= j < |libs| ==> libs[j].Valid() && old(libs[j].history) <= libs[j].history
      invariant forall j :: 0 <= j < i && j != root ==> BothAccepted(inputs[j], outputs[j], count)
      invariant |messages| == i
      invariant forall j :: 0 <= j < i ==>
                  Contributed(before[j], libs[j].state, inputs[j], outputs[j], count, j == root, messages[j])
      invariant forall j :: i <= j < |libs| ==> libs[j].state == before[j]
    {
      var sent, message := Contribution(libs[i], inputs[i], outputs[i], count, hs[i], i == root, |libs|);
      if !sent { return false, messages; }
      messages := messages + [message];
    }
    ok := true;
  }

  /** The calls of all processes, the root's last. */
  method GatherAll(libs: seq<Mpi>, inputs: seq<Descriptor>, outputs: seq<Descriptor>, hs: seq<Handle>,
                   root: nat, count: nat) returns (ok: bool)
    requires root < |libs| == |inputs| == |outputs| == |hs|
    requires ReadyAll(libs, inputs, hs, outputs[root].elemLen, count)
    requires GoodSections(outputs, hs, outputs[root].elemLen, count)
    requires forall i :: 0 <= i < |libs| ==> Readable(libs[i].state.mem, SectionBytes(inputs[i], count))
    requires GoodBlocks(outputs[root], count, |libs|) && Distinct(SectionBytes(outputs[root], |libs| * count))
    modifies libs
    ensures forall i :: 0 <= i < |libs| ==> libs[i].Valid() && old(libs[i].history) <= libs[i].history
    ensures ok <==> forall i :: 0 <= i < |libs| ==> BothAccepted(inputs[i], outputs[i], count)
    ensures ok ==>
              && ElementsGathered(inputs, Memories(old(States(libs))), outputs[root], libs[root].state.mem, count)
              && OthersKept(old(libs[root].state.mem), libs[root].state.mem,
                            SectionBytes(outputs[root], |libs| * count))
              && Transfers.Restored(old(libs[root].state).(mem := libs[root].state.mem), libs[root].state)
    ensures ok ==> forall i :: 0 <= i < |libs| && i != root ==>
              Transfers.Restored(old(libs[i].state), libs[i].state)
  {
    hide ElementsCode, SectionBytes, GoodElements, Mpi.Valid, Store, GoodBlocks, Distinct, ElementsGathered, OthersKept;
    hide Readable;
    ghost var before := States(libs);
    var messages;
    ok, messages := Contribute(libs, inputs, outputs, hs, root, count);
    if !ok { return; }
    GatherArrives(inputs, Memories(before), outputs[root], before[root].mem, messages, count);
    var rc, own := GatherElements(libs[root], inputs[root], outputs[root], count, hs[root], true, |libs|,
                                  Flatten(messages));
    ok := rc == Success;
  }
}
