/** The MPI library that the sources call, one object per process.  It is the environment of the modelled
    code: each method states the part of MPI 4.0 (chapters 3, 5 and 6) that its callers rely on. */
module MpiLibrary {
  import opened CInt
  import opened Typemaps
  import opened MpiState

  /** Error classes.  Aborted: a VAPAA_Assert failed.  Undefined: the code used memory outside its arrays, or
      addresses that it has not stored there. */
  datatype Code = Success | ErrCount | ErrType | ErrArg | ErrIntern | ErrTruncate | Aborted | Undefined

  /** The call comes back to its caller. */
  predicate Returns(rc: Code) {
    rc !in {Aborted, Undefined}
  }

  /** What MPI_Type_size reports for a size that an int cannot hold. */
  const MPI_UNDEFINED: int := -32766

  predicate Ready(st: State, count: int, h: Handle) {
    count >= 0 && Usable(st, h)
  }

  /** The error class of a communication call whose other arguments are in order. */
  function UseCode(st: State, count: int, h: Handle): Code {
    if !Usable(st, h) then ErrType else if count < 0 then ErrCount else Success
  }

  /** The bytes a blocking call touches. */
  function Touched(st: State, base: int, count: int, h: Handle): seq<int>
    requires Ready(st, count, h)
  {
    Addresses(Transfer(st, count, h), base)
  }

  /** The error class of a pack or unpack: the packed data must fit in what is left of the buffer. */
  function RoomCode(rc: Code, bytes: nat, room: int): Code {
    if rc == Success && bytes > room then ErrTruncate else rc
  }

  /** Number of bytes a call touches, 0 for a call that fails. */
  function TouchedBytes(st: State, base: int, count: int, h: Handle): nat {
    if Ready(st, count, h) then |Touched(st, base, count, h)| else 0
  }

  /** The error class of MPI_Pack and MPI_Unpack with `room` bytes left in the packed buffer. */
  function PackCode(st: State, base: int, count: int, h: Handle, room: int): Code {
    RoomCode(UseCode(st, count, h), TouchedBytes(st, base, count, h), room)
  }

  function ReportedSize(size: nat): int {
    if size <= INT_MAX then size else MPI_UNDEFINED
  }

  class Mpi {
    var state: State
    ghost const initial: State
    ghost var history: seq<Event>

    /** The state is what the events so far have made of the initial one. */
    ghost predicate Traced()
      reads this
    {
      IsRun(initial, history) && state == Run(initial, history)
    }

    ghost predicate Valid()
      reads this
    {
      MpiState.Valid(state) && Traced()
    }

    constructor (mem: Memory)
      ensures Valid() && state == State(map[], map[], mem, 0, 0) && history == []
    {
      state := State(map[], map[], mem, 0, 0);
      initial := State(map[], map[], mem, 0, 0);
      history := [];
    }

    /** The only way the state changes. */
    method Step(e: Event)
      requires Valid() && Enabled(state, e)
      modifies this
      ensures Valid()
      ensures state == Apply(old(state), e) && history == old(history) + [e]
    {
      ApplyValid(state, e);
      RunSnoc(initial, history, e);
      state := Apply(state, e);
      history := history + [e];
    }

    method TypeCreateHvector(count: int, blocklength: int, stride: int, oldtype: Handle)
      returns (rc: Code, created: Handle)
      requires Valid()
      modifies this
      ensures Valid() && old(history) <= history
      ensures rc == Success <==> IsOpen(old(state), oldtype) && count >= 0 && blocklength >= 0
      ensures rc != Success ==> state == old(state)
      ensures rc == Success ==>
                var entries := Hvector(count, blocklength, stride,
                                       EntriesOf(old(state), oldtype), ExtentOf(old(state), oldtype));
                && created == Derived(old(state).nextType)
                && state == Registered(old(state), entries, entries, NaturalExtent(entries))
    {
      created := Null;
      if !IsOpen(state, oldtype) { return ErrType, created; }
      if count < 0 || blocklength < 0 { return ErrCount, created; }
      var entries := Hvector(count, blocklength, stride, EntriesOf(state, oldtype), ExtentOf(state, oldtype));
      created := Derived(state.nextType);
      Step(Register(entries, entries, NaturalExtent(entries)));
      rc := Success;
    }

    method TypeCreateHindexed(count: int, blocklengths: array<nat>, displacements: array<int>, oldtype: Handle)
      returns (rc: Code, created: Handle)
      requires Valid()
      requires 0 <= count <= blocklengths.Length && count <= displacements.Length
      modifies this
      ensures Valid() && old(history) <= history
      ensures rc == Success <==> IsOpen(old(state), oldtype)
      ensures rc != Success ==> state == old(state)
      ensures rc == Success ==>
                var entries := Hindexed(blocklengths[..count], displacements[..count],
                                        EntriesOf(old(state), oldtype), ExtentOf(old(state), oldtype));
                && created == Derived(old(state).nextType)
                && state == Registered(old(state), entries, entries, NaturalExtent(entries))
    {
      created := Null;
      if !IsOpen(state, oldtype) { return ErrType, created; }
      var entries := Hindexed(blocklengths[..count], displacements[..count],
                              EntriesOf(state, oldtype), ExtentOf(state, oldtype));
      created := Derived(state.nextType);
      Step(Register(entries, entries, NaturalExtent(entries)));
      rc := Success;
    }

    method TypeSize(datatyp: Handle) returns (size: int)
      requires IsOpen(state, datatyp)
      ensures size == ReportedSize(Size(EntriesOf(state, datatyp)))
    {
      size := ReportedSize(Size(EntriesOf(state, datatyp)));
    }

    /** MPIX_Type_iov_len and MPIX_Type_iov: the segments and the number of bytes in them. */
    method TypeIov(datatyp: Handle) returns (iov: Typemap, totalBytes: nat)
      requires Valid() && IsOpen(state, datatyp)
      ensures iov == IovOf(state, datatyp) && totalBytes == Size(iov)
    {
      iov := IovOf(state, datatyp);
      totalBytes := Size(iov);
    }

    method TypeGetExtent(datatyp: Handle) returns (extent: int)
      requires IsOpen(state, datatyp)
      ensures extent == ExtentOf(state, datatyp)
    {
      extent := ExtentOf(state, datatyp);
    }

    method TypeCommit(datatyp: Handle) returns (rc: Code)
      requires Valid()
      modifies this
      ensures Valid() && old(history) <= history
      ensures rc == (if IsOpen(old(state), datatyp) then Success else ErrType)
      ensures state == if rc == Success && datatyp.Derived? then Committed(old(state), datatyp.id) else old(state)
    {
      if !IsOpen(state, datatyp) { return ErrType; }
      if datatyp.Derived? {
        Step(Commit(datatyp.id));
      }
      rc := Success;
    }

    /** Predefined datatypes may not be freed. */
    method TypeFree(datatyp: Handle) returns (rc: Code)
      requires Valid()
      modifies this
      ensures Valid() && old(history) <= history
      ensures rc == (if IsOpen(old(state), datatyp) && datatyp.Derived? then Success else ErrType)
      ensures state == if rc == Success then Freed(old(state), datatyp.id) else old(state)
    {
      if !IsOpen(state, datatyp) || !datatyp.Derived? { return ErrType; }
      Step(Free(datatyp.id));
      rc := Success;
    }

    /** MPI_Isend and MPI_Irecv. */
    method StartTransfer(receive: bool, base: int, count: int, datatyp: Handle)
      returns (rc: Code, request: nat)
      requires Valid()
      modifies this
      ensures Valid() && old(history) <= history
      ensures rc == UseCode(old(state), count, datatyp)
      ensures rc != Success ==> state == old(state)
      ensures rc == Success ==>
                request == old(state).nextRequest && state == Posted(old(state), Op(receive, base, count, datatyp))
    {
      rc, request := UseCode(state, count, datatyp), state.nextRequest;
      if rc == Success {
        Step(Post(Op(receive, base, count, datatyp)));
      }
    }

    /** MPI_Sendrecv.  `outgoing` is the message that leaves, `incoming` the one that arrives; it may be
        shorter than the receive buffer but not longer. */
    method Sendrecv(sendbuf: int, sendcount: int, sendtype: Handle, recvbuf: int, recvcount: int, recvtype: Handle,
                    incoming: seq<byte>) returns (rc: Code, outgoing: seq<byte>)
      requires Valid()
      requires Ready(state, sendcount, sendtype) ==> Readable(state.mem, Touched(state, sendbuf, sendcount, sendtype))
      modifies this
      ensures Valid() && old(history) <= history
      ensures rc == if UseCode(old(state), sendcount, sendtype) != Success then UseCode(old(state), sendcount, sendtype)
                    else ReceiveCode(old(state), recvbuf, recvcount, recvtype, incoming)
      ensures rc != Success ==> state == old(state)
      ensures rc == Success ==>
                && outgoing == Load(old(state).mem, Touched(old(state), sendbuf, sendcount, sendtype))
                && state == old(state).(mem := Arrived(old(state).mem,
                                                       Touched(old(state), recvbuf, recvcount, recvtype), incoming))
    {
      hide MpiState.Valid, Arrived, Transfer, Addresses;
      rc, outgoing := UseCode(state, sendcount, sendtype), [];
      if rc != Success { return; }
      rc := ReceiveCode(state, recvbuf, recvcount, recvtype, incoming);
      if rc == Success {
        outgoing := Load(state.mem, Touched(state, sendbuf, sendcount, sendtype));
        var mem := Arrived(state.mem, Touched(state, recvbuf, recvcount, recvtype), incoming);
        Step(Write(mem));
      }
    }

    /** MPI_Bcast: the root's data is the message, and every other process stores the message, which must
        be as long as its buffer. */
    method Bcast(base: int, count: int, datatyp: Handle, isRoot: bool, incoming: seq<byte>)
      returns (rc: Code, outgoing: seq<byte>)
      requires Valid()
      requires isRoot && Ready(state, count, datatyp) ==> Readable(state.mem, Touched(state, base, count, datatyp))
      modifies this
      ensures Valid() && old(history) <= history
      ensures rc == BcastCode(old(state), base, count, datatyp, isRoot, incoming)
      ensures rc != Success || isRoot ==> state == old(state)
      ensures rc == Success && isRoot ==> outgoing == Load(old(state).mem, Touched(old(state), base, count, datatyp))
      ensures rc == Success && !isRoot ==>
                state == old(state).(mem := Store(old(state).mem, Touched(old(state), base, count, datatyp), incoming))
    {
      rc, outgoing := BcastCode(state, base, count, datatyp, isRoot, incoming), incoming;
      if rc != Success { return; }
      if isRoot {
        outgoing := Load(state.mem, Touched(state, base, count, datatyp));
      } else {
        var mem := Store(state.mem, Touched(state, base, count, datatyp), incoming);
        Step(Write(mem));
      }
    }

    /** MPI_Gather among n processes: this process's contribution leaves as `outgoing`, and the root stores
        all contributions, block j at j * recvcount extents of its datatype. */
    method Gather(sendbuf: int, sendcount: int, sendtype: Handle, recvbuf: int, recvcount: int, recvtype: Handle,
                  isRoot: bool, n: nat, contributions: seq<byte>) returns (rc: Code, outgoing: seq<byte>)
      requires Valid()
      requires Ready(state, sendcount, sendtype) ==> Readable(state.mem, Touched(state, sendbuf, sendcount, sendtype))
      modifies this
      ensures Valid() && old(history) <= history
      ensures rc == GatherCode(old(state), sendcount, sendtype, recvbuf, recvcount, recvtype, isRoot, n, contributions)
      ensures rc != Success || !isRoot ==> state == old(state)
      ensures rc == Success ==> outgoing == Load(old(state).mem, Touched(old(state), sendbuf, sendcount, sendtype))
      ensures rc == Success && isRoot ==>
                state == old(state).(mem := Store(old(state).mem, Touched(old(state), recvbuf, n * recvcount, recvtype),
                                                  contributions))
    {
      hide MpiState.Valid, Transfer, Addresses, Store;
      outgoing := [];
      rc := GatherCode(state, sendcount, sendtype, recvbuf, recvcount, recvtype, isRoot, n, contributions);
      if rc != Success { return; }
      outgoing := Load(state.mem, Touched(state, sendbuf, sendcount, sendtype));
      if isRoot {
        var mem := Store(state.mem, Touched(state, recvbuf, n * recvcount, recvtype), contributions);
        Step(Write(mem));
      }
    }

    static function GatherCode(st: State, sendcount: int, sendtype: Handle,
                               recvbuf: int, recvcount: int, recvtype: Handle,
                               isRoot: bool, n: nat, contributions: seq<byte>): (rc: Code)
      ensures rc == Success ==> Ready(st, sendcount, sendtype)
      ensures rc == Success && isRoot ==>
                Ready(st, n * recvcount, recvtype) && |contributions| == |Touched(st, recvbuf, n * recvcount, recvtype)|
    {
      if UseCode(st, sendcount, sendtype) != Success then UseCode(st, sendcount, sendtype)
      else if !isRoot then Success
      else if UseCode(st, recvcount, recvtype) != Success then UseCode(st, recvcount, recvtype)
      else
        assert n * recvcount >= 0;
        if |contributions| != |Touched(st, recvbuf, n * recvcount, recvtype)| then ErrTruncate else Success
    }

    static function BcastCode(st: State, base: int, count: int, datatyp: Handle, isRoot: bool,
        incoming: seq<byte>): Code {
      var rc := UseCode(st, count, datatyp);
      if rc == Success && !isRoot && |incoming| != |Touched(st, base, count, datatyp)| then ErrTruncate else rc
    }

    static function ReceiveCode(st: State, base: int, count: int, datatyp: Handle, message: seq<byte>): Code {
      var rc := UseCode(st, count, datatyp);
      if rc == Success && |message| > |Touched(st, base, count, datatyp)| then ErrTruncate else rc
    }

    method Pack(inbuf: int, incount: int, datatyp: Handle, outbuf: int, outsize: int, position: int)
      returns (rc: Code, newPosition: int)
      requires Valid()
      requires Ready(state, incount, datatyp) ==> Readable(state.mem, Touched(state, inbuf, incount, datatyp))
      modifies this
      ensures Valid() && old(history) <= history
      ensures rc == PackCode(old(state), inbuf, incount, datatyp, outsize - position)
      ensures rc != Success ==> state == old(state) && newPosition == position
      ensures rc == Success ==>
                var addresses := Touched(old(state), inbuf, incount, datatyp);
                && newPosition == position + |addresses|
                && state == old(state).(mem := Moved(old(state).mem, addresses, Range(outbuf + position, |addresses|)))
    {
      rc, newPosition := PackCode(state, inbuf, incount, datatyp, outsize - position), position;
      if rc == Success {
        var addresses := Touched(state, inbuf, incount, datatyp);
        var mem := Moved(state.mem, addresses, Range(outbuf + position, |addresses|));
        Step(Write(mem));
        newPosition := position + |addresses|;
      }
    }

    method Unpack(inbuf: int, insize: int, position: int, outbuf: int, outcount: int, datatyp: Handle)
      returns (rc: Code, newPosition: int)
      requires Valid()
      requires PackCode(state, outbuf, outcount, datatyp, insize - position) == Success ==>
                 Readable(state.mem, Range(inbuf + position, |Touched(state, outbuf, outcount, datatyp)|))
      modifies this
      ensures Valid() && old(history) <= history
      ensures rc == PackCode(old(state), outbuf, outcount, datatyp, insize - position)
      ensures rc != Success ==> state == old(state) && newPosition == position
      ensures rc == Success ==>
                var addresses := Touched(old(state), outbuf, outcount, datatyp);
                && newPosition == position + |addresses|
                && state == old(state).(mem := Moved(old(state).mem, Range(inbuf + position, |addresses|), addresses))
    {
      rc, newPosition := PackCode(state, outbuf, outcount, datatyp, insize - position), position;
      if rc == Success {
        var addresses := Touched(state, outbuf, outcount, datatyp);
        var mem := Moved(state.mem, Range(inbuf + position, |addresses|), addresses);
        Step(Write(mem));
        newPosition := position + |addresses|;
      }
    }
  }

  lemma ValidState(lib: Mpi)
    requires lib.Valid()
    ensures MpiState.Valid(lib.state)
  {
    hide MpiState.Valid, Mpi.Traced;
  }
}
