/** Programs that are made of the modelled calls: their executions, what any sequence of calls keeps, and what
    becomes of a receive in the midst of them. */
module Programs {
  import opened Section
  import opened Layout
  import opened Typemaps
  import opened MpiState
  import opened MpiLibrary
  import opened Indexed
  import opened Meaning
  import opened Elements
  import opened Requests
  import Transfers
  import Collectives

  /** A call of one process, with what the network gives it; or something that the program does with the
      library itself, such as making a datatype, or with memory. */
  datatype WrapperCall =
    | Pack(indesc: Descriptor, incount: int, h: Handle, outdesc: Descriptor, outsize: int, position: int)
    | Unpack(indesc: Descriptor, insize: int, position: int, outdesc: Descriptor, outcount: int, h: Handle)
    | Start(receive: bool, desc: Descriptor, count: int, h: Handle, slot: nat)
    | Sendrecv(sdesc: Descriptor, scount: int, sh: Handle, rdesc: Descriptor, rcount: int, rh: Handle,
               incoming: seq<byte>)
    | Bcast(desc: Descriptor, count: int, h: Handle, isRoot: bool, incoming: seq<byte>)
    | Gather(input: Descriptor, scount: int, sh: Handle, output: Descriptor, rcount: int, rh: Handle,
             isRoot: bool, n: nat, contributions: seq<byte>)
    | Completion(kind: Kind, net: Network, lo: nat, number: nat)
    | Own(e: Event)

  /** The bytes that a call sends can be read. */
  predicate Sendable(st: State, desc: Descriptor, count: int, h: Handle)
    requires Transfers.GoodBuffer(st, desc, h)
  {
    Transfers.BufferCode(st, desc, count, h) == Success ==> Readable(st.mem, Transfers.Buffer(st, desc, count, h))
  }

  /** What the call demands of its caller, who has an array of `slots` requests. */
  predicate Callable(st: State, slots: nat, call: WrapperCall) {
    match call
    case Pack(indesc, incount, h, _, _, _) => Transfers.GoodBuffer(st, indesc, h) && Sendable(st, indesc, incount, h)
    case Unpack(indesc, insize, position, outdesc, outcount, h) =>
      && Transfers.GoodBuffer(st, outdesc, h)
      && var bytes := |Transfers.Buffer(st, outdesc, outcount, h)|;
         RoomCode(Transfers.BufferCode(st, outdesc, outcount, h), bytes, insize - position) == Success ==>
           Readable(st.mem, Range(indesc.base + position, bytes))
    case Start(_, desc, _, h, slot) => Transfers.GoodBuffer(st, desc, h) && slot < slots
    case Sendrecv(sdesc, scount, sh, rdesc, _, rh, _) =>
      && Transfers.GoodBuffer(st, sdesc, sh) && Sendable(st, sdesc, scount, sh)
      && (if IsContiguous(sdesc) then IsOpen(st, rh) else Describable(st, rdesc, rh))
    case Bcast(desc, count, h, isRoot, _) =>
      Transfers.GoodBuffer(st, desc, h) && (isRoot ==> Sendable(st, desc, count, h))
    case Gather(input, scount, sh, output, _, rh, _, _, _) =>
      && Transfers.GoodBuffer(st, input, sh) && Sendable(st, input, scount, sh) && Transfers.GoodBuffer(st, output, rh)
    case Completion(_, _, lo, number) => lo + number <= slots
    case Own(e) => Enabled(st, e)
  }

  /** What a call gives back: the fields that its kind does not have are arbitrary. */
  datatype Reply = Reply(rc: Code, position: int, outgoing: seq<byte>, report: Requests.Call)

  /** The error class of the call, or how else it ends. */
  function CallCode(st: State, slots: nat, call: WrapperCall): Code
    requires Callable(st, slots, call)
  {
    match call
    case Pack(indesc, incount, h, outdesc, outsize, position) =>
      if !IsContiguous(outdesc) then ErrArg
      else RoomCode(Transfers.BufferCode(st, indesc, incount, h), |Transfers.Buffer(st, indesc, incount, h)|,
                    outsize - position)
    case Unpack(indesc, insize, position, outdesc, outcount, h) =>
      if !IsContiguous(indesc) then ErrArg
      else RoomCode(Transfers.BufferCode(st, outdesc, outcount, h), |Transfers.Buffer(st, outdesc, outcount, h)|,
                    insize - position)
    case Start(_, desc, count, h, _) => Transfers.BufferCode(st, desc, count, h)
    case Sendrecv(sdesc, scount, sh, rdesc, rcount, rh, incoming) =>
      Transfers.ExchangeCode(Transfers.BufferCode(st, sdesc, scount, sh),
                             Transfers.ReceiveSideCode(st, sdesc, rdesc, rcount, rh),
                             Addresses(Transfers.ReceiveEntries(st, sdesc, rdesc, rcount, rh), rdesc.base), incoming)
    case Bcast(desc, count, h, isRoot, incoming) =>
      Collectives.BcastOutcome(Transfers.BufferCode(st, desc, count, h), Transfers.Buffer(st, desc, count, h),
                               isRoot, incoming)
    case Gather(input, scount, sh, output, rcount, rh, isRoot, n, contributions) =>
      Collectives.GatherOutcome(st, input, scount, sh, output, rcount, rh, isRoot, n, contributions)
    case Completion(_, _, _, _) | Own(_) => Success
  }

  /** What the call has done to the library's state. */
  ghost predicate Effect(before: State, slots: nat, after: State, call: WrapperCall, reply: Reply)
    requires Callable(before, slots, call)
  {
    match call
    case Pack(indesc, incount, h, outdesc, outsize, position) =>
      var from := Transfers.Buffer(before, indesc, incount, h);
      if !IsContiguous(outdesc) then after == before && reply.position == position
      else Transfers.Transferred(before, after, Transfers.BufferCode(before, indesc, incount, h),
                                 from, Range(outdesc.base + position, |from|), outsize - position, position,
                                 reply.rc, reply.position)
    case Unpack(indesc, insize, position, outdesc, outcount, h) =>
      var to := Transfers.Buffer(before, outdesc, outcount, h);
      if !IsContiguous(indesc) then after == before && reply.position == position
      else Transfers.Transferred(before, after, Transfers.BufferCode(before, outdesc, outcount, h),
                                 Range(indesc.base + position, |to|), to, insize - position, position,
                                 reply.rc, reply.position)
    case Start(receive, desc, count, h, _) =>
      Transfers.Started(before, after, receive, Transfers.Buffer(before, desc, count, h), reply.rc, before.nextRequest)
    case Sendrecv(sdesc, scount, sh, rdesc, rcount, rh, incoming) =>
      Transfers.Exchanged(before, after, Transfers.Buffer(before, sdesc, scount, sh),
                          Addresses(Transfers.ReceiveEntries(before, sdesc, rdesc, rcount, rh), rdesc.base),
                          incoming, reply.rc, reply.outgoing)
    case Bcast(desc, count, h, isRoot, incoming) =>
      Collectives.Shared(before, after, Transfers.Buffer(before, desc, count, h), isRoot, incoming,
                         reply.rc, reply.outgoing)
    case Gather(input, scount, sh, output, rcount, rh, isRoot, n, contributions) =>
      Collectives.Gathered(before, after, Transfers.Buffer(before, input, scount, sh), isRoot,
                           Addresses(Collectives.BlocksAsWritten(before, output, rcount, rh, n), output.base),
                           contributions, reply.rc, reply.outgoing)
    case Completion(kind, _, _, _) => reply.report.kind == kind
    case Own(e) => after == Apply(before, e)
  }

  /** The call as a program with Fortran requests sees it, when the library has gone through these events. */
  function CallActions(call: WrapperCall, events: seq<Event>, reply: Reply): seq<Action> {
    match call
    case Start(_, _, _, _, slot) => StartActions(events, slot, reply.rc)
    case Completion(_, net, lo, number) => [Finish(reply.report, net, lo, number)]
    case _ => Others(events)
  }

  /** A start that succeeds keeps the request of what it posts; one that fails and returns leaves the null
      request. */
  function StartActions(events: seq<Event>, slot: nat, rc: Code): seq<Action> {
    if rc == Success then Acted(events, slot)
    else if Returns(rc) then Others(events) + [Begin(Op(false, 0, 0, Null), slot)]
    else Others(events)
  }

  /** The library's state and the program's array of requests. */
  datatype Point = Point(state: State, requestsF: seq<int>)

  /** The call was made between the two points. */
  ghost predicate Made(hm: HandleMap, before: Point, after: Point, events: seq<Event>, call: WrapperCall,
                       reply: Reply)
  {
    && Callable(before.state, |before.requestsF|, call)
    && reply.rc == CallCode(before.state, |before.requestsF|, call)
    && Effect(before.state, |before.requestsF|, after.state, call, reply)
    && IsRun(before.state, events) && Run(before.state, events) == after.state
    && AllFit(CallActions(call, events, reply), |before.requestsF|)
    && FortranRun(hm, before.state, before.requestsF, CallActions(call, events, reply))
    == (after.state, after.requestsF)
  }

  // ---------------------------------------------------------------------------------------------
  // Making one call
  // ---------------------------------------------------------------------------------------------

  lemma StartedRun(hm: HandleMap, st: State, requestsF: seq<int>, events: seq<Event>, slot: nat, rc: Code)
    requires IsRun(st, events) && slot < |requestsF|
    requires rc == Success ==> Run(st, events).nextRequest == st.nextRequest + 1
    ensures AllFit(StartActions(events, slot, rc), |requestsF|)
    ensures FortranRun(hm, st, requestsF, StartActions(events, slot, rc))
         == (Run(st, events),
             if !Returns(rc) then requestsF
             else requestsF[slot := hm.c2f(if rc == Success then Active(st.nextRequest) else NullRequest)])
  {
    hide Run, IsRun;
    if rc == Success {
      ActedRun(hm, st, requestsF, events, slot);
    } else {
      OthersRun(hm, st, requestsF, events);
      if Returns(rc) {
        var failed := [Begin(Op(false, 0, 0, Null), slot)];
        FortranRunConcat(hm, st, requestsF, Others(events), failed);
        assert failed[1..] == [];
      }
    }
  }

  lemma EventsSince(lib: Mpi, before: State, history: seq<Event>) returns (events: seq<Event>)
    requires lib.Valid() && history <= lib.history
    requires IsRun(lib.initial, history) && before == Run(lib.initial, history)
    ensures events == lib.history[|history|..]
    ensures IsRun(before, events) && Run(before, events) == lib.state
  {
    events := lib.history[|history|..];
    assert lib.history == history + events;
    RunSplit(lib.initial, history, events);
  }

  /** CFI_MPI_Isend and CFI_MPI_Irecv with the request that they leave in the program's array: for a program
      with Fortran requests, a run of its actions. */
  method StartInto(lib: Mpi, hm: HandleMap, requestsF: array<int>, receive: bool, desc: Descriptor, count: int,
                   h: Handle, slot: nat) returns (rc: Code)
    requires lib.Valid() && Transfers.GoodBuffer(lib.state, desc, h) && slot < requestsF.Length
    modifies lib, requestsF
    ensures lib.Valid() && old(lib.history) <= lib.history
    ensures rc == Transfers.BufferCode(old(lib.state), desc, count, h)
    ensures Transfers.Started(old(lib.state), lib.state, receive, Transfers.Buffer(old(lib.state), desc, count, h), rc,
                              old(lib.state).nextRequest)
    ensures var events := lib.history[|old(lib.history)|..];
            && IsRun(old(lib.state), events) && Run(old(lib.state), events) == lib.state
            && AllFit(StartActions(events, slot, rc), requestsF.Length)
            && FortranRun(hm, old(lib.state), old(requestsF[..]), StartActions(events, slot, rc))
            == (lib.state, requestsF[..])
  {
    ghost var before, history, kept := lib.state, lib.history, requestsF[..];
    assert IsRun(lib.initial, history) && before == Run(lib.initial, history);
    hide Transfers.GoodBuffer, Transfers.BufferCode, Transfers.Buffer, MpiState.Valid, Mpi.Traced, OpAddresses;
    hide IsRun, Run, StartActions, FortranRun, AllFit;
    var request;
    rc, request := Transfers.Start(lib, receive, desc, count, h);
    if Returns(rc) {
      requestsF[slot] := hm.c2f(if rc == Success then Active(request) else NullRequest);
    }
    ghost var events := EventsSince(lib, before, history);
    StartedRun(hm, before, kept, events, slot, rc);
  }

  lemma FinishRun(hm: HandleMap, st: State, requestsF: seq<int>, action: Action)
    requires action.Fits(|requestsF|)
    ensures AllFit([action], |requestsF|)
    ensures FortranRun(hm, st, requestsF, [action]) == FortranStep(hm, st, requestsF, action)
  {
    hide FortranStep;
    assert [action][1..] == [];
  }

  /** The call itself. */
  method Issue(lib: Mpi, hm: HandleMap, requestsF: array<int>, call: WrapperCall) returns (reply: Reply)
    requires lib.Valid() && Callable(lib.state, requestsF.Length, call)
    modifies lib, requestsF
    ensures lib.Valid() && old(lib.history) <= lib.history
    ensures reply.rc == CallCode(old(lib.state), requestsF.Length, call)
    ensures Effect(old(lib.state), requestsF.Length, lib.state, call, reply)
    ensures call.Start? || call.Completion? || requestsF[..] == old(requestsF[..])
    ensures call.Start? || call.Completion? ==>
              && AllFit(CallActions(call, lib.history[|old(lib.history)|..], reply), requestsF.Length)
              && FortranRun(hm, old(lib.state), old(requestsF[..]),
                            CallActions(call, lib.history[|old(lib.history)|..], reply))
              == (lib.state, requestsF[..])
  {
    hide Transfers.GoodBuffer, Transfers.BufferCode, Transfers.Buffer, Mpi.Traced, Describable, MpiState.Valid;
    hide Transfers.Exchanged, Transfers.Started, Collectives.Shared, Collectives.Gathered, Transfers.Restored, Moved;
    hide Collectives.GatherOutcome, Collectives.BlocksAsWritten, Transfers.ReceiveEntries, Transfers.ReceiveSideCode;
    hide FortranRun, AllFit, StartActions, FortranStep, Addresses;
    reply := Reply(Success, 0, [], Requests.Call(Waitall, false, 0, {}));
    match call {
      case Pack(indesc, incount, h, outdesc, outsize, position) =>
        var rc, at := Transfers.Pack(lib, indesc, incount, h, outdesc, outsize, position);
        reply := reply.(rc := rc, position := at);
      case Unpack(indesc, insize, position, outdesc, outcount, h) =>
        var rc, at := Transfers.Unpack(lib, indesc, insize, position, outdesc, outcount, h);
        reply := reply.(rc := rc, position := at);
      case Start(receive, desc, count, h, slot) =>
        var rc := StartInto(lib, hm, requestsF, receive, desc, count, h, slot);
        reply := reply.(rc := rc);
      case Sendrecv(sdesc, scount, sh, rdesc, rcount, rh, incoming) =>
        var rc, outgoing := Transfers.Sendrecv(lib, sdesc, scount, sh, rdesc, rcount, rh, incoming);
        reply := reply.(rc := rc, outgoing := outgoing);
      case Bcast(desc, count, h, isRoot, incoming) =>
        var rc, outgoing := Collectives.Bcast(lib, desc, count, h, isRoot, incoming);
        reply := reply.(rc := rc, outgoing := outgoing);
      case Gather(input, scount, sh, output, rcount, rh, isRoot, n, contributions) =>
        var rc, outgoing := Collectives.Gather(lib, input, scount, sh, output, rcount, rh, isRoot, n, contributions);
        reply := reply.(rc := rc, outgoing := outgoing);
      case Completion(kind, net, lo, number) =>
        ghost var before, kept := lib.state, requestsF[..];
        var report := CompletionCall(lib, hm, kind, net, requestsF, lo, number);
        reply := reply.(report := report);
        FinishRun(hm, before, kept, Finish(report, net, lo, number));
      case Own(e) =>
        lib.Step(e);
    }
  }

  method Perform(lib: Mpi, hm: HandleMap, requestsF: array<int>, call: WrapperCall)
    returns (reply: Reply, ghost events: seq<Event>)
    requires lib.Valid() && Callable(lib.state, requestsF.Length, call)
    modifies lib, requestsF
    ensures lib.Valid() && old(lib.history) <= lib.history
    ensures Made(hm, Point(old(lib.state), old(requestsF[..])), Point(lib.state, requestsF[..]), events, call, reply)
  {
    ghost var before, history, kept := lib.state, lib.history, requestsF[..];
    assert IsRun(lib.initial, history) && before == Run(lib.initial, history);
    hide Mpi.Traced, MpiState.Valid, Callable, CallCode, Effect, IsRun, Run, FortranRun, AllFit, StartActions;
    reply := Issue(lib, hm, requestsF, call);
    events := EventsSince(lib, before, history);
    if !call.Start? && !call.Completion? { OthersRun(hm, before, kept, events); }
  }

  // ---------------------------------------------------------------------------------------------
  // Any sequence of calls
  // ---------------------------------------------------------------------------------------------

  /** What one call of an execution has done: where it led, through which events, and what it gave back. */
  datatype Done = Done(after: Point, events: seq<Event>, reply: Reply)

  function PointAfter(start: Point, trace: seq<Done>, i: nat): Point
    requires i <= |trace|
  {
    if i == 0 then start else trace[i - 1].after
  }

  ghost predicate MadeAt(hm: HandleMap, start: Point, calls: seq<WrapperCall>, trace: seq<Done>, i: nat)
    requires i < |trace| <= |calls|
  {
    Made(hm, PointAfter(start, trace, i), trace[i].after, trace[i].events, calls[i], trace[i].reply)
  }

  /** One call after the other has been made, and each but perhaps the last has come back. */
  ghost predicate Execution(hm: HandleMap, start: Point, calls: seq<WrapperCall>, trace: seq<Done>) {
    && |trace| <= |calls|
    && (forall i :: 0 <= i < |trace| ==> MadeAt(hm, start, calls, trace, i))
    && (forall i :: 0 <= i < |trace| - 1 ==> Returns(trace[i].reply.rc))
  }

  lemma OneCallMore(hm: HandleMap, start: Point, calls: seq<WrapperCall>, trace: seq<Done>, done: Done)
    requires Execution(hm, start, calls, trace) && |trace| < |calls|
    requires |trace| > 0 ==> Returns(trace[|trace| - 1].reply.rc)
    requires Made(hm, PointAfter(start, trace, |trace|), done.after, done.events, calls[|trace|], done.reply)
    ensures Execution(hm, start, calls, trace + [done])
  {
    hide Made;
    var longer := trace + [done];
    forall i | 0 <= i < |longer| ensures MadeAt(hm, start, calls, longer, i) {
      if i < |trace| { assert MadeAt(hm, start, calls, trace, i); }
    }
  }

  /** Make the calls, up to the first that does not come back or whose demands are not met. */
  method PerformAll(lib: Mpi, hm: HandleMap, requestsF: array<int>, calls: seq<WrapperCall>)
    returns (made: nat, rc: Code, ghost trace: seq<Done>)
    requires lib.Valid()
    modifies lib, requestsF
    ensures lib.Valid() && old(lib.history) <= lib.history
    ensures Execution(hm, Point(old(lib.state), old(requestsF[..])), calls, trace) && made == |trace| <= |calls|
    ensures PointAfter(Point(old(lib.state), old(requestsF[..])), trace, made) == Point(lib.state, requestsF[..])
    ensures rc == if made == 0 then Success else trace[made - 1].reply.rc
    ensures made == |calls| || !Returns(rc) || !Callable(lib.state, requestsF.Length, calls[made])
    ensures Reaches(old(lib.state), lib.state)
    ensures Returns(rc) && (forall i :: 0 <= i < made ==> !ManagesTypes(calls[i])) ==>
              Handles(lib.state) == Handles(old(lib.state))
    ensures lib.state.pending == map[] ==> lib.state.types == Handles(lib.state)
  {
    ValidState(lib);
    hide Mpi.Valid, MpiState.Valid, Callable, Made, Execution, Reaches, Handles, ManagesTypes;
    ghost var start := Point(lib.state, requestsF[..]);
    made, rc, trace := 0, Success, [];
    NothingDone(hm, start, calls);
    while made < |calls| && Returns(rc) && Callable(lib.state, requestsF.Length, calls[made])
      invariant lib.Valid() && old(lib.history) <= lib.history
      invariant made == |trace| <= |calls| && Execution(hm, start, calls, trace)
      invariant PointAfter(start, trace, made) == Point(lib.state, requestsF[..])
      invariant rc == if made == 0 then Success else trace[made - 1].reply.rc
      decreases |calls| - made
    {
      var reply;
      ghost var events;
      reply, events := Perform(lib, hm, requestsF, calls[made]);
      ghost var done := Done(Point(lib.state, requestsF[..]), events, reply);
      OneCallMore(hm, start, calls, trace, done);
      made, rc, trace := made + 1, reply.rc, trace + [done];
    }
    PointsReached(hm, start, calls, trace, 0, made);
    if lib.state.pending == map[] { NothingLeaks(hm, start, calls, trace, made); }
    if Returns(rc) && forall i :: 0 <= i < made ==> !ManagesTypes(calls[i]) {
      AllReturned(hm, start, calls, trace);
      HandlesKept(hm, start, calls, trace, 0, made);
    }
  }

  lemma AllReturned(hm: HandleMap, start: Point, calls: seq<WrapperCall>, trace: seq<Done>)
    requires Execution(hm, start, calls, trace) && (|trace| > 0 ==> Returns(trace[|trace| - 1].reply.rc))
    ensures forall k :: 0 <= k < |trace| ==> Returns(trace[k].reply.rc)
  {
    hide Made;
  }

  lemma NothingDone(hm: HandleMap, start: Point, calls: seq<WrapperCall>)
    ensures Execution(hm, start, calls, [])
  {
  }

  // ---------------------------------------------------------------------------------------------
  // What every execution keeps
  // ---------------------------------------------------------------------------------------------

  /** Every later point is reached from every earlier one, and the library's state is in order at both. */
  lemma {:induction false} PointsReached(hm: HandleMap, start: Point, calls: seq<WrapperCall>, trace: seq<Done>,
                                         i: nat, j: nat)
    requires Execution(hm, start, calls, trace) && MpiState.Valid(start.state) && i <= j <= |trace|
    ensures Reaches(PointAfter(start, trace, i).state, PointAfter(start, trace, j).state)
    ensures MpiState.Valid(PointAfter(start, trace, i).state) && MpiState.Valid(PointAfter(start, trace, j).state)
    decreases j
  {
    hide Made, Reaches, MpiState.Valid, Run, IsRun;
    var here := PointAfter(start, trace, j).state;
    if j == 0 {
      ReachesItself(here);
    } else {
      var before := PointAfter(start, trace, j - 1).state;
      assert MadeAt(hm, start, calls, trace, j - 1);
      MadeIsRun(hm, PointAfter(start, trace, j - 1), trace[j - 1].after, trace[j - 1].events, calls[j - 1],
                trace[j - 1].reply);
      PointsReached(hm, start, calls, trace, if i == j then j - 1 else i, j - 1);
      RunValid(before, trace[j - 1].events);
      if i == j { ReachesItself(here); } else { ReachesBeyond(PointAfter(start, trace, i).state, before, here); }
    }
  }

  lemma MadeIsRun(hm: HandleMap, before: Point, after: Point, events: seq<Event>, call: WrapperCall, reply: Reply)
    requires Made(hm, before, after, events, call, reply)
    ensures IsRun(before.state, events) && Run(before.state, events) == after.state
    ensures Reaches(before.state, after.state)
  {
    hide Callable, CallCode, Effect, FortranRun, AllFit, CallActions;
    RunReaches(before.state, events);
  }

  /** The program itself makes, commits or frees a datatype. */
  predicate ManagesTypes(call: WrapperCall) {
    call.Own? && (call.e.Register? || call.e.Commit? || call.e.Free?)
  }

  lemma StartedKeepsHandles(before: State, after: State, receive: bool, addresses: seq<int>, rc: Code, request: nat)
    requires Transfers.Started(before, after, receive, addresses, rc, request) && Returns(rc)
    ensures Handles(after) == Handles(before)
  {
    hide OpAddresses;
  }

  lemma OwnKeepsHandles(st: State, e: Event)
    requires MpiState.Valid(st) && Enabled(st, e) && !ManagesTypes(Own(e))
    ensures Handles(Apply(st, e)) == Handles(st)
  {
    if e.Complete? { CompletedKeepsHandles(st, e.r, e.data); }
  }

  lemma FinishKeepsHandles(hm: HandleMap, before: Point, after: Point, report: Requests.Call, net: Network,
                           lo: nat, number: nat)
    requires MpiState.Valid(before.state) && lo + number <= |before.requestsF|
    requires FortranRun(hm, before.state, before.requestsF, [Finish(report, net, lo, number)])
          == (after.state, after.requestsF)
    ensures Handles(after.state) == Handles(before.state)
  {
    hide Handles, MpiState.Valid, AfterCall;
    FinishRun(hm, before.state, before.requestsF, Finish(report, net, lo, number));
    CallKeepsHandles(before.state, AllF2C(hm, before.requestsF[lo..lo + number]), report, net, number);
  }

  /** A blocking call that comes back leaves the registry as it was. */
  lemma BlockingKeepsTypes(before: State, slots: nat, after: State, call: WrapperCall, reply: Reply)
    requires Callable(before, slots, call) && Effect(before, slots, after, call, reply)
    requires reply.rc == CallCode(before, slots, call) && Returns(reply.rc)
    requires !call.Start? && !call.Completion? && !call.Own?
    ensures after.types == before.types
  {
    hide Transfers.GoodBuffer, Transfers.BufferCode, Transfers.Buffer, Describable, Moved, Store, Arrived, Addresses;
    hide Collectives.GatherOutcome, Collectives.BlocksAsWritten, Transfers.ReceiveEntries, Transfers.ReceiveSideCode;
    match call
    case Pack(_, _, _, _, _, _) =>
    case Unpack(_, _, _, _, _, _) =>
    case Sendrecv(_, _, _, _, _, _, _) =>
    case Bcast(_, _, _, _, _) =>
    case Gather(_, _, _, _, _, _, _, _, _) =>
  }

  /** No call but the program's own management of datatypes makes, frees or changes a handle. */
  lemma CallKeepsTypes(hm: HandleMap, before: Point, after: Point, events: seq<Event>, call: WrapperCall, reply: Reply)
    requires MpiState.Valid(before.state) && Made(hm, before, after, events, call, reply)
    requires Returns(reply.rc) && !ManagesTypes(call)
    ensures Handles(after.state) == Handles(before.state)
  {
    hide MpiState.Valid, FortranRun, StartActions, Run, IsRun;
    match call
    case Start(receive, desc, count, h, _) =>
      hide Handles, Transfers.GoodBuffer, Transfers.BufferCode, Transfers.Buffer, Transfers.Started;
      StartedKeepsHandles(before.state, after.state, receive, Transfers.Buffer(before.state, desc, count, h), reply.rc,
                          before.state.nextRequest);
    case Completion(kind, net, lo, number) =>
      hide Handles;
      FinishKeepsHandles(hm, before, after, reply.report, net, lo, number);
    case Own(e) =>
      hide Handles;
      OwnKeepsHandles(before.state, e);
    case _ =>
      hide Callable, Effect, CallCode;
      BlockingKeepsTypes(before.state, |before.requestsF|, after.state, call, reply);
  }

  /** Between any two points of any execution the handles of the program and what they describe are the same,
      but for what it makes, commits and frees itself in between. */
  lemma {:induction false} HandlesKept(hm: HandleMap, start: Point, calls: seq<WrapperCall>, trace: seq<Done>,
                                       i: nat, j: nat)
    requires Execution(hm, start, calls, trace) && MpiState.Valid(start.state) && i <= j <= |trace|
    requires forall k :: i <= k < j ==> !ManagesTypes(calls[k]) && Returns(trace[k].reply.rc)
    ensures Handles(PointAfter(start, trace, j).state) == Handles(PointAfter(start, trace, i).state)
    decreases j
  {
    hide Made, Reaches, MpiState.Valid, Handles, ManagesTypes;
    if i < j {
      HandlesKept(hm, start, calls, trace, i, j - 1);
      PointsReached(hm, start, calls, trace, i, j - 1);
      assert MadeAt(hm, start, calls, trace, j - 1);
      CallKeepsTypes(hm, PointAfter(start, trace, j - 1), trace[j - 1].after, trace[j - 1].events, calls[j - 1],
                     trace[j - 1].reply);
    }
  }

  /** Whenever nothing is pending, the only datatypes are those that the program can name. */
  lemma NothingLeaks(hm: HandleMap, start: Point, calls: seq<WrapperCall>, trace: seq<Done>, i: nat)
    requires Execution(hm, start, calls, trace) && MpiState.Valid(start.state) && i <= |trace|
    requires PointAfter(start, trace, i).state.pending == map[]
    ensures PointAfter(start, trace, i).state.types == Handles(PointAfter(start, trace, i).state)
  {
    hide Execution, Reaches;
    PointsReached(hm, start, calls, trace, i, i);
    var st := PointAfter(start, trace, i).state;
    assert forall id :: id in st.types ==> !InUse(st, id);
  }

  // ---------------------------------------------------------------------------------------------
  // The C program behind an execution
  // ---------------------------------------------------------------------------------------------

  /** All that the program has done with its requests, up to point i. */
  function ActionsUpTo(calls: seq<WrapperCall>, trace: seq<Done>, i: nat): seq<Action>
    requires i <= |trace| <= |calls|
  {
    if i == 0 then []
    else ActionsUpTo(calls, trace, i - 1) + CallActions(calls[i - 1], trace[i - 1].events, trace[i - 1].reply)
  }

  lemma {:induction false} ExecutionIsFortranRun(hm: HandleMap, start: Point, calls: seq<WrapperCall>,
                                                 trace: seq<Done>, i: nat)
    requires Execution(hm, start, calls, trace) && i <= |trace|
    ensures AllFit(ActionsUpTo(calls, trace, i), |start.requestsF|)
    ensures FortranRun(hm, start.state, start.requestsF, ActionsUpTo(calls, trace, i))
         == (PointAfter(start, trace, i).state, PointAfter(start, trace, i).requestsF)
    ensures |PointAfter(start, trace, i).requestsF| == |start.requestsF|
  {
    hide Callable, CallCode, Effect, CallActions, IsRun, Run;
    if i > 0 {
      ExecutionIsFortranRun(hm, start, calls, trace, i - 1);
      assert MadeAt(hm, start, calls, trace, i - 1);
      var here := PointAfter(start, trace, i - 1);
      var earlier, last := ActionsUpTo(calls, trace, i - 1), CallActions(calls[i - 1], trace[i - 1].events,
                                                                         trace[i - 1].reply);
      hide FortranRun;
      FortranRunConcat(hm, start.state, start.requestsF, earlier, last);
      FortranRunConcat(hm, here.state, here.requestsF, last, []);
    }
  }

  /** At every point of every execution the Fortran requests stand for those of the C program that does the
      same, and the library cannot tell the two apart. */
  lemma ExecutionSimulatesC(hm: HandleMap, start: Point, calls: seq<WrapperCall>, trace: seq<Done>, i: nat)
    requires Lawful(hm) && Execution(hm, start, calls, trace) && i <= |trace|
    ensures AllFit(ActionsUpTo(calls, trace, i), |start.requestsF|)
    ensures var here := PointAfter(start, trace, i);
            (here.state, AllF2C(hm, here.requestsF))
            == CRun(start.state, AllF2C(hm, start.requestsF), ActionsUpTo(calls, trace, i))
  {
    assert |trace| <= |calls|;
    hide Execution, FortranRun, CRun;
    ExecutionIsFortranRun(hm, start, calls, trace, i);
    FortranSimulatesC(hm, start.state, start.requestsF, ActionsUpTo(calls, trace, i));
  }

  // ---------------------------------------------------------------------------------------------
  // A receive in the midst of other calls
  // ---------------------------------------------------------------------------------------------

  /** The message arrives: it fills the section as far as it goes, and nothing else changes. */
  ghost predicate Arrives(before: State, after: State, r: nat, desc: Descriptor, count: nat, data: seq<byte>) {
    && r in before.pending && Exists(before, before.pending[r].datatyp) && after == Completed(before, r, data)
    && DataArrived(after.mem, desc, count, data)
    && OthersKept(before.mem, after.mem, ReachedBytes(desc, count, |data|))
  }

  /** No other pending receive writes to these bytes. */
  ghost predicate OnlyWriter(st: State, r: nat, bytes: seq<int>) {
    forall q :: q in st.pending && q != r && st.pending[q].receive && Exists(st, st.pending[q].datatyp) ==>
      Apart(OpAddresses(st, q), bytes)
  }

  /** The call ends the receive at request m of those that it was given, with the message that the network has
      for it; the message is still there when the call returns, if no other receive writes to the section. */
  ghost predicate FinishedAt(hm: HandleMap, before: Point, after: Point, report: Requests.Call, net: Network,
                             lo: nat, number: nat, m: nat, r: nat, desc: Descriptor, count: nat)
    requires lo + number <= |before.requestsF| && m < number
  {
    var requests, data := AllF2C(hm, before.requestsF[lo..lo + number]), if r in net then net[r] else [];
    && report.Completes(m) && requests[m] == Active(r)
    && Arrives(AfterCall(before.state, requests, report, net, m).0,
               AfterCall(before.state, requests, report, net, m + 1).0, r, desc, count, data)
    && after.state == AfterCall(before.state, requests, report, net, number).0
    && (OnlyWriter(before.state, r, SectionBytes(desc, count)) ==> DataArrived(after.state.mem, desc, count, data))
  }

  /** The call ends the receive: a completion call that was given its request, or the program's own use of the
      library, and nothing else. */
  ghost predicate FinishedBy(hm: HandleMap, before: Point, after: Point, call: WrapperCall, reply: Reply,
                             r: nat, desc: Descriptor, count: nat)
  {
    match call
    case Own(e) => e.Complete? && e.r == r && Arrives(before.state, after.state, r, desc, count, e.data)
    case Completion(_, net, lo, number) =>
      && lo + number <= |before.requestsF|
      && exists m: nat :: m < number && FinishedAt(hm, before, after, reply.report, net, lo, number, m, r, desc, count)
    case _ => false
  }

  /** The receive is pending for exactly the section's bytes. */
  ghost predicate ReceivePending(st: State, r: nat, desc: Descriptor, count: nat) {
    && r in st.pending && Exists(st, st.pending[r].datatyp) && st.pending[r].receive
    && OpAddresses(st, r) == SectionBytes(desc, count)
  }

  lemma StillPending(posted: State, now: State, r: nat, desc: Descriptor, count: nat)
    requires MpiState.Valid(posted) && Reaches(posted, now) && ReceivePending(posted, r, desc, count)
    requires r in now.pending
    ensures ReceivePending(now, r, desc, count)
  {
    hide SectionBytes, OpAddresses, MpiState.Valid, Reaches;
    PendingKeepsMeaning(posted, now, r);
  }

  lemma ArrivesNow(now: State, r: nat, desc: Descriptor, count: nat, data: seq<byte>)
    requires MpiState.Valid(now) && ReceivePending(now, r, desc, count) && Distinct(SectionBytes(desc, count))
    ensures Exists(now, now.pending[r].datatyp) && Arrives(now, Completed(now, r, data), r, desc, count, data)
  {
    hide Completed, OpAddresses, SectionBytes, MpiState.Valid, DataArrived, OthersKept, ReachedBytes, Distinct, Reaches;
    ReachesItself(now);
    PendingReceiveFillsSection(now, now, r, desc, count, data);
  }

  /** The rest of the call writes only where other receives do. */
  lemma {:induction false} RestOfCall(st: State, requests: seq<Request>, call: Requests.Call, net: Network,
                                      m: nat, n: nat, r: nat, bytes: seq<int>)
    requires MpiState.Valid(st) && m <= n <= |requests| && OnlyWriter(st, r, bytes)
    requires r !in AfterCall(st, requests, call, net, m).0.pending
    ensures r !in AfterCall(st, requests, call, net, n).0.pending
    ensures forall a :: a in bytes && a in AfterCall(st, requests, call, net, m).0.mem ==>
              && a in AfterCall(st, requests, call, net, n).0.mem
              && AfterCall(st, requests, call, net, n).0.mem[a] == AfterCall(st, requests, call, net, m).0.mem[a]
    decreases n
  {
    hide MpiState.Valid, Completed, Reaches, OpAddresses, OnlyWriter, Apart;
    if n > m {
      RestOfCall(st, requests, call, net, m, n - 1, r, bytes);
      CallReaches(st, requests, call, net, n - 1);
      var (s, q) := AfterCall(st, requests, call, net, n - 1);
      if call.Completes(n - 1) && IsPending(s, q[n - 1]) {
        CompletedElsewhere(st, s, r, q[n - 1].id, ArrivalOf(net, q[n - 1].id), bytes);
      }
    }
  }

  lemma CompletedElsewhere(st: State, s: State, r: nat, q: nat, data: seq<byte>, bytes: seq<int>)
    requires MpiState.Valid(st) && MpiState.Valid(s) && Reaches(st, s) && OnlyWriter(st, r, bytes)
    requires q in st.pending && q in s.pending && Exists(s, s.pending[q].datatyp) && r !in s.pending
    ensures r !in Completed(s, q, data).pending
    ensures forall a :: a in bytes && a in s.mem ==>
              a in Completed(s, q, data).mem && Completed(s, q, data).mem[a] == s.mem[a]
  {
    hide Reaches, OpAddresses, Arrived, Apart;
    assert Exists(st, st.pending[q].datatyp);
    hide MpiState.Valid;
    PendingKeepsMeaning(st, s, q);
    CompletedTypes(s, q, data);
    if st.pending[q].receive {
      CompletedMemory(s, q, data);
      ArrivedElsewhere(s.mem, OpAddresses(s, q), data, bytes);
    }
  }

  /** A completion call that ends the receive. */
  lemma CompletionFinishes(hm: HandleMap, before: Point, after: Point, report: Requests.Call, net: Network,
                           lo: nat, number: nat, r: nat, desc: Descriptor, count: nat) returns (m: nat)
    requires MpiState.Valid(before.state) && ReceivePending(before.state, r, desc, count)
    requires Distinct(SectionBytes(desc, count)) && lo + number <= |before.requestsF|
    requires r !in after.state.pending
    requires var requests := AllF2C(hm, before.requestsF[lo..lo + number]);
             after.state == AfterCall(before.state, requests, report, net, number).0
    ensures m < number && FinishedAt(hm, before, after, report, net, lo, number, m, r, desc, count)
  {
    hide MpiState.Valid, Reaches, OnlyWriter, Arrives, ReceivePending, DataArrived, SectionBytes, Distinct, Completed;
    var st, requests, data := before.state, AllF2C(hm, before.requestsF[lo..lo + number]), ArrivalOf(net, r);
    IsInPending(st, r, desc, count);
    m := CompletedInCall(st, requests, report, net, number, r);
    var s, t := AfterCall(st, requests, report, net, m).0, AfterCall(st, requests, report, net, m + 1).0;
    CallReaches(st, requests, report, net, m);
    StillPending(st, s, r, desc, count);
    ArrivesNow(s, r, desc, count, data);
    if OnlyWriter(st, r, SectionBytes(desc, count)) {
      CompletedTypes(s, r, data);
      RestOfCall(st, requests, report, net, m + 1, number, r, SectionBytes(desc, count));
      ItArrived(s, t, r, desc, count, data);
      DataStays(t.mem, after.state.mem, desc, count, data);
    }
  }

  lemma IsInPending(st: State, r: nat, desc: Descriptor, count: nat)
    requires ReceivePending(st, r, desc, count)
    ensures r in st.pending
  {
  }

  lemma ItArrived(before: State, after: State, r: nat, desc: Descriptor, count: nat, data: seq<byte>)
    requires Arrives(before, after, r, desc, count, data)
    ensures DataArrived(after.mem, desc, count, data)
  {
  }

  /** A blocking call ends no operation, whether it comes back or not. */
  lemma BlockingKeepsOperations(before: State, slots: nat, after: State, call: WrapperCall, reply: Reply)
    requires Callable(before, slots, call) && Effect(before, slots, after, call, reply)
    requires !call.Completion? && !call.Own?
    ensures forall r :: r in before.pending ==> r in after.pending
  {
    hide Transfers.GoodBuffer, Transfers.BufferCode, Transfers.Buffer, Describable, Moved, Store, Arrived, Addresses;
    hide Collectives.GatherOutcome, Collectives.BlocksAsWritten, Transfers.ReceiveEntries, Transfers.ReceiveSideCode;
    hide OpAddresses;
    match call
    case Pack(_, _, _, _, _, _) =>
    case Unpack(_, _, _, _, _, _) =>
    case Start(_, _, _, _, _) =>
    case Sendrecv(_, _, _, _, _, _, _) =>
    case Bcast(_, _, _, _, _) =>
    case Gather(_, _, _, _, _, _, _, _, _) =>
  }

  /** The call between whose two points a receive ends is one that finishes it. */
  lemma EndedByCall(hm: HandleMap, before: Point, after: Point, events: seq<Event>, call: WrapperCall, reply: Reply,
                    r: nat, desc: Descriptor, count: nat)
    requires MpiState.Valid(before.state) && Made(hm, before, after, events, call, reply)
    requires ReceivePending(before.state, r, desc, count) && Distinct(SectionBytes(desc, count))
    requires r !in after.state.pending
    ensures FinishedBy(hm, before, after, call, reply, r, desc, count)
  {
    hide MpiState.Valid, FortranRun, StartActions, Run, IsRun, ReceivePending, Arrives, FinishedAt, Distinct;
    IsInPending(before.state, r, desc, count);
    match call
    case Completion(kind, net, lo, number) =>
      FinishRun(hm, before.state, before.requestsF, Finish(reply.report, net, lo, number));
      var m := CompletionFinishes(hm, before, after, reply.report, net, lo, number, r, desc, count);
    case Own(e) =>
      OwnEnds(before.state, e, r);
      ArrivesNow(before.state, r, desc, count, e.data);
    case _ =>
      BlockingKeepsOperations(before.state, |before.requestsF|, after.state, call, reply);
  }

  lemma OwnEnds(st: State, e: Event, r: nat)
    requires MpiState.Valid(st) && Enabled(st, e) && r in st.pending && r !in Apply(st, e).pending
    ensures e.Complete? && e.r == r
  {
    if e.Complete? { CompletedTypes(st, e.r, e.data); }
  }

  /** Which call ended the receive. */
  lemma {:induction false} WhichCall(hm: HandleMap, start: Point, calls: seq<WrapperCall>, trace: seq<Done>,
                                     i: nat, j: nat, r: nat) returns (k: nat)
    requires i <= j <= |trace| && r in PointAfter(start, trace, i).state.pending
    requires r !in PointAfter(start, trace, j).state.pending
    ensures i <= k < j && r in PointAfter(start, trace, k).state.pending && r !in trace[k].after.state.pending
    decreases j
  {
    if r in PointAfter(start, trace, j - 1).state.pending {
      k := j - 1;
    } else {
      k := WhichCall(hm, start, calls, trace, i, j - 1, r);
    }
  }

  /** The receive that call i starts is pending for exactly its section at point j, or one of the calls in
      between has finished it. */
  ghost predicate PendingOrFinished(hm: HandleMap, start: Point, calls: seq<WrapperCall>, trace: seq<Done>,
                                    i: nat, j: nat, desc: Descriptor, count: nat)
    requires i < j <= |trace| <= |calls|
  {
    var r, now := PointAfter(start, trace, i).state.nextRequest, PointAfter(start, trace, j).state;
    if r in now.pending then ReceivePending(now, r, desc, count)
    else exists k: nat :: i < k < j && FinishedBy(hm, PointAfter(start, trace, k), trace[k].after, calls[k],
                                                  trace[k].reply, r, desc, count)
  }

  /** Every receive of elements that a program starts: at every later point it is pending for exactly its
      section, or one of the program's calls has finished it with the message that this call was given. */
  lemma ReceiveInExecution(hm: HandleMap, start: Point, calls: seq<WrapperCall>, trace: seq<Done>, i: nat, j: nat,
                           desc: Descriptor, count: nat, h: Handle, slot: nat)
    requires Execution(hm, start, calls, trace) && MpiState.Valid(start.state) && i < j <= |trace|
    requires calls[i] == Start(true, desc, count, h, slot) && trace[i].reply.rc == Success
    requires GoodElements(desc, count, h) && Distinct(SectionBytes(desc, count))
    ensures PendingOrFinished(hm, start, calls, trace, i, j, desc, count)
  {
    hide Made, Reaches, MpiState.Valid, GoodElements, Distinct, ReceivePending, FinishedBy;
    var before, posted, now := PointAfter(start, trace, i), trace[i].after, PointAfter(start, trace, j);
    var r := before.state.nextRequest;
    assert MadeAt(hm, start, calls, trace, i);
    PointsReached(hm, start, calls, trace, i + 1, j);
    StartedElements(hm, before, posted, trace[i].events, desc, count, h, slot, trace[i].reply);
    if r in now.state.pending {
      StillPending(posted.state, now.state, r, desc, count);
    } else {
      IsInPending(posted.state, r, desc, count);
      var k := WhichCall(hm, start, calls, trace, i + 1, j, r);
      PointsReached(hm, start, calls, trace, i + 1, k);
      StillPending(posted.state, PointAfter(start, trace, k).state, r, desc, count);
      assert MadeAt(hm, start, calls, trace, k);
      EndedByCall(hm, PointAfter(start, trace, k), trace[k].after, trace[k].events, calls[k], trace[k].reply,
                  r, desc, count);
    }
  }

  lemma StartedElements(hm: HandleMap, before: Point, posted: Point, events: seq<Event>,
                        desc: Descriptor, count: nat, h: Handle, slot: nat, reply: Reply)
    requires Made(hm, before, posted, events, Start(true, desc, count, h, slot), reply) && reply.rc == Success
    requires GoodElements(desc, count, h)
    ensures ElementsCode(desc, count) == Success
    ensures ReceivePending(posted.state, before.state.nextRequest, desc, count)
  {
    hide OpAddresses, SectionBytes, FortranRun, AllFit, StartActions, IsRun, Run, ElementsCode;
    hide Transfers.GoodBuffer, Transfers.BufferCode, Transfers.Buffer, GoodElements;
    ElementsBuffer(before.state, desc, count, h);
  }

  lemma CallableStart(st: State, slots: nat, desc: Descriptor, count: nat, h: Handle, slot: nat)
    requires GoodElements(desc, count, h) && slot < slots
    ensures Callable(st, slots, Start(true, desc, count, h, slot))
  {
    ElementsBuffer(st, desc, count, h);
  }

  lemma StartCode(hm: HandleMap, start: Point, calls: seq<WrapperCall>, trace: seq<Done>,
                  desc: Descriptor, count: nat, h: Handle, slot: nat)
    requires Execution(hm, start, calls, trace) && |trace| > 0 && calls[0] == Start(true, desc, count, h, slot)
    requires GoodElements(desc, count, h)
    ensures trace[0].reply.rc == ElementsCode(desc, count)
  {
    assert MadeAt(hm, start, calls, trace, 0);
    hide GoodElements, ElementsCode, Effect, FortranRun, IsRun, Run, AllFit, CallActions;
    ElementsBuffer(start.state, desc, count, h);
  }

  /** What the calls after the start have done to the receive. */
  lemma AcrossCalls(hm: HandleMap, start: Point, calls: seq<WrapperCall>, trace: seq<Done>,
                    desc: Descriptor, count: nat, h: Handle, slot: nat)
    requires Execution(hm, start, calls, trace) && MpiState.Valid(start.state) && |trace| > 0
    requires calls[0] == Start(true, desc, count, h, slot)
    requires GoodElements(desc, count, h) && Distinct(SectionBytes(desc, count))
    ensures trace[0].reply.rc == ElementsCode(desc, count)
    ensures ElementsCode(desc, count) == Success ==>
              && PendingOrFinished(hm, start, calls, trace, 0, |trace|, desc, count)
              && (start.state.nextRequest in trace[|trace| - 1].after.state.pending ==>
                    ReceivePending(trace[|trace| - 1].after.state, start.state.nextRequest, desc, count))
  {
    hide Execution, GoodElements, ElementsCode, Distinct, SectionBytes, FinishedBy, ReceivePending, MpiState.Valid;
    StartCode(hm, start, calls, trace, desc, count, h, slot);
    if ElementsCode(desc, count) == Success {
      ReceiveInExecution(hm, start, calls, trace, 0, |trace|, desc, count, h, slot);
    }
  }

  /** The message of a pending receive arrives. */
  method Arrival(lib: Mpi, r: nat, desc: Descriptor, count: nat, data: seq<byte>)
    requires lib.Valid() && ReceivePending(lib.state, r, desc, count) && Distinct(SectionBytes(desc, count))
    modifies lib
    ensures lib.Valid() && old(lib.history) <= lib.history
    ensures Arrives(old(lib.state), lib.state, r, desc, count, data)
  {
    ValidState(lib);
    hide Mpi.Valid, MpiState.Valid, Completed, SectionBytes, Distinct, Arrives, OpAddresses;
    ArrivesNow(lib.state, r, desc, count, data);
    lib.Step(Event.Complete(r, data));
  }

  /** A receive is started, any calls follow, and then, unless one of the calls has finished the receive, its
      message arrives. */
  method ReceiveAcross(lib: Mpi, hm: HandleMap, requestsF: array<int>, desc: Descriptor, count: nat, h: Handle,
                       slot: nat, calls: seq<WrapperCall>, data: seq<byte>)
    returns (rc: Code, finished: bool, ghost trace: seq<Done>, ghost now: State)
    requires lib.Valid() && GoodElements(desc, count, h) && Distinct(SectionBytes(desc, count))
    requires slot < requestsF.Length
    modifies lib, requestsF
    ensures lib.Valid() && old(lib.history) <= lib.history
    ensures rc == ElementsCode(desc, count)
    ensures Execution(hm, Point(old(lib.state), old(requestsF[..])), [Start(true, desc, count, h, slot)] + calls, trace)
            && |trace| > 0 && trace[0].reply.rc == rc && now == trace[|trace| - 1].after.state
    ensures |trace| == |calls| + 1 || !Returns(trace[|trace| - 1].reply.rc)
            || !Callable(now, requestsF.Length, calls[|trace| - 1])
    ensures rc == Success ==>
              var r := old(lib.state).nextRequest;
              && (finished <==> r !in now.pending)
              && (finished ==>
                    && lib.state == now
                    && PendingOrFinished(hm, Point(old(lib.state), old(requestsF[..])),
                                         [Start(true, desc, count, h, slot)] + calls, trace, 0, |trace|, desc, count))
              && (!finished ==> Arrives(now, lib.state, r, desc, count, data))
  {
    ghost var start := Point(lib.state, requestsF[..]);
    var all := [Start(true, desc, count, h, slot)] + calls;
    var r := lib.state.nextRequest;
    ValidState(lib);
    CallableStart(lib.state, requestsF.Length, desc, count, h, slot);
    hide Mpi.Valid, Callable, GoodElements, ElementsCode, Distinct, ReceivePending, Arrives, MpiState.Valid, Reaches;
    hide PendingOrFinished, Execution, Handles, ManagesTypes, SectionBytes;
    var made, last;
    made, last, trace := PerformAll(lib, hm, requestsF, all);
    rc, now, finished := ElementsCode(desc, count), lib.state, r !in lib.state.pending;
    AcrossCalls(hm, start, all, trace, desc, count, h, slot);
    if rc == Success && !finished { Arrival(lib, r, desc, count, data); }
  }
}
