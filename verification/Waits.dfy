/** Requests in the midst of other calls: what is in the program's array at every point, whose operations a
    completion call ends, and that a receive has its message when a wait for it comes back. */
module Waits {
  import opened Section
  import opened Typemaps
  import opened MpiState
  import opened MpiLibrary
  import opened Meaning
  import opened Elements
  import opened Requests
  import opened RequestArrays
  import opened Programs
  import Transfers

  // ---------------------------------------------------------------------------------------------
  // What the array holds
  // ---------------------------------------------------------------------------------------------

  lemma EntriesInExecution(hm: HandleMap, start: Point, calls: seq<WrapperCall>, trace: seq<Done>, i: nat)
    requires Execution(hm, start, calls, trace) && i <= |trace| && AllEntries(hm, start.requestsF)
    ensures AllEntries(hm, PointAfter(start, trace, i).requestsF)
  {
    assert |trace| <= |calls|;
    hide Execution, FortranRun, AllEntries;
    ExecutionIsFortranRun(hm, start, calls, trace, i);
    RunKeepsEntries(hm, start.state, start.requestsF, ActionsUpTo(calls, trace, i));
  }

  lemma CallMade(hm: HandleMap, start: Point, calls: seq<WrapperCall>, trace: seq<Done>, i: nat)
    requires Execution(hm, start, calls, trace) && i < |trace|
    ensures |trace| <= |calls|
    ensures Made(hm, PointAfter(start, trace, i), PointAfter(start, trace, i + 1), trace[i].events, calls[i],
                 trace[i].reply)
  {
    hide Made;
    assert MadeAt(hm, start, calls, trace, i);
  }

  lemma CompletionMade(hm: HandleMap, before: Point, after: Point, events: seq<Event>, call: WrapperCall, reply: Reply)
    requires Made(hm, before, after, events, call, reply) && call.Completion?
    ensures call.lo + call.number <= |before.requestsF|
    ensures FortranStep(hm, before.state, before.requestsF, Finish(reply.report, call.net, call.lo, call.number))
         == (after.state, after.requestsF)
    ensures reply.report.kind == call.kind
  {
    hide FortranRun, Run, IsRun, FortranStep;
    FinishRun(hm, before.state, before.requestsF, Finish(reply.report, call.net, call.lo, call.number));
  }

  /** In every execution a completion call ends only operations whose requests the program passed to it. */
  lemma EndsOwnInExecution(hm: HandleMap, start: Point, calls: seq<WrapperCall>, trace: seq<Done>, i: nat, r: nat)
    returns (m: nat)
    requires Lawful(hm) && Execution(hm, start, calls, trace) && MpiState.Valid(start.state) && i < |trace|
    requires AllEntries(hm, start.requestsF) && calls[i].Completion?
    requires r in PointAfter(start, trace, i).state.pending && r !in PointAfter(start, trace, i + 1).state.pending
    ensures m < calls[i].number && calls[i].lo + m < |PointAfter(start, trace, i).requestsF|
    ensures EntryOf(hm, PointAfter(start, trace, i).requestsF[calls[i].lo + m], r)
  {
    var here := PointAfter(start, trace, i);
    hide *;
    CallMade(hm, start, calls, trace, i);
    EntriesInExecution(hm, start, calls, trace, i);
    PointsReached(hm, start, calls, trace, i, i);
    m := EndsOwnInCall(hm, here, PointAfter(start, trace, i + 1), trace[i].events, calls[i], trace[i].reply, r);
  }

  lemma EndsOwnInCall(hm: HandleMap, before: Point, after: Point, events: seq<Event>, call: WrapperCall, reply: Reply,
                      r: nat) returns (m: nat)
    requires Lawful(hm) && MpiState.Valid(before.state) && AllEntries(hm, before.requestsF)
    requires Made(hm, before, after, events, call, reply) && call.Completion?
    requires r in before.state.pending && r !in after.state.pending
    ensures m < call.number && call.lo + m < |before.requestsF| && EntryOf(hm, before.requestsF[call.lo + m], r)
  {
    hide *;
    CompletionMade(hm, before, after, events, call, reply);
    PartOfEntries(hm, before.requestsF, call.lo, call.number);
    m := EndsOwnRequests(hm, before.state, before.requestsF, reply.report, call.net, call.lo, call.number, r);
  }

  // ---------------------------------------------------------------------------------------------
  // The request of a start stays until the program uses it
  // ---------------------------------------------------------------------------------------------

  /** A start that succeeds leaves its request in its slot, one that fails and returns a null request, and one that
      does not return nothing. */
  lemma StartKeepsRequest(hm: HandleMap, before: Point, after: Point, events: seq<Event>, receive: bool,
                          desc: Descriptor, count: int, h: Handle, slot: nat, reply: Reply)
    requires Made(hm, before, after, events, Start(receive, desc, count, h, slot), reply)
    ensures slot < |before.requestsF|
    ensures after.requestsF ==
            if !Returns(reply.rc) then before.requestsF
            else before.requestsF[slot := hm.c2f(if reply.rc == Success then Active(before.state.nextRequest)
                                                 else NullRequest)]
  {
    hide Transfers.GoodBuffer, Transfers.BufferCode, Transfers.Buffer, OpAddresses, FortranRun, StartActions;
    hide Run, IsRun;
    StartedRun(hm, before.state, before.requestsF, events, slot, reply.rc);
  }

  /** The call does not touch the slot. */
  predicate LeavesSlot(call: WrapperCall, slot: nat) {
    match call
    case Start(_, _, _, _, at) => at != slot
    case Completion(_, _, lo, number) => !(lo <= slot < lo + number)
    case _ => true
  }

  lemma SlotKept(hm: HandleMap, before: Point, after: Point, events: seq<Event>, call: WrapperCall, reply: Reply,
                 slot: nat)
    requires Made(hm, before, after, events, call, reply) && LeavesSlot(call, slot) && slot < |before.requestsF|
    ensures |after.requestsF| == |before.requestsF| && after.requestsF[slot] == before.requestsF[slot]
  {
    hide Effect, CallCode, FortranRun, StartActions, Run, IsRun;
    hide Transfers.GoodBuffer, Transfers.BufferCode, Transfers.Buffer;
    match call
    case Start(receive, desc, count, h, at) =>
      StartKeepsRequest(hm, before, after, events, receive, desc, count, h, at, reply);
    case Completion(kind, net, lo, number) =>
      CompletionMade(hm, before, after, events, call, reply);
      hide AfterCall;
    case _ =>
      OthersRun(hm, before.state, before.requestsF, events);
  }

  lemma ArrayLength(hm: HandleMap, start: Point, calls: seq<WrapperCall>, trace: seq<Done>, i: nat)
    requires Execution(hm, start, calls, trace) && i <= |trace|
    ensures |PointAfter(start, trace, i).requestsF| == |start.requestsF|
  {
    assert |trace| <= |calls|;
    hide *;
    ExecutionIsFortranRun(hm, start, calls, trace, i);
  }

  /** The calls from i on and before j leave the slot alone. */
  predicate LeftAlone(calls: seq<WrapperCall>, i: nat, j: nat, slot: nat) {
    j <= |calls| && forall k :: i <= k < j ==> LeavesSlot(calls[k], slot)
  }

  lemma LeftAloneBefore(calls: seq<WrapperCall>, i: nat, j: nat, slot: nat)
    requires LeftAlone(calls, i, j, slot) && i < j
    ensures LeftAlone(calls, i, j - 1, slot) && LeavesSlot(calls[j - 1], slot)
  {
    hide LeavesSlot;
  }

  /** So the request is there until a call that uses the slot. */
  lemma {:induction false} SlotKeptInExecution(hm: HandleMap, start: Point, calls: seq<WrapperCall>, trace: seq<Done>,
                                               i: nat, j: nat, slot: nat)
    requires Execution(hm, start, calls, trace) && i <= j <= |trace|
    requires LeftAlone(calls, i, j, slot) && slot < |start.requestsF|
    ensures |PointAfter(start, trace, i).requestsF| == |PointAfter(start, trace, j).requestsF| == |start.requestsF|
    ensures PointAfter(start, trace, j).requestsF[slot] == PointAfter(start, trace, i).requestsF[slot]
    decreases j
  {
    hide *;
    ArrayLength(hm, start, calls, trace, i);
    if i < j {
      LeftAloneBefore(calls, i, j, slot);
      SlotKeptInExecution(hm, start, calls, trace, i, j - 1, slot);
      CallMade(hm, start, calls, trace, j - 1);
      SlotKept(hm, PointAfter(start, trace, j - 1), PointAfter(start, trace, j), trace[j - 1].events, calls[j - 1],
               trace[j - 1].reply, slot);
    }
  }

  lemma WaitEnds(hm: HandleMap, before: Point, after: Point, events: seq<Event>, call: WrapperCall, reply: Reply,
                 slot: nat, r: nat)
    requires Lawful(hm) && MpiState.Valid(before.state) && Made(hm, before, after, events, call, reply)
    requires call.Completion? && call.kind == Waitall && call.lo <= slot < call.lo + call.number
    requires slot < |before.requestsF| && EntryOf(hm, before.requestsF[slot], r)
    ensures r !in after.state.pending
  {
    hide *;
    CompletionMade(hm, before, after, events, call, reply);
    WaitEndsEntry(hm, before.state, before.requestsF, reply.report, call.net, call.lo, call.number, slot, r);
  }

  lemma SlotFilled(hm: HandleMap, before: Point, after: Point, events: seq<Event>, call: WrapperCall, reply: Reply)
    requires Made(hm, before, after, events, call, reply) && call.Start? && reply.rc == Success
    ensures call.slot < |before.requestsF| == |after.requestsF|
    ensures EntryOf(hm, after.requestsF[call.slot], before.state.nextRequest)
  {
    hide Made;
    StartKeepsRequest(hm, before, after, events, call.receive, call.desc, call.count, call.h, call.slot, reply);
  }

  /** The request of a call that starts an operation is in its slot, until a call that uses the slot. */
  lemma SlotHolds(hm: HandleMap, start: Point, calls: seq<WrapperCall>, trace: seq<Done>, i: nat, j: nat, slot: nat)
    requires Execution(hm, start, calls, trace) && i < j <= |trace| <= |calls|
    requires calls[i].Start? && calls[i].slot == slot && trace[i].reply.rc == Success
    requires LeftAlone(calls, i + 1, j, slot)
    ensures slot < |PointAfter(start, trace, j).requestsF|
    ensures EntryOf(hm, PointAfter(start, trace, j).requestsF[slot], PointAfter(start, trace, i).state.nextRequest)
  {
    hide *;
    CallMade(hm, start, calls, trace, i);
    SlotFilled(hm, PointAfter(start, trace, i), PointAfter(start, trace, i + 1), trace[i].events, calls[i],
               trace[i].reply);
    ArrayLength(hm, start, calls, trace, i);
    SlotKeptInExecution(hm, start, calls, trace, i + 1, j, slot);
  }

  /** The call is a wait for all of some requests, that of the slot among them. */
  predicate WaitsFor(call: WrapperCall, slot: nat) {
    call.Completion? && call.kind == Waitall && call.lo <= slot < call.lo + call.number
  }

  /** The operation that a call starts is over when a wait for it comes back. */
  lemma GoneAfterWait(hm: HandleMap, start: Point, calls: seq<WrapperCall>, trace: seq<Done>, i: nat, j: nat, slot: nat)
    requires Lawful(hm) && Execution(hm, start, calls, trace) && MpiState.Valid(start.state)
    requires i < j < |trace| <= |calls| && LeftAlone(calls, i + 1, j, slot) && WaitsFor(calls[j], slot)
    requires calls[i].Start? && calls[i].slot == slot && trace[i].reply.rc == Success
    ensures PointAfter(start, trace, i).state.nextRequest !in PointAfter(start, trace, j + 1).state.pending
  {
    assert WaitsFor(calls[j], slot) ==>
           calls[j].Completion? && calls[j].kind == Waitall && calls[j].lo <= slot < calls[j].lo + calls[j].number;
    hide *;
    SlotHolds(hm, start, calls, trace, i, j, slot);
    CallMade(hm, start, calls, trace, j);
    PointsReached(hm, start, calls, trace, j, j);
    WaitEnds(hm, PointAfter(start, trace, j), PointAfter(start, trace, j + 1), trace[j].events, calls[j],
             trace[j].reply, slot, PointAfter(start, trace, i).state.nextRequest);
  }

  /** The receive that call i started has been finished by a later call, up to call j. */
  ghost predicate FinishedUpTo(hm: HandleMap, start: Point, calls: seq<WrapperCall>, trace: seq<Done>, i: nat, j: nat,
                               desc: Descriptor, count: nat)
    requires i < j < |trace| <= |calls|
  {
    exists k: nat :: i < k <= j && FinishedBy(hm, PointAfter(start, trace, k), trace[k].after, calls[k], trace[k].reply,
                                              PointAfter(start, trace, i).state.nextRequest, desc, count)
  }

  lemma FinishedIfGone(hm: HandleMap, start: Point, calls: seq<WrapperCall>, trace: seq<Done>, i: nat, j: nat,
                       desc: Descriptor, count: nat)
    requires i < j < |trace| <= |calls| && PendingOrFinished(hm, start, calls, trace, i, j + 1, desc, count)
    requires PointAfter(start, trace, i).state.nextRequest !in PointAfter(start, trace, j + 1).state.pending
    ensures FinishedUpTo(hm, start, calls, trace, i, j, desc, count)
  {
    hide FinishedBy, ReceivePending;
  }

  /** Irecv of elements into a slot, any calls that leave the slot alone, and a wait for all of some requests, that
      slot's among them: when the wait comes back the receive has been finished, with its message in the section. */
  lemma ReceivedAfterWait(hm: HandleMap, start: Point, calls: seq<WrapperCall>, trace: seq<Done>, i: nat, j: nat,
                          desc: Descriptor, count: nat, h: Handle, slot: nat)
    requires Lawful(hm) && Execution(hm, start, calls, trace) && MpiState.Valid(start.state)
    requires i < j < |trace| <= |calls| && LeftAlone(calls, i + 1, j, slot) && WaitsFor(calls[j], slot)
    requires calls[i] == Start(true, desc, count, h, slot) && trace[i].reply.rc == Success
    requires GoodElements(desc, count, h) && Distinct(SectionBytes(desc, count))
    ensures FinishedUpTo(hm, start, calls, trace, i, j, desc, count)
  {
    hide *;
    GoneAfterWait(hm, start, calls, trace, i, j, slot);
    ReceiveInExecution(hm, start, calls, trace, i, j + 1, desc, count, h, slot);
    FinishedIfGone(hm, start, calls, trace, i, j, desc, count);
  }
}
