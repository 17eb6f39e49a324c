/** source/mpi_p2p.c, C_MPI_Waitall, Waitany, Waitsome, Testall, Testany and Testsome: Fortran request arrays
    are converted to C requests, handed to the library, and converted back. */
module Requests {
  import opened Typemaps
  import opened MpiState
  import opened MpiLibrary

  datatype Request = NullRequest | Active(id: nat)

  const VAPAA_MPI_REQUEST_NULL: int := -17

  /** The library's MPI_Request_f2c and MPI_Request_c2f. */
  datatype HandleMap = HandleMap(f2c: int -> Request, c2f: Request -> int)

  /** They are inverse, and the library's integers avoid the one that this layer uses for the null request. */
  ghost predicate Lawful(hm: HandleMap) {
    forall r: Request :: hm.f2c(hm.c2f(r)) == r && hm.c2f(r) != VAPAA_MPI_REQUEST_NULL
  }

  /** C_MPI_REQUEST_F2C. */
  function RequestF2C(hm: HandleMap, requestF: int): Request {
    if requestF == VAPAA_MPI_REQUEST_NULL then NullRequest else hm.f2c(requestF)
  }

  function AllF2C(hm: HandleMap, requestsF: seq<int>): (r: seq<Request>)
    ensures |r| == |requestsF| && forall i :: 0 <= i < |r| ==> r[i] == RequestF2C(hm, requestsF[i])
  {
    seq(|requestsF|, i requires 0 <= i < |requestsF| => RequestF2C(hm, requestsF[i]))
  }

  function AllC2F(hm: HandleMap, requests: seq<Request>): (r: seq<int>)
    ensures |r| == |requests| && forall i :: 0 <= i < |r| ==> r[i] == hm.c2f(requests[i])
  {
    seq(|requests|, i requires 0 <= i < |requests| => hm.c2f(requests[i]))
  }

  datatype Kind = Waitall | Testall | Waitany | Testany | Waitsome | Testsome

  /** A completion call, with what the library reports: whether all, or which, of the requests completed.
      MPI_Wait and MPI_Test are Waitall and Testall of one request. */
  datatype Call = Call(kind: Kind, flag: bool, index: int, indices: set<int>)
  {
    predicate Completes(i: int) {
      match kind
      case Waitall => true
      case Testall => flag
      case Waitany => i == index
      case Testany => flag && i == index
      case Waitsome | Testsome => i in indices
    }
  }

  /** What arrives for the receives that complete. */
  type Network = map<nat, seq<byte>>

  function ArrivalOf(net: Network, id: nat): seq<byte> {
    if id in net then net[id] else []
  }

  predicate IsPending(st: State, r: Request) {
    r.Active? && r.id in st.pending && Exists(st, st.pending[r.id].datatyp)
  }

  /** The call deals with request i: its operation completes if the library reports it. */
  function AfterOne(st: State, requests: seq<Request>, call: Call, net: Network, i: nat): (r: (State, seq<Request>))
    requires i < |requests|
    ensures |r.1| == |requests|
  {
    if call.Completes(i) && IsPending(st, requests[i])
    then (Completed(st, requests[i].id, ArrivalOf(net, requests[i].id)), requests[i := NullRequest])
    else (st, requests)
  }

  /** The library's state and request array after the call has dealt with the first n requests. */
  function AfterCall(st: State, requests: seq<Request>, call: Call, net: Network, n: nat): (r: (State, seq<Request>))
    requires n <= |requests|
    ensures |r.1| == |requests|
  {
    if n == 0 then (st, requests)
    else var (s, q) := AfterCall(st, requests, call, net, n - 1); AfterOne(s, q, call, net, n - 1)
  }

  /** The library decides which operations complete now. */
  method CompleteInLibrary(lib: Mpi, requests: array<Request>, kind: Kind, net: Network) returns (call: Call)
    requires lib.Valid()
    modifies lib, requests
    ensures lib.Valid() && old(lib.history) <= lib.history && call.kind == kind
    ensures (lib.state, requests[..]) == AfterCall(old(lib.state), old(requests[..]), call, net, requests.Length)
  {
    var flag: bool, index: int, indices: set<int> := *, *, *;
    call := Call(kind, flag, index, indices);
    for i := 0 to requests.Length
      invariant lib.Valid() && old(lib.history) <= lib.history
      invariant (lib.state, requests[..]) == AfterCall(old(lib.state), old(requests[..]), call, net, i)
    {
      if call.Completes(i) && IsPending(lib.state, requests[i]) {
        lib.Step(Complete(requests[i].id, ArrivalOf(net, requests[i].id)));
        requests[i] := NullRequest;
      }
    }
  }

  method ConvertIn(hm: HandleMap, requestsF: array<int>, lo: nat, count: nat) returns (requests: array<Request>)
    requires lo + count <= requestsF.Length
    ensures fresh(requests) && requests[..] == AllF2C(hm, requestsF[lo..lo + count])
  {
    requests := new Request[count](_ => NullRequest);
    for i := 0 to count
      invariant forall j :: 0 <= j < i ==> requests[j] == RequestF2C(hm, requestsF[lo + j])
    {
      requests[i] := RequestF2C(hm, requestsF[lo + i]);
    }
  }

  /** The array with the part from `lo` on replaced. */
  function Spliced<T>(a: seq<T>, lo: nat, part: seq<T>): (r: seq<T>)
    requires lo + |part| <= |a|
    ensures |r| == |a|
    ensures forall i :: 0 <= i < |a| ==> r[i] == if lo <= i < lo + |part| then part[i - lo] else a[i]
  {
    a[..lo] + part + a[lo + |part|..]
  }

  method ConvertOut(hm: HandleMap, requests: array<Request>, requestsF: array<int>, lo: nat)
    requires lo + requests.Length <= requestsF.Length && requests as object != requestsF as object
    modifies requestsF
    ensures requestsF[..] == Spliced(old(requestsF[..]), lo, AllC2F(hm, requests[..]))
  {
    for i := 0 to requests.Length
      invariant forall j :: 0 <= j < requestsF.Length ==>
                  requestsF[j] == if lo <= j < lo + i then hm.c2f(requests[j - lo]) else old(requestsF[j])
    {
      requestsF[lo + i] := hm.c2f(requests[i]);
    }
  }

  /** One Fortran completion call on `count` requests from `lo` on: allocate, convert, complete, convert back.
      What the library reports goes to the caller as it is. */
  method CompletionCall(lib: Mpi, hm: HandleMap, kind: Kind, net: Network, requestsF: array<int>, lo: nat, count: nat)
    returns (call: Call)
    requires lib.Valid() && lo + count <= requestsF.Length
    modifies lib, requestsF
    ensures lib.Valid() && old(lib.history) <= lib.history && call.kind == kind
    ensures (lib.state, requestsF[..])
         == FortranStep(hm, old(lib.state), old(requestsF[..]), Finish(call, net, lo, count))
  {
    assert requestsF[..][lo..lo + count] == requestsF[lo..lo + count];
    hide AfterCall, Spliced, RequestF2C, Mpi.Valid, AllF2C, AllC2F;
    var requests := ConvertIn(hm, requestsF, lo, count);
    call := CompleteInLibrary(lib, requests, kind, net);
    ConvertOut(hm, requests, requestsF, lo);
  }

  // ---------------------------------------------------------------------------------------------
  // Simulation of the C program
  // ---------------------------------------------------------------------------------------------

  /** What a program does with its array of requests: complete some of them, start an operation and keep its
      request, or anything else that the library does for it. */
  datatype Action =
    | Finish(call: Call, net: Network, lo: nat, count: nat)
    | Begin(op: Op, at: nat)
    | Other(e: Event)
  {
    predicate Fits(n: nat) {
      match this
      case Finish(_, _, lo, count) => lo + count <= n
      case Begin(_, at) => at < n
      case Other(_) => true
    }
  }

  predicate AllFit(actions: seq<Action>, n: nat) {
    forall i :: 0 <= i < |actions| ==> actions[i].Fits(n)
  }

  /** A start that fails leaves the null request. */
  function StartedIn(st: State, op: Op): (State, Request) {
    if Usable(st, op.datatyp) then (Posted(st, op), Active(st.nextRequest)) else (st, NullRequest)
  }

  function OtherIn(st: State, e: Event): State {
    if Enabled(st, e) then Apply(st, e) else st
  }

  /** A C program, with an array of requests. */
  function CStep(st: State, requests: seq<Request>, action: Action): (r: (State, seq<Request>))
    requires action.Fits(|requests|)
    ensures |r.1| == |requests|
  {
    match action
    case Finish(call, net, lo, count) =>
      var (s, q) := AfterCall(st, requests[lo..lo + count], call, net, count);
      (s, Spliced(requests, lo, q))
    case Begin(op, at) =>
      var (s, q) := StartedIn(st, op);
      (s, requests[at := q])
    case Other(e) => (OtherIn(st, e), requests)
  }

  function CRun(st: State, requests: seq<Request>, actions: seq<Action>): (State, seq<Request>)
    requires AllFit(actions, |requests|)
    decreases |actions|
  {
    if |actions| == 0 then (st, requests)
    else
      var (s, q) := CStep(st, requests, actions[0]);
      CRun(s, q, actions[1..])
  }

  /** The Fortran program that does the same, with an array of integers. */
  function FortranStep(hm: HandleMap, st: State, requestsF: seq<int>, action: Action): (r: (State, seq<int>))
    requires action.Fits(|requestsF|)
    ensures |r.1| == |requestsF|
  {
    match action
    case Finish(call, net, lo, count) =>
      var (s, q) := AfterCall(st, AllF2C(hm, requestsF[lo..lo + count]), call, net, count);
      (s, Spliced(requestsF, lo, AllC2F(hm, q)))
    case Begin(op, at) =>
      var (s, q) := StartedIn(st, op);
      (s, requestsF[at := hm.c2f(q)])
    case Other(e) => (OtherIn(st, e), requestsF)
  }

  function FortranRun(hm: HandleMap, st: State, requestsF: seq<int>, actions: seq<Action>): (State, seq<int>)
    requires AllFit(actions, |requestsF|)
    decreases |actions|
  {
    if |actions| == 0 then (st, requestsF)
    else
      var (s, q) := FortranStep(hm, st, requestsF, actions[0]);
      FortranRun(hm, s, q, actions[1..])
  }

  lemma StepSimulates(hm: HandleMap, st: State, requestsF: seq<int>, action: Action)
    requires Lawful(hm) && action.Fits(|requestsF|)
    ensures FortranStep(hm, st, requestsF, action).0 == CStep(st, AllF2C(hm, requestsF), action).0
    ensures AllF2C(hm, FortranStep(hm, st, requestsF, action).1) == CStep(st, AllF2C(hm, requestsF), action).1
  {
    hide AfterCall;
    match action
    case Finish(call, net, lo, count) =>
      assert AllF2C(hm, requestsF[lo..lo + count]) == AllF2C(hm, requestsF)[lo..lo + count];
      var (s, q) := AfterCall(st, AllF2C(hm, requestsF[lo..lo + count]), call, net, count);
      assert AllF2C(hm, Spliced(requestsF, lo, AllC2F(hm, q))) == Spliced(AllF2C(hm, requestsF), lo, q);
    case Begin(op, at) =>
      var (s, q) := StartedIn(st, op);
      assert AllF2C(hm, requestsF[at := hm.c2f(q)]) == AllF2C(hm, requestsF)[at := q];
    case Other(_) =>
  }

  /** Whatever the two programs do, the Fortran array stands for the C array, and the library cannot tell the
      programs apart. */
  lemma {:induction false} FortranSimulatesC(hm: HandleMap, st: State, requestsF: seq<int>, actions: seq<Action>)
    requires Lawful(hm) && AllFit(actions, |requestsF|)
    ensures FortranRun(hm, st, requestsF, actions).0 == CRun(st, AllF2C(hm, requestsF), actions).0
    ensures AllF2C(hm, FortranRun(hm, st, requestsF, actions).1) == CRun(st, AllF2C(hm, requestsF), actions).1
    decreases |actions|
  {
    hide FortranStep, CStep;
    if |actions| > 0 {
      StepSimulates(hm, st, requestsF, actions[0]);
      var (s, q) := FortranStep(hm, st, requestsF, actions[0]);
      FortranSimulatesC(hm, s, q, actions[1..]);
    }
  }

  // ---------------------------------------------------------------------------------------------
  // The library's events as actions
  // ---------------------------------------------------------------------------------------------

  function Others(es: seq<Event>): (r: seq<Action>)
    ensures |r| == |es| && forall i :: 0 <= i < |r| ==> r[i] == Other(es[i])
  {
    seq(|es|, i requires 0 <= i < |es| => Other(es[i]))
  }

  /** The events of a call that keeps the request of what it posts in one slot of the array. */
  function Acted(es: seq<Event>, slot: nat): (r: seq<Action>)
    ensures |r| == |es|
    ensures forall i :: 0 <= i < |r| ==> r[i] == if es[i].Post? then Begin(es[i].op, slot) else Other(es[i])
  {
    seq(|es|, i requires 0 <= i < |es| => if es[i].Post? then Begin(es[i].op, slot) else Other(es[i]))
  }

  lemma {:induction false} OthersRun(hm: HandleMap, st: State, requestsF: seq<int>, es: seq<Event>)
    requires IsRun(st, es)
    ensures AllFit(Others(es), |requestsF|)
    ensures FortranRun(hm, st, requestsF, Others(es)) == (Run(st, es), requestsF)
    decreases |es|
  {
    hide Apply;
    if |es| > 0 {
      assert Others(es)[1..] == Others(es[1..]);
      OthersRun(hm, Apply(st, es[0]), requestsF, es[1..]);
    }
  }

  lemma {:induction false} RequestNumbersGrow(st: State, es: seq<Event>)
    requires IsRun(st, es)
    ensures st.nextRequest <= Run(st, es).nextRequest
    decreases |es|
  {
    if |es| > 0 { RequestNumbersGrow(Apply(st, es[0]), es[1..]); }
  }

  /** The slot holds the request posted last. */
  lemma {:induction false} ActedRun(hm: HandleMap, st: State, requestsF: seq<int>, es: seq<Event>, slot: nat)
    requires IsRun(st, es) && slot < |requestsF|
    ensures AllFit(Acted(es, slot), |requestsF|) && st.nextRequest <= Run(st, es).nextRequest
    ensures var last := Run(st, es).nextRequest;
            FortranRun(hm, st, requestsF, Acted(es, slot))
            == (Run(st, es), if last == st.nextRequest then requestsF
                             else requestsF[slot := hm.c2f(Active(last - 1))])
    decreases |es|
  {
    if |es| > 0 {
      assert Acted(es, slot)[1..] == Acted(es[1..], slot);
      var next := Apply(st, es[0]);
      RequestNumbersGrow(next, es[1..]);
      if es[0].Post? {
        var kept, last := requestsF[slot := hm.c2f(Active(st.nextRequest))], Run(st, es).nextRequest;
        ActedRun(hm, next, kept, es[1..], slot);
        assert kept[slot := hm.c2f(Active(last - 1))] == requestsF[slot := hm.c2f(Active(last - 1))];
        assert FortranStep(hm, st, requestsF, Acted(es, slot)[0]) == (next, kept);
      } else {
        assert next.nextRequest == st.nextRequest;
        assert FortranStep(hm, st, requestsF, Acted(es, slot)[0]) == (next, requestsF);
        ActedRun(hm, next, requestsF, es[1..], slot);
      }
    }
  }

  lemma {:induction false} FortranRunConcat(hm: HandleMap, st: State, requestsF: seq<int>,
                                            a: seq<Action>, b: seq<Action>)
    requires AllFit(a, |requestsF|) && AllFit(b, |requestsF|)
    ensures AllFit(a + b, |requestsF|) && |FortranRun(hm, st, requestsF, a).1| == |requestsF|
    ensures var (s, q) := FortranRun(hm, st, requestsF, a);
            FortranRun(hm, st, requestsF, a + b) == FortranRun(hm, s, q, b)
    decreases |a|
  {
    hide FortranStep;
    if |a| == 0 {
      assert a + b == b;
    } else {
      var (s, q) := FortranStep(hm, st, requestsF, a[0]);
      assert (a + b)[1..] == a[1..] + b;
      FortranRunConcat(hm, s, q, a[1..], b);
    }
  }

  // ---------------------------------------------------------------------------------------------
  // What a completion call does to the pending operations
  // ---------------------------------------------------------------------------------------------

  predicate DistinctPending(st: State, requests: seq<Request>) {
    && (forall i :: 0 <= i < |requests| ==> requests[i].Active? ==> requests[i].id in st.pending)
    && (forall i, j :: 0 <= i < j < |requests| && requests[i].Active? ==> requests[i] != requests[j])
  }

  /** No handle appears, disappears or changes its meaning. */
  lemma {:induction false} CallKeepsHandles(st: State, requests: seq<Request>, call: Call, net: Network, n: nat)
    requires MpiState.Valid(st) && n <= |requests|
    ensures var (s, _) := AfterCall(st, requests, call, net, n); MpiState.Valid(s) && Handles(s) == Handles(st)
  {
    hide MpiState.Valid, Handles, Completed;
    if n > 0 {
      CallKeepsHandles(st, requests, call, net, n - 1);
      var (s, q) := AfterCall(st, requests, call, net, n - 1);
      if call.Completes(n - 1) && IsPending(s, q[n - 1]) {
        CompletedValid(s, q[n - 1].id, ArrivalOf(net, q[n - 1].id));
        CompletedKeepsHandles(s, q[n - 1].id, ArrivalOf(net, q[n - 1].id));
      }
    }
  }

  /** The call is a run of completions, of operations that were pending. */
  lemma {:induction false} CallReaches(st: State, requests: seq<Request>, call: Call, net: Network, n: nat)
    requires MpiState.Valid(st) && n <= |requests|
    ensures var (s, _) := AfterCall(st, requests, call, net, n);
            && MpiState.Valid(s) && Reaches(st, s)
            && (forall r :: r in s.pending ==> r in st.pending && s.pending[r] == st.pending[r])
  {
    hide MpiState.Valid, Completed, Reaches;
    if n == 0 {
      ReachesItself(st);
    } else {
      CallReaches(st, requests, call, net, n - 1);
      var (s, q) := AfterCall(st, requests, call, net, n - 1);
      if call.Completes(n - 1) && IsPending(s, q[n - 1]) {
        var id, data := q[n - 1].id, ArrivalOf(net, q[n - 1].id);
        CompletedValid(s, id, data);
        CompletedTypes(s, id, data);
        OneStep(s, Event.Complete(id, data));
        ReachesBeyond(st, s, Completed(s, id, data));
      }
    }
  }

  /** An entry of the array is as it was, or null. */
  lemma {:induction false} EntryOrNull(st: State, requests: seq<Request>, call: Call, net: Network, n: nat, i: nat)
    requires n <= |requests| && i < |requests|
    ensures AfterCall(st, requests, call, net, n).1[i] in {requests[i], NullRequest}
  {
    hide Completed;
    if n > 0 { EntryOrNull(st, requests, call, net, n - 1, i); }
  }

  /** An operation that the call has ended is one of those in the array, completed with its own message. */
  lemma {:induction false} CompletedInCall(st: State, requests: seq<Request>, call: Call, net: Network, n: nat, r: nat)
    returns (m: nat)
    requires MpiState.Valid(st) && n <= |requests| && r in st.pending
    requires r !in AfterCall(st, requests, call, net, n).0.pending
    ensures m < n && call.Completes(m) && requests[m] == Active(r)
    ensures var s := AfterCall(st, requests, call, net, m).0;
            && r in s.pending && Exists(s, s.pending[r].datatyp)
            && AfterCall(st, requests, call, net, m + 1).0 == Completed(s, r, ArrivalOf(net, r))
    decreases n
  {
    hide MpiState.Valid, Completed;
    var (s, q) := AfterCall(st, requests, call, net, n - 1);
    if r in s.pending {
      m := n - 1;
      CallReaches(st, requests, call, net, m);
      EntryOrNull(st, requests, call, net, m, m);
      if call.Completes(m) && IsPending(s, q[m]) {
        CompletedTypes(s, q[m].id, ArrivalOf(net, q[m].id));
      }
    } else {
      m := CompletedInCall(st, requests, call, net, n - 1, r);
    }
  }

  /** After the first n requests, exactly the operations that the call reports have completed: their entries
      are null, they are no longer pending, and every other entry and operation is as before. */
  ghost predicate CompletedExactly(st: State, requests: seq<Request>, call: Call, n: nat, s: State, q: seq<Request>) {
    && |q| == |requests|
    && (forall i :: 0 <= i < |q| ==> q[i] == if i < n && call.Completes(i) then NullRequest else requests[i])
    && (forall r :: r in s.pending <==>
          r in st.pending && forall i :: 0 <= i < n && i < |requests| && call.Completes(i) ==> requests[i] != Active(r))
    && (forall r :: r in s.pending ==> s.pending[r] == st.pending[r])
  }

  lemma NoneYet(st: State, requests: seq<Request>, call: Call)
    ensures CompletedExactly(st, requests, call, 0, st, requests)
  {
  }

  lemma OneMore(st: State, requests: seq<Request>, call: Call, net: Network, n: nat, s: State, q: seq<Request>)
    requires MpiState.Valid(s) && n < |requests| && DistinctPending(st, requests)
    requires CompletedExactly(st, requests, call, n, s, q)
    ensures var (s', q') := AfterOne(s, q, call, net, n);
            MpiState.Valid(s') && CompletedExactly(st, requests, call, n + 1, s', q')
  {
    hide Addresses;
    assert q[n] == requests[n];
    if call.Completes(n) && requests[n].Active? {
      var id := requests[n].id;
      assert id in s.pending;
      CompletedValid(s, id, ArrivalOf(net, id));
      CompletedTypes(s, id, ArrivalOf(net, id));
    }
  }

  lemma {:induction false} CallCompletesExactly(st: State, requests: seq<Request>, call: Call, net: Network, n: nat)
    requires MpiState.Valid(st) && DistinctPending(st, requests) && n <= |requests|
    ensures var (s, q) := AfterCall(st, requests, call, net, n);
            MpiState.Valid(s) && CompletedExactly(st, requests, call, n, s, q)
  {
    hide MpiState.Valid, CompletedExactly, DistinctPending, AfterOne;
    if n == 0 {
      NoneYet(st, requests, call);
    } else {
      CallCompletesExactly(st, requests, call, net, n - 1);
      var (s, q) := AfterCall(st, requests, call, net, n - 1);
      OneMore(st, requests, call, net, n - 1, s, q);
    }
  }
}
