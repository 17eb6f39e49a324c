/** What the completion calls do to the Fortran program's own array of requests, and to the operations that it
    stands for. */
module RequestArrays {
  import opened MpiState
  import opened Requests

  /** The null request, of this layer or of the library. */
  predicate NullEntry(hm: HandleMap, requestF: int) {
    requestF == VAPAA_MPI_REQUEST_NULL || requestF == hm.c2f(NullRequest)
  }

  /** The request of operation r. */
  predicate EntryOf(hm: HandleMap, requestF: int, r: nat) {
    requestF == hm.c2f(Active(r))
  }

  /** An entry that a Fortran program may have: a null request or a request of the library. */
  ghost predicate IsEntry(hm: HandleMap, requestF: int) {
    NullEntry(hm, requestF) || exists r: nat :: EntryOf(hm, requestF, r)
  }

  ghost predicate AllEntries(hm: HandleMap, requestsF: seq<int>) {
    forall i :: 0 <= i < |requestsF| ==> IsEntry(hm, requestsF[i])
  }

  /** The null requests, and only they, stand for the null request, whatever the library makes of -17; and the request
      of an operation stands for that operation. */
  lemma EntryMeans(hm: HandleMap, requestF: int)
    requires Lawful(hm) && IsEntry(hm, requestF)
    ensures RequestF2C(hm, requestF) == NullRequest <==> NullEntry(hm, requestF)
    ensures forall r: nat :: RequestF2C(hm, requestF) == Active(r) <==> EntryOf(hm, requestF, r)
    ensures hm.c2f(RequestF2C(hm, requestF)) == if NullEntry(hm, requestF) then hm.c2f(NullRequest) else requestF
  {
    if !NullEntry(hm, requestF) {
      var r: nat :| EntryOf(hm, requestF, r);
      assert hm.f2c(hm.c2f(Active(r))) == Active(r);
    } else {
      assert hm.f2c(hm.c2f(NullRequest)) == NullRequest;
    }
    forall r: nat | EntryOf(hm, requestF, r) ensures RequestF2C(hm, requestF) == Active(r) {
      assert hm.f2c(hm.c2f(Active(r))) == Active(r);
    }
  }

  /** A call ends only operations whose requests are in the part of the array that it was given. */
  lemma EndsOwnRequests(hm: HandleMap, st: State, requestsF: seq<int>, call: Call, net: Network, lo: nat, count: nat,
                        r: nat) returns (m: nat)
    requires Lawful(hm) && MpiState.Valid(st) && lo + count <= |requestsF|
    requires AllEntries(hm, requestsF[lo..lo + count]) && r in st.pending
    requires r !in FortranStep(hm, st, requestsF, Finish(call, net, lo, count)).0.pending
    ensures m < count && call.Completes(m) && EntryOf(hm, requestsF[lo + m], r)
  {
    hide MpiState.Valid, AfterCall, EntryOf, RequestF2C, IsEntry, Lawful;
    m := CompletedInCall(st, AllF2C(hm, requestsF[lo..lo + count]), call, net, count, r);
    assert requestsF[lo..lo + count][m] == requestsF[lo + m];
    EntryMeans(hm, requestsF[lo + m]);
  }

  /** The part of the array holds null requests, and requests of pending operations, each once. */
  ghost predicate PendingOnce(hm: HandleMap, st: State, part: seq<int>) {
    && AllEntries(hm, part)
    && (forall i, r: nat :: 0 <= i < |part| && EntryOf(hm, part[i], r) ==> r in st.pending)
    && (forall i, j :: 0 <= i < j < |part| && part[i] == part[j] ==> NullEntry(hm, part[i]))
  }

  lemma PendingOnceIsDistinct(hm: HandleMap, st: State, part: seq<int>)
    requires Lawful(hm) && PendingOnce(hm, st, part)
    ensures DistinctPending(st, AllF2C(hm, part))
  {
    var requests := AllF2C(hm, part);
    hide RequestF2C, Lawful, IsEntry;
    forall i | 0 <= i < |part| && requests[i].Active? ensures EntryOf(hm, part[i], requests[i].id) {
      EntryMeans(hm, part[i]);
    }
    forall i, j | 0 <= i < j < |part| && requests[i].Active? ensures requests[i] != requests[j] {
      if requests[i] == requests[j] {
        assert EntryOf(hm, part[i], requests[i].id) && EntryOf(hm, part[j], requests[j].id);
        EntryMeans(hm, part[i]);
      }
    }
  }

  /** Request m of the part has completed, or was null. */
  predicate Gone(hm: HandleMap, call: Call, part: seq<int>, m: nat)
    requires m < |part|
  {
    call.Completes(m) || NullEntry(hm, part[m])
  }

  /** The array after a call: where it reports a completion the entry is the library's null request, and so is every
      null entry; all others, inside the part and outside, are as they were. */
  ghost predicate EntriesAre(hm: HandleMap, requestsF: seq<int>, call: Call, lo: nat, count: nat, after: seq<int>)
    requires lo + count <= |requestsF|
  {
    && |after| == |requestsF|
    && forall i :: 0 <= i < |after| ==>
         after[i] == if lo <= i < lo + count && Gone(hm, call, requestsF[lo..lo + count], i - lo)
                     then hm.c2f(NullRequest) else requestsF[i]
  }

  /** Exactly the operations whose completion the call reports are pending no more. */
  ghost predicate PendingAre(hm: HandleMap, st: State, part: seq<int>, call: Call, later: State) {
    && (forall r :: r in later.pending <==>
          r in st.pending && forall m :: 0 <= m < |part| && call.Completes(m) ==> !EntryOf(hm, part[m], r))
    && (forall r :: r in later.pending ==> later.pending[r] == st.pending[r])
  }

  lemma EntriesAfter(hm: HandleMap, st: State, requestsF: seq<int>, call: Call, lo: nat, count: nat, s: State,
                     q: seq<Request>)
    requires Lawful(hm) && lo + count <= |requestsF| && AllEntries(hm, requestsF[lo..lo + count])
    requires CompletedExactly(st, AllF2C(hm, requestsF[lo..lo + count]), call, count, s, q)
    ensures EntriesAre(hm, requestsF, call, lo, count, Spliced(requestsF, lo, AllC2F(hm, q)))
  {
    var after, part := Spliced(requestsF, lo, AllC2F(hm, q)), requestsF[lo..lo + count];
    hide Lawful, RequestF2C, NullEntry, IsEntry;
    forall i | lo <= i < lo + count
      ensures after[i] == if Gone(hm, call, part, i - lo) then hm.c2f(NullRequest) else requestsF[i]
    {
      EntryMeans(hm, part[i - lo]);
      assert q[i - lo] == if call.Completes(i - lo) then NullRequest else RequestF2C(hm, part[i - lo]);
    }
  }

  lemma PendingAfter(hm: HandleMap, st: State, part: seq<int>, call: Call, s: State, q: seq<Request>)
    requires Lawful(hm) && AllEntries(hm, part)
    requires CompletedExactly(st, AllF2C(hm, part), call, |part|, s, q)
    ensures PendingAre(hm, st, part, call, s)
  {
    hide Lawful, RequestF2C, NullEntry, IsEntry, EntryOf;
    forall m, r: nat | 0 <= m < |part| ensures AllF2C(hm, part)[m] == Active(r) <==> EntryOf(hm, part[m], r) {
      EntryMeans(hm, part[m]);
    }
  }

  /** What a call does to the array and to the pending operations. */
  lemma CallOnArray(hm: HandleMap, st: State, requestsF: seq<int>, call: Call, net: Network, lo: nat, count: nat)
    requires Lawful(hm) && MpiState.Valid(st) && lo + count <= |requestsF|
    requires PendingOnce(hm, st, requestsF[lo..lo + count])
    ensures var (later, after) := FortranStep(hm, st, requestsF, Finish(call, net, lo, count));
            && MpiState.Valid(later) && EntriesAre(hm, requestsF, call, lo, count, after)
            && PendingAre(hm, st, requestsF[lo..lo + count], call, later)
  {
    var part := requestsF[lo..lo + count];
    var (s, q) := AfterCall(st, AllF2C(hm, part), call, net, count);
    assert AllEntries(hm, part);
    assert FortranStep(hm, st, requestsF, Finish(call, net, lo, count)) == (s, Spliced(requestsF, lo, AllC2F(hm, q)));
    hide *;
    PendingOnceIsDistinct(hm, st, part);
    CallCompletesExactly(st, AllF2C(hm, part), call, net, count);
    EntriesAfter(hm, st, requestsF, call, lo, count, s, q);
    PendingAfter(hm, st, part, call, s, q);
  }

  /** Nothing is reported, so nothing happens. */
  lemma {:induction false} NothingReported(st: State, requests: seq<Request>, call: Call, net: Network, n: nat)
    requires n <= |requests| && forall i :: 0 <= i < n ==> !call.Completes(i)
    ensures AfterCall(st, requests, call, net, n) == (st, requests)
  {
    if n > 0 { NothingReported(st, requests, call, net, n - 1); }
  }

  /** No operation of the part is pending any more, and every entry is the library's null request. */
  ghost predicate AllEnded(hm: HandleMap, part: seq<int>, lo: nat, later: State, after: seq<int>) {
    && lo + |part| <= |after|
    && (forall i :: lo <= i < lo + |part| ==> after[i] == hm.c2f(NullRequest))
    && (forall m, r: nat :: 0 <= m < |part| && EntryOf(hm, part[m], r) ==> r !in later.pending)
  }

  /** The operation of request `at`, if there is such a request, has ended, and no other. */
  ghost predicate OneEnded(hm: HandleMap, st: State, part: seq<int>, at: int, later: State) {
    && (0 <= at < |part| ==> forall r: nat :: EntryOf(hm, part[at], r) ==> r !in later.pending)
    && (forall r :: r in st.pending && r !in later.pending ==> 0 <= at < |part| && EntryOf(hm, part[at], r))
  }

  ghost predicate SomeEnded(hm: HandleMap, st: State, part: seq<int>, indices: set<int>, later: State) {
    forall r :: r in st.pending ==>
      (r !in later.pending <==> exists m :: 0 <= m < |part| && m in indices && EntryOf(hm, part[m], r))
  }

  /** Each kind of call: all of the requests, all or none, one of them, one or none, or those reported. */
  ghost predicate EndsByKind(hm: HandleMap, st: State, part: seq<int>, call: Call, lo: nat, later: State,
                             after: seq<int>)
  {
    match call.kind
    case Waitall => AllEnded(hm, part, lo, later, after)
    case Testall => if call.flag then AllEnded(hm, part, lo, later, after) else later == st
    case Waitany => OneEnded(hm, st, part, call.index, later)
    case Testany => if call.flag then OneEnded(hm, st, part, call.index, later) else later == st
    case Waitsome | Testsome => SomeEnded(hm, st, part, call.indices, later)
  }

  lemma AllByKind(hm: HandleMap, st: State, requestsF: seq<int>, call: Call, lo: nat, count: nat, later: State,
                  after: seq<int>)
    requires lo + count <= |requestsF| && EntriesAre(hm, requestsF, call, lo, count, after)
    requires PendingAre(hm, st, requestsF[lo..lo + count], call, later)
    requires call.kind == Waitall || (call.kind == Testall && call.flag)
    ensures AllEnded(hm, requestsF[lo..lo + count], lo, later, after)
  {
    hide EntryOf, NullEntry;
    assert forall m :: call.Completes(m);
  }

  lemma OneByKind(hm: HandleMap, st: State, part: seq<int>, call: Call, later: State)
    requires PendingAre(hm, st, part, call, later)
    requires call.kind == Waitany || (call.kind == Testany && call.flag)
    ensures OneEnded(hm, st, part, call.index, later)
  {
    hide EntryOf;
  }

  lemma SomeByKind(hm: HandleMap, st: State, part: seq<int>, call: Call, later: State)
    requires PendingAre(hm, st, part, call, later) && call.kind in {Waitsome, Testsome}
    ensures SomeEnded(hm, st, part, call.indices, later)
  {
    hide EntryOf;
  }

  lemma EachKind(hm: HandleMap, st: State, requestsF: seq<int>, call: Call, net: Network, lo: nat, count: nat)
    requires Lawful(hm) && MpiState.Valid(st) && lo + count <= |requestsF|
    requires PendingOnce(hm, st, requestsF[lo..lo + count])
    ensures var (later, after) := FortranStep(hm, st, requestsF, Finish(call, net, lo, count));
            EndsByKind(hm, st, requestsF[lo..lo + count], call, lo, later, after)
  {
    var part := requestsF[lo..lo + count];
    var (later, after) := FortranStep(hm, st, requestsF, Finish(call, net, lo, count));
    CallOnArray(hm, st, requestsF, call, net, lo, count);
    if call.kind in {Testall, Testany} && !call.flag {
      NothingReported(st, AllF2C(hm, part), call, net, count);
    } else {
      hide MpiState.Valid, FortranStep, Lawful, PendingOnce, EntriesAre, PendingAre, AllEnded, OneEnded, SomeEnded;
      match call.kind
      case Waitall | Testall => AllByKind(hm, st, requestsF, call, lo, count, later, after);
      case Waitany | Testany => OneByKind(hm, st, part, call, later);
      case Waitsome | Testsome => SomeByKind(hm, st, part, call, later);
    }
  }

  /** The null request of this layer completes nothing, even where the library has an operation with its number. */
  lemma NullExample(hm: HandleMap, st: State, requestsF: seq<int>, call: Call, net: Network)
    requires requestsF == [VAPAA_MPI_REQUEST_NULL]
    ensures FortranStep(hm, st, requestsF, Finish(call, net, 0, 1)).0 == st
  {
    assert requestsF[0..1] == requestsF;
    assert AfterCall(st, AllF2C(hm, requestsF), call, net, 0) == (st, AllF2C(hm, requestsF));
  }

  // ---------------------------------------------------------------------------------------------
  // What the array holds
  // ---------------------------------------------------------------------------------------------

  lemma StepKeepsEntries(hm: HandleMap, st: State, requestsF: seq<int>, action: Action)
    requires action.Fits(|requestsF|) && AllEntries(hm, requestsF)
    ensures AllEntries(hm, FortranStep(hm, st, requestsF, action).1)
  {
    var after := FortranStep(hm, st, requestsF, action).1;
    hide AfterCall;
    forall i | 0 <= i < |after| ensures IsEntry(hm, after[i]) {
      if after[i] == requestsF[i] {
        assert IsEntry(hm, requestsF[i]);
      } else if action.Begin? {
        LibraryEntry(hm, StartedIn(st, action.op).1);
      } else {
        var (_, q) := AfterCall(st, AllF2C(hm, requestsF[action.lo..action.lo + action.count]), action.call, action.net,
                                action.count);
        LibraryEntry(hm, q[i - action.lo]);
      }
    }
  }

  lemma LibraryEntry(hm: HandleMap, q: Request)
    ensures IsEntry(hm, hm.c2f(q))
  {
    if q.Active? { assert EntryOf(hm, hm.c2f(q), q.id); }
  }

  /** An array that holds requests goes on to do so, whatever the program does. */
  lemma {:induction false} RunKeepsEntries(hm: HandleMap, st: State, requestsF: seq<int>, actions: seq<Action>)
    requires AllFit(actions, |requestsF|) && AllEntries(hm, requestsF)
    ensures AllEntries(hm, FortranRun(hm, st, requestsF, actions).1)
    decreases |actions|
  {
    hide FortranStep, AllEntries;
    if |actions| > 0 {
      StepKeepsEntries(hm, st, requestsF, actions[0]);
      var (s, q) := FortranStep(hm, st, requestsF, actions[0]);
      RunKeepsEntries(hm, s, q, actions[1..]);
    }
  }

  lemma PartOfEntries(hm: HandleMap, requestsF: seq<int>, lo: nat, count: nat)
    requires AllEntries(hm, requestsF) && lo + count <= |requestsF|
    ensures AllEntries(hm, requestsF[lo..lo + count])
  {
    hide IsEntry;
  }

  // ---------------------------------------------------------------------------------------------
  // A wait for all ends what it is given
  // ---------------------------------------------------------------------------------------------

  /** Request m is as it was until the call deals with it. */
  lemma {:induction false} NotYet(st: State, requests: seq<Request>, call: Call, net: Network, n: nat, m: nat)
    requires n <= m < |requests|
    ensures AfterCall(st, requests, call, net, n).1[m] == requests[m]
  {
    hide Completed;
    if n > 0 { NotYet(st, requests, call, net, n - 1, m); }
  }

  lemma {:induction false} WaitallEnds(st: State, requests: seq<Request>, call: Call, net: Network, n: nat,
                                       m: nat, r: nat)
    requires MpiState.Valid(st) && m < n <= |requests| && requests[m] == Active(r) && call.kind == Waitall
    ensures r !in AfterCall(st, requests, call, net, n).0.pending
    decreases n
  {
    hide MpiState.Valid, Completed, Reaches, AfterOne;
    var (s, q) := AfterCall(st, requests, call, net, n - 1);
    CallReaches(st, requests, call, net, n - 1);
    if n - 1 > m { WaitallEnds(st, requests, call, net, n - 1, m, r); }
    NotYet(st, requests, call, net, m, m);
    OneEnds(s, q, call, net, n - 1, r);
  }

  lemma OneEnds(s: State, q: seq<Request>, call: Call, net: Network, i: nat, r: nat)
    requires MpiState.Valid(s) && i < |q| && call.kind == Waitall && (r in s.pending ==> q[i] == Active(r))
    ensures r !in AfterOne(s, q, call, net, i).0.pending
  {
    if IsPending(s, q[i]) { CompletedTypes(s, q[i].id, ArrivalOf(net, q[i].id)); }
  }

  lemma WaitEndsEntry(hm: HandleMap, st: State, requestsF: seq<int>, call: Call, net: Network, lo: nat, count: nat,
                      slot: nat, r: nat)
    requires Lawful(hm) && MpiState.Valid(st) && lo + count <= |requestsF| && call.kind == Waitall
    requires lo <= slot < lo + count && EntryOf(hm, requestsF[slot], r)
    ensures r !in FortranStep(hm, st, requestsF, Finish(call, net, lo, count)).0.pending
  {
    hide MpiState.Valid, AfterCall;
    var requests := AllF2C(hm, requestsF[lo..lo + count]);
    assert requests[slot - lo] == Active(r) by { assert hm.f2c(hm.c2f(Active(r))) == Active(r); }
    WaitallEnds(st, requests, call, net, count, slot - lo, r);
  }
}
