/** The state of the MPI library as one process sees it: a registry of derived datatypes, the pending
    nonblocking operations, and byte memory.  Freeing follows section 5.1.9 of MPI 4.0: a freed datatype
    lives on, without a handle, for as long as a pending operation uses it. */
module MpiState {
  import opened Typemaps

  datatype Basic =
    | MpiChar | MpiInt8 | MpiInt16 | MpiInt32 | MpiInt64 | MpiFloat | MpiDouble | MpiFloatComplex | MpiDoubleComplex
    | OtherBasic(size: nat)

  function BasicSize(b: Basic): nat {
    match b
    case MpiChar | MpiInt8 => 1
    case MpiInt16 => 2
    case MpiInt32 | MpiFloat => 4
    case MpiInt64 | MpiDouble | MpiFloatComplex => 8
    case MpiDoubleComplex => 16
    case OtherBasic(size) => size
  }

  datatype Handle = Null | Named(basic: Basic) | Derived(id: nat)

  /** `iov` is the list of contiguous segments that the library reports for the datatype. */
  datatype TypeInfo = TypeInfo(entries: Typemap, iov: Typemap, extent: int, committed: bool, open: bool)

  /** A nonblocking send or receive of `count` items of `datatyp` at address `base`. */
  datatype Op = Op(receive: bool, base: int, count: nat, datatyp: Handle)

  datatype State = State(types: map<nat, TypeInfo>, pending: map<nat, Op>, mem: Memory,
                         nextType: nat, nextRequest: nat)

  predicate Exists(st: State, h: Handle) {
    h.Named? || (h.Derived? && h.id in st.types)
  }

  predicate IsOpen(st: State, h: Handle) {
    Exists(st, h) && (h.Derived? ==> st.types[h.id].open)
  }

  /** May be used in communication. */
  predicate Usable(st: State, h: Handle) {
    IsOpen(st, h) && (h.Derived? ==> st.types[h.id].committed)
  }

  function EntriesOf(st: State, h: Handle): Typemap
    requires Exists(st, h)
  {
    if h.Named? then [Entry(0, BasicSize(h.basic))] else st.types[h.id].entries
  }

  function ExtentOf(st: State, h: Handle): int
    requires Exists(st, h)
  {
    if h.Named? then BasicSize(h.basic) else st.types[h.id].extent
  }

  function IovOf(st: State, h: Handle): Typemap
    requires Exists(st, h)
  {
    if h.Named? then [Entry(0, BasicSize(h.basic))] else st.types[h.id].iov
  }

  /** What a call with this count and datatype transfers. */
  function Transfer(st: State, count: nat, h: Handle): Typemap
    requires Exists(st, h)
  {
    Block(count, EntriesOf(st, h), ExtentOf(st, h), 0)
  }

  /** The derived datatypes that a program can still name, with what they describe. */
  function Handles(st: State): map<nat, TypeInfo> {
    map id | id in st.types && st.types[id].open :: st.types[id]
  }

  /** The same operations are pending, and none has been started. */
  predicate SameOperations(before: State, after: State) {
    after.pending == before.pending && after.nextRequest == before.nextRequest
  }

  predicate InUse(st: State, id: nat) {
    exists r :: r in st.pending && st.pending[r].datatyp == Derived(id)
  }

  /** The segments hold the same bytes as the entries, in the same order. */
  predicate FaithfulIov(info: TypeInfo) {
    Addresses(info.iov, 0) == Addresses(info.entries, 0)
  }

  predicate Valid(st: State) {
    && (forall id :: id in st.types ==> id < st.nextType && FaithfulIov(st.types[id]))
    && (forall r :: r in st.pending ==> r < st.nextRequest && Exists(st, st.pending[r].datatyp))
    && (forall id :: id in st.types ==> st.types[id].open || InUse(st, id))
  }

  // ---------------------------------------------------------------------------------------------
  // The library's steps
  // ---------------------------------------------------------------------------------------------

  function Registered(st: State, entries: Typemap, iov: Typemap, extent: int): State {
    st.(types := st.types[st.nextType := TypeInfo(entries, iov, extent, false, true)], nextType := st.nextType + 1)
  }

  function Committed(st: State, id: nat): State
    requires id in st.types
  {
    st.(types := st.types[id := st.types[id].(committed := true)])
  }

  function Reclaimed(st: State, h: Handle): State {
    if h.Derived? && h.id in st.types && !st.types[h.id].open && !InUse(st, h.id)
    then st.(types := st.types - {h.id}) else st
  }

  function Freed(st: State, id: nat): State
    requires id in st.types
  {
    Reclaimed(st.(types := st.types[id := st.types[id].(open := false)]), Derived(id))
  }

  function Posted(st: State, op: Op): State {
    st.(pending := st.pending[st.nextRequest := op], nextRequest := st.nextRequest + 1)
  }

  /** The bytes that a pending operation will read or write. */
  function OpAddresses(st: State, r: nat): seq<int>
    requires r in st.pending && Exists(st, st.pending[r].datatyp)
  {
    Addresses(Transfer(st, st.pending[r].count, st.pending[r].datatyp), st.pending[r].base)
  }

  /** Memory after as much of `data` as fits has arrived. */
  function Arrived(mem: Memory, addresses: seq<int>, data: seq<byte>): Memory {
    var n := if |data| < |addresses| then |data| else |addresses|;
    Store(mem, addresses[..n], data[..n])
  }

  function Completed(st: State, r: nat, data: seq<byte>): State
    requires r in st.pending && Exists(st, st.pending[r].datatyp)
  {
    var op := st.pending[r];
    var mem := if op.receive then Arrived(st.mem, OpAddresses(st, r), data) else st.mem;
    Reclaimed(st.(pending := st.pending - {r}, mem := mem), op.datatyp)
  }

  datatype Event =
    | Register(entries: Typemap, iov: Typemap, extent: int)
    | Commit(id: nat)
    | Free(id: nat)
    | Post(op: Op)
    | Complete(r: nat, data: seq<byte>)
    | Write(mem: Memory)

  predicate Enabled(st: State, e: Event) {
    match e
    case Register(entries, iov, extent) => FaithfulIov(TypeInfo(entries, iov, extent, false, true))
    case Commit(id) => IsOpen(st, Derived(id))
    case Free(id) => IsOpen(st, Derived(id))
    case Post(op) => Usable(st, op.datatyp)
    case Complete(r, _) => r in st.pending && Exists(st, st.pending[r].datatyp)
    case Write(_) => true
  }

  function Apply(st: State, e: Event): State
    requires Enabled(st, e)
  {
    match e
    case Register(entries, iov, extent) => Registered(st, entries, iov, extent)
    case Commit(id) => Committed(st, id)
    case Free(id) => Freed(st, id)
    case Post(op) => Posted(st, op)
    case Complete(r, data) => Completed(st, r, data)
    case Write(mem) => st.(mem := mem)
  }

  predicate IsRun(st: State, es: seq<Event>)
    decreases |es|
  {
    |es| > 0 ==> Enabled(st, es[0]) && IsRun(Apply(st, es[0]), es[1..])
  }

  function Run(st: State, es: seq<Event>): State
    requires IsRun(st, es)
    decreases |es|
  {
    if |es| == 0 then st else Run(Apply(st, es[0]), es[1..])
  }

  // ---------------------------------------------------------------------------------------------
  // What every run keeps
  // ---------------------------------------------------------------------------------------------

  lemma InUseAfter(before: State, after: State, id: nat)
    requires InUse(before, id)
    requires forall r :: r in before.pending ==> r in after.pending && after.pending[r] == before.pending[r]
    ensures InUse(after, id)
  {
    var r :| r in before.pending && before.pending[r].datatyp == Derived(id);
    assert r in after.pending && after.pending[r].datatyp == Derived(id);
  }

  /** Completing an operation leaves every datatype other than the operation's as it was, and the
      operation's own datatype exactly when it still has a handle or another user. */
  lemma CompletedTypes(st: State, r: nat, data: seq<byte>)
    requires Valid(st) && r in st.pending
    ensures Completed(st, r, data).pending == st.pending - {r}
    ensures Completed(st, r, data).nextType == st.nextType && Completed(st, r, data).nextRequest == st.nextRequest
    ensures forall id :: id in Completed(st, r, data).types <==>
                         id in st.types && (st.types[id].open || InUse(Completed(st, r, data), id))
    ensures forall id :: id in Completed(st, r, data).types ==> Completed(st, r, data).types[id] == st.types[id]
  {
    var after := Completed(st, r, data);
    forall id | id in st.types && !st.types[id].open && st.pending[r].datatyp != Derived(id)
      ensures InUse(after, id)
    {
      var q :| q in st.pending && st.pending[q].datatyp == Derived(id);
      assert q in after.pending && after.pending[q].datatyp == Derived(id);
    }
  }

  lemma CompletedKeepsHandles(st: State, r: nat, data: seq<byte>)
    requires Valid(st) && r in st.pending
    ensures Handles(Completed(st, r, data)) == Handles(st)
  {
    CompletedTypes(st, r, data);
    hide Completed, Valid;
  }

  lemma CompletedValid(st: State, r: nat, data: seq<byte>)
    requires Valid(st) && r in st.pending
    ensures Valid(Completed(st, r, data))
  {
    var after := Completed(st, r, data);
    CompletedTypes(st, r, data);
    hide Completed;
    forall q | q in after.pending ensures Exists(after, after.pending[q].datatyp) {
      var h := st.pending[q].datatyp;
      assert Exists(st, h);
      if h.Derived? {
        assert q in after.pending && after.pending[q].datatyp == Derived(h.id);
        assert InUse(after, h.id);
      }
    }
  }

  lemma FreedValid(st: State, id: nat)
    requires Valid(st) && id in st.types
    ensures Valid(Freed(st, id))
  {
    hide Addresses;
    var after := Freed(st, id);
    forall q | q in after.pending ensures Exists(after, after.pending[q].datatyp) {
      assert q in st.pending && st.pending[q].datatyp == after.pending[q].datatyp;
    }
    forall i | i in after.types && !after.types[i].open ensures InUse(after, i) {
      assert i in st.types;
      if i != id { InUseAfter(st, after, i); }
    }
  }

  lemma ApplyValid(st: State, e: Event)
    requires Valid(st) && Enabled(st, e)
    ensures Valid(Apply(st, e))
  {
    hide Completed, Freed, Addresses;
    var after := Apply(st, e);
    match e
    case Complete(r, data) => CompletedValid(st, r, data);
    case Free(id) => FreedValid(st, id);
    case _ =>
      forall i | i in after.types && !after.types[i].open ensures InUse(after, i) {
        assert i in st.types && !st.types[i].open;
        InUseAfter(st, after, i);
      }
  }

  lemma {:induction false} RunValid(st: State, es: seq<Event>)
    requires Valid(st) && IsRun(st, es)
    ensures Valid(Run(st, es))
    decreases |es|
  {
    if |es| > 0 {
      ApplyValid(st, es[0]);
      RunValid(Apply(st, es[0]), es[1..]);
    }
  }

  /** A run can be cut at any point. */
  lemma {:induction false} RunSplit(st: State, es: seq<Event>, more: seq<Event>)
    requires IsRun(st, es + more)
    ensures IsRun(st, es) && IsRun(Run(st, es), more) && Run(st, es + more) == Run(Run(st, es), more)
    decreases |es|
  {
    if |es| == 0 {
      assert es + more == more;
    } else {
      assert (es + more)[1..] == es[1..] + more;
      RunSplit(Apply(st, es[0]), es[1..], more);
    }
  }

  lemma {:induction false} RunSnoc(st: State, es: seq<Event>, e: Event)
    requires IsRun(st, es) && Enabled(Run(st, es), e)
    ensures IsRun(st, es + [e]) && Run(st, es + [e]) == Apply(Run(st, es), e)
    decreases |es|
  {
    if |es| == 0 {
      assert es + [e] == [e];
    } else {
      assert (es + [e])[1..] == es[1..] + [e];
      RunSnoc(Apply(st, es[0]), es[1..], e);
    }
  }

  /** Some run leads from one state to the other. */
  ghost predicate Reaches(st: State, later: State) {
    exists es :: IsRun(st, es) && Run(st, es) == later
  }

  lemma {:induction false} RunConcat(st: State, es: seq<Event>, more: seq<Event>)
    requires IsRun(st, es) && IsRun(Run(st, es), more)
    ensures IsRun(st, es + more) && Run(st, es + more) == Run(Run(st, es), more)
    decreases |es|
  {
    if |es| == 0 {
      assert es + more == more;
    } else {
      assert (es + more)[1..] == es[1..] + more;
      RunConcat(Apply(st, es[0]), es[1..], more);
    }
  }

  lemma ReachesItself(st: State)
    ensures Reaches(st, st)
  {
    assert IsRun(st, []) && Run(st, []) == st;
  }

  lemma ReachesBeyond(st: State, middle: State, later: State)
    requires Reaches(st, middle) && Reaches(middle, later)
    ensures Reaches(st, later)
  {
    var es :| IsRun(st, es) && Run(st, es) == middle;
    var more :| IsRun(middle, more) && Run(middle, more) == later;
    hide *;
    RunConcat(st, es, more);
    RunReaches(st, es + more);
  }

  lemma RunReaches(st: State, es: seq<Event>)
    requires IsRun(st, es)
    ensures Reaches(st, Run(st, es))
  {
    hide IsRun, Run;
  }

  /** In every reachable state, the registry holds exactly the datatypes that have a handle or a pending user:
      a freed datatype is reclaimed by the completion of its last pending operation, and no earlier. */
  lemma RegistryOverRuns(st: State, later: State, id: nat)
    requires Valid(st) && Reaches(st, later)
    ensures Valid(later)
    ensures id in later.types <==> id in Handles(later) || InUse(later, id)
  {
    var es :| IsRun(st, es) && Run(st, es) == later;
    RunValid(st, es);
    if InUse(later, id) {
      var r :| r in later.pending && later.pending[r].datatyp == Derived(id);
      assert Exists(later, later.pending[r].datatyp);
    }
  }

  /** A completed request never comes back. */
  lemma {:induction false} GoneForGood(st: State, es: seq<Event>, r: nat)
    requires Valid(st) && IsRun(st, es) && r < st.nextRequest && r !in st.pending
    ensures r !in Run(st, es).pending
    decreases |es|
  {
    if |es| > 0 {
      var next := Apply(st, es[0]);
      ApplyValid(st, es[0]);
      if es[0].Complete? { CompletedTypes(st, es[0].r, es[0].data); }
      GoneForGood(next, es[1..], r);
    }
  }

  lemma StepKeepsPending(st: State, e: Event, r: nat)
    requires Valid(st) && Enabled(st, e) && r in st.pending && r in Apply(st, e).pending
    ensures Apply(st, e).pending[r] == st.pending[r]
    ensures Exists(Apply(st, e), st.pending[r].datatyp)
    ensures OpAddresses(Apply(st, e), r) == OpAddresses(st, r)
  {
    ApplyValid(st, e);
    if e.Complete? { CompletedTypes(st, e.r, e.data); }
  }

  lemma {:induction false} RunKeepsPending(st: State, es: seq<Event>, r: nat)
    requires Valid(st) && IsRun(st, es) && r in st.pending && r in Run(st, es).pending
    ensures Run(st, es).pending[r] == st.pending[r]
    ensures Exists(Run(st, es), st.pending[r].datatyp)
    ensures OpAddresses(Run(st, es), r) == OpAddresses(st, r)
    decreases |es|
  {
    if |es| > 0 {
      var next := Apply(st, es[0]);
      ApplyValid(st, es[0]);
      if r !in next.pending {
        if es[0].Complete? { CompletedTypes(st, es[0].r, es[0].data); }
        GoneForGood(next, es[1..], r);
      } else {
        StepKeepsPending(st, es[0], r);
        RunKeepsPending(next, es[1..], r);
      }
    }
  }

  /** A pending operation keeps its meaning: whatever happens between posting and completion, and in
      particular when its datatype is freed, it touches the bytes it was posted for. */
  lemma PendingKeepsMeaning(st: State, later: State, r: nat)
    requires Valid(st) && Reaches(st, later) && r in st.pending && r in later.pending
    ensures Valid(later) && later.pending[r] == st.pending[r]
    ensures Exists(later, st.pending[r].datatyp)
    ensures OpAddresses(later, r) == OpAddresses(st, r)
  {
    var es :| IsRun(st, es) && Run(st, es) == later;
    RunValid(st, es);
    RunKeepsPending(st, es, r);
  }

  lemma OneStep(st: State, e: Event)
    requires Enabled(st, e)
    ensures Reaches(st, Apply(st, e))
  {
    assert [e][1..] == [];
    assert IsRun(st, [e]) && Run(st, [e]) == Apply(st, e);
  }

  /** Registering a temporary datatype, then another, then freeing the temporary leaves only the other. */
  lemma TemporaryFreed(st: State, temp: Typemap, tempExtent: int, entries: Typemap, extent: int)
    requires Valid(st)
    ensures Freed(Registered(Registered(st, temp, temp, tempExtent), entries, entries, extent), st.nextType)
         == Registered(st.(nextType := st.nextType + 1), entries, entries, extent)
  {
    var both := Registered(Registered(st, temp, temp, tempExtent), entries, entries, extent);
    assert !InUse(both, st.nextType) by {
      forall r | r in st.pending ensures st.pending[r].datatyp != Derived(st.nextType) {
        assert Exists(st, st.pending[r].datatyp);
      }
    }
    assert st.nextType !in st.types;
    var info := TypeInfo(entries, entries, extent, false, true);
    assert Freed(both, st.nextType).types == st.types[st.nextType + 1 := info];
  }

  // ---------------------------------------------------------------------------------------------
  // A datatype that is created, committed, used once and freed
  // ---------------------------------------------------------------------------------------------

  /** `st` with a new committed datatype. */
  function WithType(st: State, id: nat, entries: Typemap): State {
    Committed(Registered(st.(nextType := id), entries, entries, NaturalExtent(entries)), id)
  }

  lemma TransferOfOne(st: State, h: Handle)
    requires Exists(st, h)
    ensures Transfer(st, 1, h) == EntriesOf(st, h)
  {
    BlockOfOne(EntriesOf(st, h), ExtentOf(st, h), 0);
  }

  lemma FreedUnused(st: State, id: nat)
    requires id in st.types && !InUse(st, id)
    ensures Freed(st, id) == st.(types := st.types - {id})
  {
    var closed := st.(types := st.types[id := st.types[id].(open := false)]);
    assert !InUse(closed, id);
    assert closed.types - {id} == st.types - {id};
  }

  lemma NewIsUnused(st: State, id: nat)
    requires Valid(st) && st.nextType <= id
    ensures id !in st.types && !InUse(st, id)
  {
    forall r | r in st.pending ensures st.pending[r].datatyp != Derived(id) {
      assert Exists(st, st.pending[r].datatyp);
    }
  }

  /** Freed after a blocking call, the datatype leaves no trace but the use of its number. */
  lemma FreedAfterUse(st: State, id: nat, entries: Typemap, mem: Memory)
    requires Valid(st) && st.nextType <= id
    ensures Freed(WithType(st, id, entries).(mem := mem), id) == st.(nextType := id + 1, mem := mem)
    ensures IsOpen(WithType(st, id, entries).(mem := mem), Derived(id))
  {
    NewIsUnused(st, id);
    var used := WithType(st, id, entries).(mem := mem);
    assert used.pending == st.pending && !InUse(used, id);
    FreedUnused(used, id);
    assert used.types - {id} == st.types;
  }

  lemma WithTypeIs(st: State, id: nat, entries: Typemap)
    ensures WithType(st, id, entries)
         == st.(types := st.types[id := TypeInfo(entries, entries, NaturalExtent(entries), true, true)],
                nextType := id + 1)
  {
  }

  lemma SameUsers(before: State, after: State, id: nat)
    requires before.pending == after.pending
    ensures InUse(after, id) == InUse(before, id)
  {
  }

  lemma FirstFreed(st: State, id1: nat, entries1: Typemap, id2: nat, entries2: Typemap, mem: Memory)
    requires Valid(st) && st.nextType <= id1 < id2
    ensures Freed(WithType(WithType(st, id1, entries1), id2, entries2).(mem := mem), id1)
         == WithType(st, id2, entries2).(mem := mem)
  {
    NewIsUnused(st, id1);
    var once := WithType(st, id1, entries1);
    var used := WithType(once, id2, entries2).(mem := mem);
    WithTypeIs(st, id1, entries1);
    WithTypeIs(once, id2, entries2);
    WithTypeIs(st, id2, entries2);
    hide WithType, Valid, NaturalExtent, Freed, InUse;
    SameUsers(st, used, id1);
    FreedUnused(used, id1);
    var info := TypeInfo(entries2, entries2, NaturalExtent(entries2), true, true);
    assert used.types - {id1} == st.types[id2 := info];
  }

  /** The same for two datatypes that are used by one call, the first one freed first. */
  lemma BothFreedAfterUse(st: State, id1: nat, entries1: Typemap, id2: nat, entries2: Typemap, mem: Memory)
    requires Valid(st) && st.nextType <= id1 < id2
    ensures var used := WithType(WithType(st, id1, entries1), id2, entries2).(mem := mem);
            && IsOpen(used, Derived(id1)) && IsOpen(Freed(used, id1), Derived(id2))
            && Freed(Freed(used, id1), id2) == st.(nextType := id2 + 1, mem := mem)
  {
    FirstFreed(st, id1, entries1, id2, entries2, mem);
    FreedAfterUse(st, id2, entries2, mem);
  }

  /** Freed after a nonblocking call, it stays, without a handle, for the pending operation. */
  lemma FreedWhilePending(st: State, id: nat, entries: Typemap, receive: bool, base: int)
    requires Valid(st) && st.nextType <= id
    ensures st.nextRequest !in st.pending
    ensures var op := Op(receive, base, 1, Derived(id));
            var end := Freed(Posted(WithType(st, id, entries), op), id);
            && end.pending == st.pending[st.nextRequest := op] && end.mem == st.mem
            && end.nextRequest == st.nextRequest + 1
            && end.types == st.types[id := TypeInfo(entries, entries, NaturalExtent(entries), true, false)]
            && id !in st.types
            && OpAddresses(end, st.nextRequest) == Addresses(entries, base)
  {
    NewIsUnused(st, id);
    var posted := Posted(WithType(st, id, entries), Op(receive, base, 1, Derived(id)));
    assert posted.pending[st.nextRequest].datatyp == Derived(id);
    var closed := posted.(types := posted.types[id := posted.types[id].(open := false)]);
    assert st.nextRequest in closed.pending && InUse(closed, id);
    TransferOfOne(closed, Derived(id));
  }
}
