/**
 What runs of the stub table promise about call counters and deferred return codes
 (osal/ut_assert/inc/utstubs.h, the descriptions of UT_GetStubCount and UT_SetDeferredRetcode).
 */
module StubCodes {
  import opened Basics
  import opened StubEntries
  import opened StubSpec
  import opened StubViews
  import opened StubRuns

  // ---- Counters ----

  function HeadCount(v: seq<Entry>): nat {
    if v == [] || !v[0].data.Rc? then 0 else v[0].data.count
  }

  /** The count kept for a stub, zero when it has no counter entry. */
  function CountOf(t: Table, key: Key): nat {
    HeadCount(View(t, key, Counter))
  }

  lemma CountCallCounts(t: Table, key: Key, rc: int)
    requires Good(t) && CountCall(t, key, rc).Some?
    ensures CountOf(CountCall(t, key, rc).value.0, key) == NextCount(CountOf(t, key))
  {
    hide View;
    var (u, count) := CountCall(t, key, rc).value;
    var i := SlotFor(t, key, Counter).value;
    SlotForIsAlone(t, key, Counter);
    UpsertView(t, key, Counter, i, u[i]);
    FindIsHead(t, key, Counter);
  }

  /** A stub call adds one to its own count, whatever code it returns. */
  lemma CallCounts(t: Table, key: Key, defaultRc: int, hooks: Hooks)
    requires Good(t) && Call(t, key, defaultRc, hooks).Some?
    ensures CountOf(Call(t, key, defaultRc, hooks).value.0, key) == NextCount(CountOf(t, key))
  {
    hide View, SelectCode, CountCall, ClearOne, HookedCode;
    var (t1, rc) := SelectCode(t, key, defaultRc);
    SelectCodeFrame(t, key, defaultRc, key, Counter);
    CountCallCounts(t1, key, rc);
    ClearOneFrame(CountCall(t1, key, rc).value.0, key, CallbackContext, key, Counter);
  }

  function CountAfter(op: Op, key: Key, n: nat): nat {
    match op
    case OpReset(k) => if k == 0 || k == key then 0 else n
    case OpCall(k, _) => if k == key then n + 1 else n
    case _ => n
  }

  /** The number of calls of a stub since the last reset that cleared its counter, given `n` earlier ones. */
  function CallsSinceReset(ops: seq<Op>, key: Key, n: nat): nat
    decreases ops
  {
    if ops == [] then n else CallsSinceReset(ops[1..], key, CountAfter(ops[0], key, n))
  }

  lemma StepCounts(s: State, op: Op, hooks: Hooks, key: Key)
    requires Inv(s) && Step(s, op, hooks).Some?
    ensures CountOf(Step(s, op, hooks).value.0.slots, key)
         == match op
            case OpReset(k) => if k == 0 || k == key then 0 else CountOf(s.slots, key)
            case OpCall(k, _) => if k == key then NextCount(CountOf(s.slots, key)) else CountOf(s.slots, key)
            case _ => CountOf(s.slots, key)
  {
    hide View, Call;
    if !Touches(op, key, Counter) {
      StepFrame(s, op, hooks, key, Counter);
    } else if op.OpReset? {
      ResetView(s.slots, op.key, key, Counter);
    } else {
      CallCounts(s.slots, key, op.defaultRc, hooks);
    }
  }

  lemma NextCountWraps(n: nat)
    ensures NextCount(n % UINT32_RANGE) == (n + 1) % UINT32_RANGE
  {
  }

  /** Over every run that is not aborted, a stub's count is the number of its calls since it was reset. */
  lemma {:induction false} CounterCountsCalls(s: State, ops: seq<Op>, hooks: Hooks, key: Key, n: nat)
    requires Inv(s) && Run(s, ops, hooks).Some? && CountOf(s.slots, key) == n % UINT32_RANGE
    ensures CountOf(Run(s, ops, hooks).value.0.slots, key) == CallsSinceReset(ops, key, n) % UINT32_RANGE
    decreases ops
  {
    hide Step, View;
    if ops != [] {
      StepCounts(s, ops[0], hooks, key);
      NextCountWraps(n);
      CounterCountsCalls(Step(s, ops[0], hooks).value.0, ops[1..], hooks, key, CountAfter(ops[0], key, n));
    }
  }

  // ---- Deferred codes: the abstract count-down queue ----

  /** A pending deferred code: the call on which it is due, and the code. */
  datatype Deferred = Deferred(count: nat, rc: int)

  function AsDeferred(e: Entry): Deferred {
    if e.data.Rc? then Deferred(e.data.count, e.data.rc) else Deferred(0, 0)
  }

  function AsPending(v: seq<Entry>): (q: seq<Deferred>) {
    seq(|v|, i requires 0 <= i < |v| => AsDeferred(v[i]))
  }

  /** The deferred codes of a stub, in the order in which it will return them. */
  function Pending(t: Table, key: Key): (q: seq<Deferred>) {
    AsPending(View(t, key, DeferredRc))
  }

  /** One call of a count-down queue: only the head counts down, and it leaves when it is due. */
  function Tick(q: seq<Deferred>): (r: (seq<Deferred>, Option<int>)) {
    if q == [] then (q, None)
    else if q[0].count == 1 then (q[1..], Some(q[0].rc))
    else if q[0].count == 0 then (q, None)
    else ([Deferred(q[0].count - 1, q[0].rc)] + q[1..], None)
  }

  /** The first free slot of the key lies beyond all its entries of this kind. */
  ghost predicate AppendsLast(t: Table, key: Key, kind: Kind) {
    FindFree(t, key).Some? ==>
      forall i | 0 <= i < MAX_FUNC_STUBS && Matches(t[i], key, kind) ::
        Distance(Home(key), i) < Distance(Home(key), FindFree(t, key).value)
  }

  lemma AppendsLastMeansNothingAfter(t: Table, key: Key, kind: Kind, i: nat)
    requires Good(t) && !kind.Unused? && FindFree(t, key) == Some(i)
    ensures i < MAX_FUNC_STUBS
    ensures AppendsLast(t, key, kind) <==> After(t, key, kind, i) == []
  {
    hide View, ViewRange;
    var h := Home(key);
    ViewRangeEmpty(t, h, key, kind, Distance(h, i) + 1, |t|);
    forall j | 0 <= j < MAX_FUNC_STUBS && Matches(t[j], key, kind) && Distance(h, j) >= Distance(h, i)
      ensures Distance(h, j) > Distance(h, i)
    {
      assert j != i;
    }
  }

  /**
   The exact order in which entries of one key are used. A new entry comes after the `j`
   entries that are nearer than the free slot; it comes last, as documented, exactly when
   the first free slot lies beyond all of them.
   */
  lemma InsertOrder(t: Table, e: Entry) returns (j: nat)
    requires Good(t) && WellFormed(e) && !UniqueKind(e.kind) && !e.kind.Unused? && Insert(t, e).Some?
    ensures var v := View(t, e.key, e.kind);
      && j <= |v|
      && View(Insert(t, e).value, e.key, e.kind) == v[..j] + [e] + v[j..]
      && (j == |v| <==> AppendsLast(t, e.key, e.kind))
  {
    hide View, ViewRange;
    var i := FindFree(t, e.key).value;
    InsertView(t, e, i);
    AppendsLastMeansNothingAfter(t, e.key, e.kind, i);
    var b, a := Before(t, e.key, e.kind, i), After(t, e.key, e.kind, i);
    j := |b|;
    assert (b + a)[..j] == b && (b + a)[j..] == a;
  }

  lemma InsertLast(t: Table, e: Entry)
    requires Good(t) && WellFormed(e) && !UniqueKind(e.kind) && !e.kind.Unused? && Insert(t, e).Some?
    requires AppendsLast(t, e.key, e.kind)
    ensures View(Insert(t, e).value, e.key, e.kind) == View(t, e.key, e.kind) + [e]
  {
    hide View, ViewRange;
    var j := InsertOrder(t, e);
    var v := View(t, e.key, e.kind);
    assert v[..j] == v && v[j..] == [];
    assert v[..j] + [e] + v[j..] == v + [e];
  }

  lemma PendingOfConcat(a: seq<Entry>, b: seq<Entry>)
    ensures AsPending(a + b) == AsPending(a) + AsPending(b)
  {
  }

  lemma PendingOfOne(e: Entry)
    ensures AsPending([]) == [] && AsPending([e]) == [AsDeferred(e)]
  {
  }

  lemma TickOfHead(v: seq<Entry>, e: Entry)
    requires v != [] && v[0].data.Rc? && 0 < v[0].data.count && e.data == Rc(v[0].data.count - 1, v[0].data.rc)
    ensures Tick(AsPending(v))
         == if v[0].data.count == 1 then (AsPending(v[1..]), Some(v[0].data.rc))
            else (AsPending([e] + v[1..]), None)
  {
    assert AsPending(v)[0] == AsDeferred(v[0]);
    assert AsPending(v)[1..] == AsPending(v[1..]);
    PendingOfConcat([e], v[1..]);
    PendingOfOne(e);
  }

  /** Consulting the deferred codes of a stub ticks its queue. */
  lemma CheckDeferredTicks(t: Table, key: Key)
    requires Good(t)
    ensures (Pending(CheckDeferred(t, key).0, key), CheckDeferred(t, key).1) == Tick(Pending(t, key))
  {
    hide View, AsPending, Tick, CheckDeferred;
    CheckDeferredView(t, key);
    var v := View(t, key, DeferredRc);
    if v == [] {
      TickOfNothing();
    } else {
      TickOfHead(v, Entry(DeferredRc, key, false, Rc(v[0].data.count - 1, v[0].data.rc)));
    }
  }

  lemma CheckDeferredView(t: Table, key: Key)
    requires Good(t)
    ensures var v := View(t, key, DeferredRc);
      var (u, code) := CheckDeferred(t, key);
      if v == [] then u == t && code == None
      else
        && v[0].data.Rc? && 0 < v[0].data.count
        && code == (if v[0].data.count == 1 then Some(v[0].data.rc) else None)
        && View(u, key, DeferredRc)
             == if v[0].data.count == 1 then v[1..]
                else [Entry(DeferredRc, key, false, Rc(v[0].data.count - 1, v[0].data.rc))] + v[1..]
  {
    hide View, ProbeFrom;
    FindIsHead(t, key, DeferredRc);
    var found := Find(t, key, DeferredRc);
    if found.Some? {
      var Rc(count, rc) := t[found.value].data;
      HeadUpdate(t, key, DeferredRc, found.value, if count == 1 then ZERO_ENTRY else DeferredEntry(key, count - 1, rc));
      var rest := View(t, key, DeferredRc)[1..];
      assert [] + rest == rest;
    }
  }

  lemma TickOfNothing()
    ensures AsPending([]) == [] && Tick(AsPending([])) == ([], None)
  {
  }

  /** What one operation does to the count-down queue of a stub. */
  function PendingStep(q: seq<Deferred>, op: Op, key: Key): (r: seq<Deferred>) {
    match op
    case OpReset(k) => if k == 0 || k == key then [] else q
    case OpSetDeferred(k, count, rc) => if k == key && count > 0 then q + [Deferred(count, rc)] else q
    case OpClearDeferred(k) => if k == key then [] else q
    case OpCheckDeferred(k) => if k == key then Tick(q).0 else q
    case OpCall(k, _) => if k == key then Tick(q).0 else q
    case _ => q
  }

  predicate Registers(op: Op, key: Key) {
    op.OpSetDeferred? && op.key == key && op.count > 0
  }

  /** The documented order can be relied on for this operation. */
  ghost predicate InOrder(s: State, op: Op, key: Key) {
    Registers(op, key) ==> AppendsLast(s.slots, key, DeferredRc)
  }

  lemma SelectCodeTicks(t: Table, key: Key, defaultRc: int)
    requires Good(t)
    ensures Pending(SelectCode(t, key, defaultRc).0, key) == Tick(Pending(t, key)).0
  {
    hide View, CheckDeferred, CheckForceFail;
    CheckDeferredTicks(t, key);
    CheckForceFailFrame(CheckDeferred(t, key).0, key, key, DeferredRc);
  }

  /** The table refines the count-down queue, provided that registrations find their free slot last. */
  lemma StepRefinesQueue(s: State, op: Op, hooks: Hooks, key: Key)
    requires Inv(s) && Step(s, op, hooks).Some? && InOrder(s, op, key)
    ensures Pending(Step(s, op, hooks).value.0.slots, key) == PendingStep(Pending(s.slots, key), op, key)
  {
    hide View, AsPending, Call, SelectCode, CheckDeferred;
    var t := s.slots;
    TickOfNothing();
    if !Touches(op, key, DeferredRc) {
      StepFrame(s, op, hooks, key, DeferredRc);
    } else {
      match op
      case OpReset(k) => ResetView(t, k, key, DeferredRc);
      case OpSetDeferred(k, count, rc) =>
        if count > 0 {
          var e := DeferredEntry(key, count, rc);
          InsertLast(t, e);
          PendingOfConcat(View(t, key, DeferredRc), [e]);
          PendingOfOne(e);
        }
      case OpClearDeferred(k) => ClearDeferredView(t, k, key, DeferredRc);
      case OpCheckDeferred(k) => CheckDeferredTicks(t, key);
      case OpCall(k, defaultRc) =>
        CallCodeViews(t, key, defaultRc, hooks, DeferredRc);
        SelectCodeTicks(t, key, defaultRc);
    }
  }

  // ---- Registration ----

  /** No occupied slot became free. */
  ghost predicate FreesNothing(t: Table, u: Table) {
    forall i | 0 <= i < MAX_FUNC_STUBS && u[i].kind.Unused? :: t[i].kind.Unused?
  }

  /** Every entry of (key, kind) in `u` was there in `t`, or sits in the slot that was first free in `t`. */
  ghost predicate AddsOnlyFirstFree(t: Table, u: Table, key: Key, kind: Kind) {
    forall i | 0 <= i < MAX_FUNC_STUBS && Matches(u[i], key, kind) ::
      Matches(t[i], key, kind) || FindFree(t, key) == Some(i)
  }

  /** While nothing is freed, the free slot stays beyond all entries. */
  lemma AppendsLastKept(t: Table, u: Table, key: Key, kind: Kind)
    requires Good(t) && Good(u) && !kind.Unused? && AppendsLast(t, key, kind)
    requires FreesNothing(t, u) && AddsOnlyFirstFree(t, u, key, kind)
    ensures AppendsLast(u, key, kind)
  {
    var h := Home(key);
    ProbeIsNearest(t, h, 0, Unused, FindFree(t, key));
    ProbeIsNearest(u, h, 0, Unused, FindFree(u, key));
    if FindFree(u, key).Some? {
      var f := FindFree(u, key).value;
      assert t[f].kind.Unused? && Matches(t[f], 0, Unused);
      forall i | 0 <= i < MAX_FUNC_STUBS && Matches(u[i], key, kind)
        ensures Distance(h, i) < Distance(h, f)
      {
        assert Distance(h, FindFree(t, key).value) <= Distance(h, f);
        assert i != f;
      }
    }
  }

  lemma AppendsLastInRun(s: State, s': State, key: Key, kind: Kind)
    requires Inv(s) && Inv(s') && !kind.Unused? && AppendsLast(s.slots, key, kind)
    requires FreesNothing(s.slots, s'.slots) && AddsOnlyFirstFree(s.slots, s'.slots, key, kind)
    ensures AppendsLast(s'.slots, key, kind)
  {
    hide AppendsLast, FreesNothing, AddsOnlyFirstFree, Good;
    AppendsLastKept(s.slots, s'.slots, key, kind);
  }

  /** Every state of the run frees no slot of the state before it. */
  ghost predicate NeverFrees(s: State, ops: seq<Op>, hooks: Hooks)
    requires Inv(s)
    decreases ops
  {
    ops == [] ||
    (Step(s, ops[0], hooks).Some? ==>
       var s' := Step(s, ops[0], hooks).value.0;
       FreesNothing(s.slots, s'.slots) && NeverFrees(s', ops[1..], hooks))
  }

  /** Only the registration operation itself can add a deferred entry, and it uses the first free slot. */
  lemma DeferredOnlyAtFirstFree(s: State, op: Op, hooks: Hooks, key: Key)
    requires Inv(s) && Step(s, op, hooks).Some?
    ensures AddsOnlyFirstFree(s.slots, Step(s, op, hooks).value.0.slots, key, DeferredRc)
  {
    hide Reset, ClearDeferred, ClearOne, SetForceFail, SetHook, RegisterContext, CheckDeferred,
         CheckForceFail, Call, MarkOnce, ProbeFrom;
  }

  /** The deferred codes that a run registers for a stub. */
  function Registered(ops: seq<Op>, key: Key): (q: seq<Deferred>)
    decreases ops
  {
    if ops == [] then []
    else
      var rest := Registered(ops[1..], key);
      if Registers(ops[0], key) then [Deferred(ops[0].count, ops[0].rc)] + rest else rest
  }

  /** A run that only registers codes for this stub: no call, check, clear or reset of it. */
  predicate OnlyRegisters(ops: seq<Op>, key: Key) {
    forall op <- ops :: Touches(op, key, DeferredRc) ==> op.OpSetDeferred?
  }

  /** With no slot freed on the way, codes are queued in the order in which they were registered. */
  lemma {:induction false} RegistrationOrder(s: State, ops: seq<Op>, hooks: Hooks, key: Key)
    requires Inv(s) && Run(s, ops, hooks).Some? && AppendsLast(s.slots, key, DeferredRc)
    requires OnlyRegisters(ops, key) && NeverFrees(s, ops, hooks)
    ensures Pending(Run(s, ops, hooks).value.0.slots, key) == Pending(s.slots, key) + Registered(ops, key)
    decreases ops
  {
    hide Step, Pending, AppendsLast, FreesNothing, AddsOnlyFirstFree, Inv;
    if ops != [] {
      var op := ops[0];
      assert op in ops;
      var s' := Step(s, op, hooks).value.0;
      StepRefinesQueue(s, op, hooks, key);
      DeferredOnlyAtFirstFree(s, op, hooks, key);
      AppendsLastInRun(s, s', key, DeferredRc);
      RegistrationOrder(s', ops[1..], hooks, key);
      Assoc(Pending(s.slots, key), if Registers(op, key) then [Deferred(op.count, op.rc)] else [], Registered(ops[1..], key));
    }
  }

  // ---- The codes that calls return ----

  /** The code due on the n-th call from now, if any. */
  function Due(q: seq<Deferred>, n: nat): (r: Option<int>)
    decreases q
  {
    if q == [] || n < q[0].count then None
    else if n == q[0].count then Some(q[0].rc)
    else Due(q[1..], n - q[0].count)
  }

  /** The number of calls after which all of `q` is used up. */
  function Total(q: seq<Deferred>): nat
    decreases q
  {
    if q == [] then 0 else q[0].count + Total(q[1..])
  }

  predicate Positive(q: seq<Deferred>) {
    forall i | 0 <= i < |q| :: 0 < q[i].count
  }

  lemma {:induction false} TotalOfPrefix(q: seq<Deferred>, i: nat)
    requires Positive(q) && i < |q|
    ensures Total(q[..i + 1]) >= q[0].count + i
    decreases q
  {
    var p := q[..i + 1];
    assert p[0] == q[0] && p[1..] == q[1..][..i];
    if i > 0 {
      TotalOfPrefix(q[1..], i - 1);
    }
  }

  /** Code r_i is due on call n_1 + ... + n_i, and nothing is due on any other call. */
  lemma {:induction false} DueOnPartialSums(q: seq<Deferred>, n: nat)
    requires Positive(q) && 0 < n
    ensures Due(q, n).Some? ==> exists i | 0 <= i < |q| :: n == Total(q[..i + 1]) && Due(q, n) == Some(q[i].rc)
    ensures forall i | 0 <= i < |q| && n == Total(q[..i + 1]) :: Due(q, n) == Some(q[i].rc)
    decreases q
  {
    if q != [] {
      assert forall i | 0 <= i < |q| :: q[..i + 1][0] == q[0] && q[..i + 1][1..] == q[1..][..i];
      assert Total(q[..1]) == q[0].count by { assert q[..1][1..] == []; }
      if q[0].count < n {
        DueOnPartialSums(q[1..], n - q[0].count);
        if Due(q, n).Some? {
          var i :| 0 <= i < |q| - 1 && n - q[0].count == Total(q[1..][..i + 1]) && Due(q, n) == Some(q[1..][i].rc);
          assert q[..i + 2][1..] == q[1..][..i + 1];
        }
        forall i | 0 <= i < |q| && n == Total(q[..i + 1])
          ensures Due(q, n) == Some(q[i].rc)
        {
          assert i > 0;
          assert q[1..][i - 1] == q[i];
          assert Total(q[1..][..i]) == n - q[0].count;
        }
      } else {
        forall i | 0 <= i < |q| && n == Total(q[..i + 1])
          ensures Due(q, n) == Some(q[i].rc)
        {
          TotalOfPrefix(q, i);
        }
      }
    }
  }

  /** One tick moves every due time one call nearer. */
  lemma DueAfterTick(q: seq<Deferred>, n: nat)
    requires Positive(q) && 0 < n
    ensures Tick(q).1 == Due(q, 1) && Due(Tick(q).0, n) == Due(q, n + 1) && Positive(Tick(q).0)
  {
    if q != [] && q[0].count > 1 {
      var q' := Tick(q).0;
      assert q'[1..] == q[1..];
    }
  }

  function HeadCode(v: seq<Entry>): Option<int> {
    if v == [] || !v[0].data.Rc? then None else Some(v[0].data.rc)
  }

  /** The forced code of a stub, if one is set. */
  function ForcedOf(t: Table, key: Key): Option<int> {
    HeadCode(View(t, key, ForceFail))
  }

  function CodeOr(a: Option<int>, b: Option<int>, defaultRc: int): int {
    if a.Some? then a.value else if b.Some? then b.value else defaultRc
  }

  lemma CheckForceFailForces(t: Table, key: Key)
    requires Good(t)
    ensures CheckForceFail(t, key).1 == ForcedOf(t, key)
    ensures ForcedOf(CheckForceFail(t, key).0, key) == ForcedOf(t, key)
  {
    hide View;
    FindIsHead(t, key, ForceFail);
    var found := Find(t, key, ForceFail);
    if found.Some? {
      var Rc(count, rc) := t[found.value].data;
      HeadUpdate(t, key, ForceFail, found.value, Entry(ForceFail, key, false, Rc(NextCount(count), rc)));
    }
  }

  lemma SelectCodeSelects(t: Table, key: Key, defaultRc: int)
    requires Good(t)
    ensures SelectCode(t, key, defaultRc).1 == CodeOr(Tick(Pending(t, key)).1, ForcedOf(t, key), defaultRc)
    ensures ForcedOf(SelectCode(t, key, defaultRc).0, key) == ForcedOf(t, key)
  {
    hide View, Pending, CheckDeferred, CheckForceFail, Tick;
    CheckDeferredTicks(t, key);
    var t1 := CheckDeferred(t, key).0;
    CheckDeferredFrame(t, key, key, ForceFail);
    CheckForceFailForces(t1, key);
  }

  /** Without a hook, a call returns the due deferred code, else the forced code, else the default. */
  lemma CallReturns(t: Table, key: Key, defaultRc: int, hooks: Hooks)
    requires Good(t) && Call(t, key, defaultRc, hooks).Some? && View(t, key, CallbackHook) == []
    ensures var (t', rc) := Call(t, key, defaultRc, hooks).value;
      && rc == CodeOr(Tick(Pending(t, key)).1, ForcedOf(t, key), defaultRc)
      && ForcedOf(t', key) == ForcedOf(t, key)
      && View(t', key, CallbackHook) == []
  {
    hide View, Pending, SelectCode, CountCall, ClearOne, Tick, ContextOf;
    SelectCodeSelects(t, key, defaultRc);
    CallCodeViews(t, key, defaultRc, hooks, ForceFail);
    CallFrame(t, key, defaultRc, hooks, key, CallbackHook);
    var (t1, rc) := SelectCode(t, key, defaultRc);
    SelectCodeFrame(t, key, defaultRc, key, CallbackHook);
    CountCallFrame(t1, key, rc, key, CallbackHook);
    FindIsHead(CountCall(t1, key, rc).value.0, key, CallbackHook);
  }

  /** A run in which nothing but calls of the stub affects its deferred codes, forced code or hook. */
  predicate OnlyCalls(ops: seq<Op>, key: Key) {
    forall op <- ops ::
      && (Touches(op, key, DeferredRc) || Touches(op, key, ForceFail) ==> op.OpCall?)
      && !Touches(op, key, CallbackHook)
  }

  /** The calls of a stub in a run: the default code passed in and the code returned, in order. */
  function CallsOf(ops: seq<Op>, replies: seq<Reply>, key: Key): seq<(int, int)>
    requires |ops| == |replies|
    decreases ops
  {
    if ops == [] then []
    else
      var rest := CallsOf(ops[1..], replies[1..], key);
      if ops[0].OpCall? && ops[0].key == key && replies[0].Returned?
      then [(ops[0].defaultRc, replies[0].rc)] + rest
      else rest
  }

  /** The entries of a good table that are pending have positive counts. */
  lemma PendingPositive(t: Table, key: Key)
    requires Good(t)
    ensures Positive(Pending(t, key))
  {
    hide ViewRange;
    ViewMembers(t, Home(key), key, DeferredRc, 0, |t|);
    var v := View(t, key, DeferredRc);
    forall i | 0 <= i < |v|
      ensures 0 < AsPending(v)[i].count
    {
      assert v[i] in v;
    }
  }

  lemma {:induction false} ViewMembers(t: Table, home: nat, key: Key, kind: Kind, lo: nat, hi: nat)
    requires home < MAX_FUNC_STUBS && lo <= hi <= MAX_FUNC_STUBS && Good(t)
    ensures forall e <- ViewRange(t, home, key, kind, lo, hi) :: Matches(e, key, kind) && WellFormed(e)
    decreases hi - lo
  {
    if lo < hi {
      ViewMembers(t, home, key, kind, lo + 1, hi);
    }
  }

  predicate CallsFollow(calls: seq<(int, int)>, q: seq<Deferred>, forced: Option<int>) {
    forall m | 0 <= m < |calls| :: calls[m].1 == CodeOr(Due(q, m + 1), forced, calls[m].0)
  }

  lemma CallsFollowCons(defaultRc: int, calls: seq<(int, int)>, q: seq<Deferred>, forced: Option<int>)
    requires Positive(q) && CallsFollow(calls, Tick(q).0, forced)
    ensures CallsFollow([(defaultRc, CodeOr(Tick(q).1, forced, defaultRc))] + calls, q, forced)
  {
    var all := [(defaultRc, CodeOr(Tick(q).1, forced, defaultRc))] + calls;
    forall m | 0 <= m < |all|
      ensures all[m].1 == CodeOr(Due(q, m + 1), forced, all[m].0)
    {
      if m == 0 {
        DueAfterTick(q, 1);
      } else {
        DueAfterTick(q, m);
        assert all[m] == calls[m - 1];
      }
    }
  }

  /** What the m-th call of a stub returns, over every run that leaves its codes alone. */
  lemma {:induction false} CallsReturnDueCodes(s: State, ops: seq<Op>, hooks: Hooks, key: Key)
    requires Inv(s) && Run(s, ops, hooks).Some? && OnlyCalls(ops, key) && View(s.slots, key, CallbackHook) == []
    ensures CallsFollow(CallsOf(ops, Run(s, ops, hooks).value.1, key), Pending(s.slots, key), ForcedOf(s.slots, key))
    decreases ops
  {
    hide Step, View, Pending, Tick, Good, CallsFollow, CodeOr;
    if ops == [] {
      CallsFollowNothing(Pending(s.slots, key), ForcedOf(s.slots, key));
    } else {
      var op := ops[0];
      assert op in ops;
      assert OnlyCalls(ops[1..], key);
      var (s', reply) := Step(s, op, hooks).value;
      QuietStep(s, op, hooks, key);
      CallsReturnDueCodes(s', ops[1..], hooks, key);
      var replies := Run(s, ops, hooks).value.1;
      assert replies[0] == reply && replies[1..] == Run(s', ops[1..], hooks).value.1;
      if op.OpCall? && op.key == key {
        PendingPositive(s.slots, key);
        CallsFollowCons(op.defaultRc, CallsOf(ops[1..], replies[1..], key), Pending(s.slots, key), ForcedOf(s.slots, key));
      }
    }
  }

  lemma CallsFollowNothing(q: seq<Deferred>, forced: Option<int>)
    ensures CallsFollow([], q, forced)
  {
  }

  lemma QuietStep(s: State, op: Op, hooks: Hooks, key: Key)
    requires Inv(s) && Step(s, op, hooks).Some? && OnlyCalls([op], key) && View(s.slots, key, CallbackHook) == []
    ensures var (s', reply) := Step(s, op, hooks).value;
      && Pending(s'.slots, key)
           == (if op.OpCall? && op.key == key then Tick(Pending(s.slots, key)).0 else Pending(s.slots, key))
      && ForcedOf(s'.slots, key) == ForcedOf(s.slots, key)
      && View(s'.slots, key, CallbackHook) == []
      && (op.OpCall? && op.key == key ==>
            reply == Returned(CodeOr(Tick(Pending(s.slots, key)).1, ForcedOf(s.slots, key), op.defaultRc)))
  {
    hide View, Call, Tick, AsPending;
    assert op in [op];
    StepFrame(s, op, hooks, key, CallbackHook);
    StepRefinesQueue(s, op, hooks, key);
    if op.OpCall? && op.key == key {
      CallReturns(s.slots, key, op.defaultRc, hooks);
    } else {
      StepFrame(s, op, hooks, key, ForceFail);
      StepFrame(s, op, hooks, key, DeferredRc);
    }
  }

  /**
   The documented behaviour of deferred codes. A stub with none pending registers codes
   (n_1, r_1) .. (n_k, r_k) in a run that frees no slot; then, in any run that leaves them
   alone, call n_1 + ... + n_i returns r_i and every other call the forced or default code.
   */
  lemma DeferredCodesInOrder(s: State, setup: seq<Op>, ops: seq<Op>, hooks: Hooks, key: Key)
    requires Inv(s) && Run(s, setup, hooks).Some? && Pending(s.slots, key) == []
    requires OnlyRegisters(setup, key) && NeverFrees(s, setup, hooks)
    requires var s1 := Run(s, setup, hooks).value.0;
      Run(s1, ops, hooks).Some? && OnlyCalls(ops, key) && View(s1.slots, key, CallbackHook) == []
    ensures var s1 := Run(s, setup, hooks).value.0;
      && CallsFollow(CallsOf(ops, Run(s1, ops, hooks).value.1, key), Registered(setup, key), ForcedOf(s1.slots, key))
      && Positive(Registered(setup, key))
  {
    hide Run, View, AsPending, CallsFollow;
    NothingPendingAppendsLast(s.slots, key);
    RegistrationOrder(s, setup, hooks, key);
    var s1 := Run(s, setup, hooks).value.0;
    assert [] + Registered(setup, key) == Registered(setup, key);
    PendingPositive(s1.slots, key);
    CallsReturnDueCodes(s1, ops, hooks, key);
  }

  // ---- A condition that a test can see in its own text ----

  /** Set-up operations: they register things and never remove anything. */
  predicate SetsUp(op: Op) {
    || op.OpSetDeferred? || op.OpSetForceFail? || op.OpSetData? || op.OpContext?
    || (op.OpSetHook? && op.callback.address != 0)
  }

  lemma SetUpFreesNothing(s: State, op: Op, hooks: Hooks)
    requires Inv(s) && Step(s, op, hooks).Some? && SetsUp(op)
    ensures FreesNothing(s.slots, Step(s, op, hooks).value.0.slots)
  {
    hide Good, MemoryHolds, ProbeFrom;
  }

  /** A run of set-up operations only, for any keys, frees no slot. */
  lemma {:induction false} SetUpNeverFrees(s: State, ops: seq<Op>, hooks: Hooks)
    requires Inv(s) && forall op <- ops :: SetsUp(op)
    ensures NeverFrees(s, ops, hooks)
    decreases ops
  {
    hide Step, FreesNothing, Inv, SetsUp;
    if ops != [] && Step(s, ops[0], hooks).Some? {
      assert ops[0] in ops;
      SetUpFreesNothing(s, ops[0], hooks);
      SetUpNeverFrees(Step(s, ops[0], hooks).value.0, ops[1..], hooks);
    }
  }

  /**
   The documented order, for the usual shape of a test: set everything up, then exercise the
   code. The condition is about the text of the test only.
   */
  lemma SetUpThenCalls(s: State, setup: seq<Op>, ops: seq<Op>, hooks: Hooks, key: Key)
    requires Inv(s) && Run(s, setup, hooks).Some? && Pending(s.slots, key) == []
    requires forall op <- setup :: SetsUp(op)
    requires var s1 := Run(s, setup, hooks).value.0;
      Run(s1, ops, hooks).Some? && OnlyCalls(ops, key) && View(s1.slots, key, CallbackHook) == []
    ensures var s1 := Run(s, setup, hooks).value.0;
      CallsFollow(CallsOf(ops, Run(s1, ops, hooks).value.1, key), Registered(setup, key), ForcedOf(s1.slots, key))
  {
    hide Run, View, AsPending, CallsFollow, NeverFrees;
    SetUpNeverFrees(s, setup, hooks);
    DeferredCodesInOrder(s, setup, ops, hooks, key);
  }

  lemma NothingPendingAppendsLast(t: Table, key: Key)
    requires Pending(t, key) == []
    ensures AppendsLast(t, key, DeferredRc)
  {
    assert |View(t, key, DeferredRc)| == |Pending(t, key)|;
    ViewRangeEmpty(t, Home(key), key, DeferredRc, 0, |t|);
  }

  // ---- The order fails once a nearer slot is freed ----

  lemma FreeSlotIs(t: Table, key: Key, i: nat)
    requires i < MAX_FUNC_STUBS && Matches(t[i], 0, Unused)
    requires forall j | 0 <= j < MAX_FUNC_STUBS && Distance(Home(key), j) < Distance(Home(key), i) :: !t[j].kind.Unused?
    ensures FindFree(t, key) == Some(i)
  {
    ProbeIsNearest(t, Home(key), 0, Unused, Some(i));
  }

  /** Selecting a code uses no free slot. */
  lemma SelectKeepsFree(t: Table, key: Key, defaultRc: int, i: nat)
    requires Good(t) && i < MAX_FUNC_STUBS && t[i].kind.Unused?
    ensures SelectCode(t, key, defaultRc).0[i].kind.Unused?
  {
    hide ProbeFrom;
  }

  /** A call goes through if there is a free slot or the stub already has a counter. */
  lemma CallGoesThrough(t: Table, key: Key, defaultRc: int, hooks: Hooks, i: nat)
    requires Good(t) && i < MAX_FUNC_STUBS && (t[i].kind.Unused? || View(t, key, Counter) != [])
    ensures Call(t, key, defaultRc, hooks).Some?
    ensures View(Call(t, key, defaultRc, hooks).value.0, key, Counter) != []
  {
    hide View, ViewRange, SelectCode, ProbeFrom, HookedCode, ClearOne;
    var (t1, rc) := SelectCode(t, key, defaultRc);
    SelectCodeFrame(t, key, defaultRc, key, Counter);
    FindIsHead(t1, key, Counter);
    if t[i].kind.Unused? {
      SelectKeepsFree(t, key, defaultRc, i);
      ProbeIsNearest(t1, Home(key), 0, Unused, FindFree(t1, key));
      assert t1[i] == ZERO_ENTRY && Matches(t1[i], 0, Unused);
    }
    var t2 := CountCall(t1, key, rc).value.0;
    SlotForIsAlone(t1, key, Counter);
    UpsertView(t1, key, Counter, SlotFor(t1, key, Counter).value, t2[SlotFor(t1, key, Counter).value]);
    ClearOneFrame(t2, key, CallbackContext, key, Counter);
  }

  /** Two calls of a stub, and what they reply. */
  lemma TwoCalls(s: State, key: Key, hooks: Hooks, i: nat)
    requires Inv(s) && i < MAX_FUNC_STUBS && s.slots[i].kind.Unused? && View(s.slots, key, CallbackHook) == []
    ensures var ops := [OpCall(key, 0), OpCall(key, 0)];
      && Run(s, ops, hooks).Some?
      && var q := Pending(s.slots, key);
         Run(s, ops, hooks).value.1
           == [Returned(CodeOr(Due(q, 1), ForcedOf(s.slots, key), 0)), Returned(CodeOr(Due(q, 2), ForcedOf(s.slots, key), 0))]
  {
    hide View, Call, Pending, ForcedOf, Tick, Due;
    var ops, op := [OpCall(key, 0), OpCall(key, 0)], OpCall(key, 0);
    CallGoesThrough(s.slots, key, 0, hooks, i);
    var (s1, r1) := Step(s, op, hooks).value;
    CallGoesThrough(s1.slots, key, 0, hooks, i);
    var (s2, r2) := Step(s1, op, hooks).value;
    QuietStep(s, op, hooks, key);
    QuietStep(s1, op, hooks, key);
    PendingPositive(s.slots, key);
    DueAfterTick(Pending(s.slots, key), 1);
    PendingPositive(s1.slots, key);
    DueAfterTick(Pending(s1.slots, key), 1);
    RunTwo(s, s1, s2, r1, r2, op, hooks);
  }

  lemma RunTwo(s: State, s1: State, s2: State, r1: Reply, r2: Reply, op: Op, hooks: Hooks)
    requires Inv(s) && Inv(s1) && Step(s, op, hooks) == Some((s1, r1)) && Step(s1, op, hooks) == Some((s2, r2))
    ensures Run(s, [op, op], hooks) == Some((s2, [r1, r2]))
  {
    hide Step, Inv;
    assert [op, op][1..] == [op] && [op][1..] == [];
    assert Run(s2, [], hooks) == Some((s2, []));
    assert [r2] + [] == [r2] && [r1] + [r2] == [r1, r2];
    assert Run(s1, [op], hooks) == Some((s2, [r2]));
  }

  const LATER_FIRST: seq<Op> :=
    [OpSetDeferred(200, 1, 5), OpSetDeferred(1, 1, 10), OpClearDeferred(200), OpSetDeferred(1, 1, 20)]

  /**
   Keys 1 and 200 share a home slot. Key 200 takes it, key 1 registers code 10, key 200 is
   cleared, and key 1 registers code 20. The next two calls of stub 1 return 20 and then 10.
   */
  lemma LaterCodeCanComeFirst(hooks: Hooks)
    ensures Registered(LATER_FIRST, 1) == [Deferred(1, 10), Deferred(1, 20)]
    ensures var ops := LATER_FIRST + [OpCall(1, 0), OpCall(1, 0)];
      && Run(State(EmptyTable(), map[]), ops, hooks).Some?
      && Run(State(EmptyTable(), map[]), ops, hooks).value.1[4..] == [Returned(20), Returned(10)]
  {
    var ops := LATER_FIRST;
    RegisteredFour(ops[0], ops[1], ops[2], ops[3]);
    var s0 := State(EmptyTable(), map[]);
    var s4 := LaterCodeIsQueuedFirst(hooks);
    hide Run, View, Registered, CodeOr;
    TwoCalls(s4, 1, hooks, 5);
    RunConcat(s0, ops, [OpCall(1, 0), OpCall(1, 0)], hooks);
    DueInOrder();
    var first := Run(s0, ops, hooks).value.1;
    var all := Run(s0, ops + [OpCall(1, 0), OpCall(1, 0)], hooks).value.1;
    assert |first| == 4;
    assert all[4..] == Run(s4, [OpCall(1, 0), OpCall(1, 0)], hooks).value.1;
  }

  lemma DueInOrder()
    ensures var q := [Deferred(1, 20), Deferred(1, 10)];
      forall forced: Option<int> :: CodeOr(Due(q, 1), forced, 0) == 20 && CodeOr(Due(q, 2), forced, 0) == 10
  {
    var q := [Deferred(1, 20), Deferred(1, 10)];
    assert q[1..] == [Deferred(1, 10)];
    assert Due(q, 1) == Some(20);
    assert Due(q, 2) == Due(q[1..], 1) == Some(10);
  }

  lemma LaterCodeIsQueuedFirst(hooks: Hooks) returns (s4: State)
    ensures Run(State(EmptyTable(), map[]), LATER_FIRST, hooks).Some?
    ensures Run(State(EmptyTable(), map[]), LATER_FIRST, hooks).value.0 == s4
    ensures Inv(s4) && s4.slots[5].kind.Unused? && View(s4.slots, 1, CallbackHook) == []
    ensures Pending(s4.slots, 1) == [Deferred(1, 20), Deferred(1, 10)]
  {
    hide View, Run, Step, Pending, ClearDeferred, Good;
    var t0 := EmptyTable();
    var t1: Table := t0[1 := DeferredEntry(200, 1, 5)];
    var t2: Table := t1[2 := DeferredEntry(1, 1, 10)];
    var t3 := ClearDeferred(t2, 200);
    var t4: Table := t3[1 := DeferredEntry(1, 1, 20)];
    s4 := State(t4, map[]);
    FirstTwoSteps(hooks);
    LastTwoSteps(hooks);
    RunFour(State(t0, map[]), State(t1, map[]), State(t2, map[]), State(t3, map[]), s4, LATER_FIRST, hooks);
    LaterCodeIsNearer(t2, t3, t4);
    NoHookIn(t4, 1);
  }

  lemma NoHookIn(t: Table, key: Key)
    requires forall i | 0 <= i < MAX_FUNC_STUBS :: !t[i].kind.CallbackHook?
    ensures View(t, key, CallbackHook) == []
  {
    ViewRangeEmpty(t, Home(key), key, CallbackHook, 0, |t|);
  }

  lemma RegisteredFour(a: Op, b: Op, c: Op, d: Op)
    requires a == OpSetDeferred(200, 1, 5) && b == OpSetDeferred(1, 1, 10) && c == OpClearDeferred(200)
    requires d == OpSetDeferred(1, 1, 20)
    ensures Registered([a, b, c, d], 1) == [Deferred(1, 10), Deferred(1, 20)]
  {
    assert [a, b, c, d][1..] == [b, c, d] && [b, c, d][1..] == [c, d] && [c, d][1..] == [d] && [d][1..] == [];
    assert Registered([d], 1) == [Deferred(1, 20)];
    assert Registered([c, d], 1) == [Deferred(1, 20)];
  }

  lemma FirstTwoSteps(hooks: Hooks)
    ensures var t0 := EmptyTable();
      var t1: Table := t0[1 := DeferredEntry(200, 1, 5)];
      var t2: Table := t1[2 := DeferredEntry(1, 1, 10)];
      && Step(State(t0, map[]), OpSetDeferred(200, 1, 5), hooks) == Some((State(t1, map[]), Done))
      && Inv(State(t1, map[]))
      && Step(State(t1, map[]), OpSetDeferred(1, 1, 10), hooks) == Some((State(t2, map[]), Done))
  {
    var t0 := EmptyTable();
    var t1: Table := t0[1 := DeferredEntry(200, 1, 5)];
    FreeSlotIs(t0, 200, 1);
    GoodUpdate(t0, 1, DeferredEntry(200, 1, 5));
    FreeSlotIs(t1, 1, 2);
  }

  lemma LastTwoSteps(hooks: Hooks)
    ensures var t1: Table := EmptyTable()[1 := DeferredEntry(200, 1, 5)];
      var t2: Table := t1[2 := DeferredEntry(1, 1, 10)];
      var t3 := ClearDeferred(t2, 200);
      var t4: Table := t3[1 := DeferredEntry(1, 1, 20)];
      && Inv(State(t2, map[])) && Inv(State(t3, map[]))
      && Step(State(t2, map[]), OpClearDeferred(200), hooks) == Some((State(t3, map[]), Done))
      && Step(State(t3, map[]), OpSetDeferred(1, 1, 20), hooks) == Some((State(t4, map[]), Done))
  {
    var t1: Table := EmptyTable()[1 := DeferredEntry(200, 1, 5)];
    var t2: Table := t1[2 := DeferredEntry(1, 1, 10)];
    GoodUpdate(EmptyTable(), 1, DeferredEntry(200, 1, 5));
    GoodUpdate(t1, 2, DeferredEntry(1, 1, 10));
    FreeSlotIs(ClearDeferred(t2, 200), 1, 1);
  }

  lemma RunFour(s0: State, s1: State, s2: State, s3: State, s4: State, ops: seq<Op>, hooks: Hooks)
    requires |ops| == 4 && Inv(s0) && Inv(s1) && Inv(s2) && Inv(s3)
    requires Step(s0, ops[0], hooks) == Some((s1, Done)) && Step(s1, ops[1], hooks) == Some((s2, Done))
    requires Step(s2, ops[2], hooks) == Some((s3, Done)) && Step(s3, ops[3], hooks) == Some((s4, Done))
    ensures Run(s0, ops, hooks).Some? && Run(s0, ops, hooks).value.0 == s4
  {
    hide Step, Inv;
    assert Run(s4, ops[1..][1..][1..][1..], hooks) == Some((s4, []));
    assert Run(s3, ops[1..][1..][1..], hooks).Some?;
    assert Run(s2, ops[1..][1..], hooks).Some?;
  }

  lemma LaterCodeIsNearer(t2: Table, t3: Table, t4: Table)
    requires t2 == EmptyTable()[1 := DeferredEntry(200, 1, 5)][2 := DeferredEntry(1, 1, 10)]
    requires t3 == ClearDeferred(t2, 200) && t4 == t3[1 := DeferredEntry(1, 1, 20)]
    ensures Pending(t4, 1) == [Deferred(1, 20), Deferred(1, 10)]
  {
    hide View, ViewRange;
    var old1, new1 := DeferredEntry(1, 1, 10), DeferredEntry(1, 1, 20);
    assert t3 == EmptyTable()[2 := old1];
    EmptyViewOfEmptyTable(1, DeferredRc);
    ViewUpdate(EmptyTable(), 1, DeferredRc, 2, old1);
    var b, a := Before(EmptyTable(), 1, DeferredRc, 2), After(EmptyTable(), 1, DeferredRc, 2);
    assert b == [] && a == [];
    DropEmptyFront(b, [old1], a);
    GoodUpdate(EmptyTable(), 2, old1);
    FreeSlotIs(t3, 1, 1);
    var j := InsertOrder(t3, new1);
    assert Matches(t3[2], 1, DeferredRc);
    assert j == 0;
    assert View(t4, 1, DeferredRc) == [new1, old1];
  }

  lemma EmptyViewOfEmptyTable(key: Key, kind: Kind)
    requires !kind.Unused?
    ensures View(EmptyTable(), key, kind) == []
  {
    ViewRangeEmpty(EmptyTable(), Home(key), key, kind, 0, |EmptyTable()|);
  }
}
