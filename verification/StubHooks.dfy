/**
 What a callback hook of a stub is given, over every run: the code that the stub selected, the
 number of calls since it was reset, and the parameters registered since its last call
 (osal/ut_assert/src/utstubs.c, UT_DefaultStubImplWithArgs and UT_Stub_RegisterContext).
 */
module StubHooks {
  import opened Basics
  import opened StubEntries
  import opened StubSpec
  import opened StubViews
  import opened StubRuns
  import opened StubCodes

  /** At most one entry of a unique kind is in view. */
  lemma UniqueView(t: Table, key: Key, kind: Kind)
    requires Good(t) && UniqueKind(kind)
    ensures View(t, key, kind) == [] || (|View(t, key, kind)| == 1 && Matches(View(t, key, kind)[0], key, kind))
  {
    hide View, ViewRange, ProbeFrom;
    FindIsHead(t, key, kind);
    if Find(t, key, kind).Some? {
      var i := Find(t, key, kind).value;
      SlotForIsAlone(t, key, kind);
      NothingAfter(t, key, kind, i);
    }
  }

  lemma NothingAfter(t: Table, key: Key, kind: Kind, i: nat)
    requires i < MAX_FUNC_STUBS && forall j | 0 <= j < MAX_FUNC_STUBS && j != i :: !Matches(t[j], key, kind)
    ensures After(t, key, kind, i) == []
  {
    ViewRangeEmpty(t, Home(key), key, kind, Distance(Home(key), i) + 1, |t|);
  }

  // ---- The hook and the parameters of a stub ----

  function HeadCallback(v: seq<Entry>): Option<Callback> {
    if v == [] || !v[0].data.Cb? then None else Some(v[0].data.callback)
  }

  function HeadArgs(v: seq<Entry>): seq<int> {
    if v == [] || !v[0].data.Context? then [] else v[0].data.args
  }

  /** The hook that is set for a stub. */
  function HookOf(t: Table, key: Key): Option<Callback> {
    HeadCallback(View(t, key, CallbackHook))
  }

  /** The parameters registered for the next call of a stub. */
  function ParamsOf(t: Table, key: Key): seq<int> {
    HeadArgs(View(t, key, CallbackContext))
  }

  /** The hook of a stub after an operation: the last one that was set, until it is removed or reset. */
  function HookAfter(h: Option<Callback>, op: Op, key: Key): Option<Callback> {
    if Resets(op, key) then None
    else if op.OpSetHook? && op.key == key then if op.callback.address == 0 then None else Some(op.callback)
    else h
  }

  /** The parameters after an operation: those since the last call or reset, the first four at most. */
  function ParamsAfter(q: seq<int>, op: Op, key: Key): seq<int> {
    if Resets(op, key) || (op.OpCall? && op.key == key) then []
    else if op.OpContext? && op.key == key && |q| < 4 then q + [op.parameter]
    else q
  }

  lemma EmptyHeads()
    ensures HeadCallback([]) == None && HeadArgs([]) == []
  {
  }

  lemma StepHook(s: State, op: Op, hooks: Hooks, key: Key)
    requires Inv(s) && Step(s, op, hooks).Some?
    ensures HookOf(Step(s, op, hooks).value.0.slots, key) == HookAfter(HookOf(s.slots, key), op, key)
  {
    hide View, Call, ClearOne, ProbeFrom;
    EmptyHeads();
    var t := s.slots;
    if !Touches(op, key, CallbackHook) {
      StepFrame(s, op, hooks, key, CallbackHook);
    } else if op.OpReset? {
      ResetView(t, op.key, key, CallbackHook);
    } else if op.callback.address == 0 {
      ClearOneView(t, key, CallbackHook);
      UniqueView(t, key, CallbackHook);
    } else {
      UpsertView(t, key, CallbackHook, SlotFor(t, key, CallbackHook).value, Entry(CallbackHook, key, false, Cb(op.callback)));
    }
  }

  lemma ContextAppends(t: Table, key: Key, parameter: int)
    requires Good(t) && RegisterContext(t, key, parameter).Some?
    ensures var q := ParamsOf(t, key);
      ParamsOf(RegisterContext(t, key, parameter).value, key) == if |q| < 4 then q + [parameter] else q
  {
    hide View, ProbeFrom;
    var u := RegisterContext(t, key, parameter).value;
    var i := SlotFor(t, key, CallbackContext).value;
    SlotForIsAlone(t, key, CallbackContext);
    UpsertView(t, key, CallbackContext, i, u[i]);
    FindIsHead(t, key, CallbackContext);
  }

  lemma CallClearsContext(t: Table, key: Key, defaultRc: int, hooks: Hooks)
    requires Good(t) && Call(t, key, defaultRc, hooks).Some?
    ensures ParamsOf(Call(t, key, defaultRc, hooks).value.0, key) == []
  {
    hide View, SelectCode, CountCall, ClearOne, HookedCode;
    var (t1, rc) := SelectCode(t, key, defaultRc);
    var t2 := CountCall(t1, key, rc).value.0;
    ClearOneView(t2, key, CallbackContext);
    UniqueView(t2, key, CallbackContext);
  }

  lemma StepParams(s: State, op: Op, hooks: Hooks, key: Key)
    requires Inv(s) && Step(s, op, hooks).Some?
    ensures ParamsOf(Step(s, op, hooks).value.0.slots, key) == ParamsAfter(ParamsOf(s.slots, key), op, key)
  {
    hide View, Call, RegisterContext, HeadArgs;
    EmptyHeads();
    if !Touches(op, key, CallbackContext) {
      StepFrame(s, op, hooks, key, CallbackContext);
    } else if op.OpReset? {
      ResetView(s.slots, op.key, key, CallbackContext);
    } else if op.OpContext? {
      ContextAppends(s.slots, key, op.parameter);
    } else {
      CallClearsContext(s.slots, key, op.defaultRc, hooks);
    }
  }

  // ---- One call ----

  /** What a call returns: the selected code, or what the hook makes of it. */
  function Outcome(h: Option<Callback>, code: int, count: nat, params: seq<int>, hooks: Hooks): int {
    if h.None? then code else hooks(h.value, code, count, if params == [] then None else Some(params))
  }

  lemma HookFound(t: Table, key: Key, rc: int, count: nat, hooks: Hooks)
    requires Good(t)
    ensures HookedCode(t, key, rc, count, hooks) == Outcome(HookOf(t, key), rc, count, ParamsOf(t, key), hooks)
  {
    hide View, ProbeFrom;
    FindIsHead(t, key, CallbackHook);
    FindIsHead(t, key, CallbackContext);
  }

  lemma CountBefore(t: Table, key: Key, rc: int)
    requires Good(t) && CountCall(t, key, rc).Some?
    ensures CountCall(t, key, rc).value.1 == CountOf(t, key)
  {
    hide View, ProbeFrom;
    FindIsHead(t, key, Counter);
    SlotForIsAlone(t, key, Counter);
  }

  /** The hook is given the selected code, the number of earlier calls and the parameters. */
  lemma CallOutcome(t: Table, key: Key, defaultRc: int, hooks: Hooks)
    requires Good(t) && Call(t, key, defaultRc, hooks).Some?
    ensures Call(t, key, defaultRc, hooks).value.1
         == Outcome(HookOf(t, key), CodeOr(Tick(Pending(t, key)).1, ForcedOf(t, key), defaultRc), CountOf(t, key),
                    ParamsOf(t, key), hooks)
  {
    hide View, SelectCode, CountCall, ClearOne, HookedCode, Pending, Tick, CodeOr, Outcome, ForcedOf, HeadCount, HeadArgs, HeadCallback;
    var (t1, rc) := SelectCode(t, key, defaultRc);
    SelectCodeSelects(t, key, defaultRc);
    SelectCodeFrame(t, key, defaultRc, key, Counter);
    SelectCodeFrame(t, key, defaultRc, key, CallbackHook);
    SelectCodeFrame(t, key, defaultRc, key, CallbackContext);
    CountBefore(t1, key, rc);
    var (t2, count) := CountCall(t1, key, rc).value;
    CountCallFrame(t1, key, rc, key, CallbackHook);
    CountCallFrame(t1, key, rc, key, CallbackContext);
    HookFound(t2, key, rc, count, hooks);
  }

  // ---- Runs ----

  function HookAfterAll(h: Option<Callback>, ops: seq<Op>, key: Key): Option<Callback>
    decreases ops
  {
    if ops == [] then h else HookAfterAll(HookAfter(h, ops[0], key), ops[1..], key)
  }

  function ParamsAfterAll(q: seq<int>, ops: seq<Op>, key: Key): seq<int>
    decreases ops
  {
    if ops == [] then q else ParamsAfterAll(ParamsAfter(q, ops[0], key), ops[1..], key)
  }

  lemma {:induction false} RunHook(s: State, ops: seq<Op>, hooks: Hooks, key: Key)
    requires Inv(s) && Run(s, ops, hooks).Some?
    ensures var t := Run(s, ops, hooks).value.0.slots;
      && HookOf(t, key) == HookAfterAll(HookOf(s.slots, key), ops, key)
      && ParamsOf(t, key) == ParamsAfterAll(ParamsOf(s.slots, key), ops, key)
    decreases ops
  {
    hide Step, HookOf, ParamsOf, HookAfter, ParamsAfter, Inv;
    if ops != [] {
      StepHook(s, ops[0], hooks, key);
      StepParams(s, ops[0], hooks, key);
      RunHook(Step(s, ops[0], hooks).value.0, ops[1..], hooks, key);
    }
  }

  // ---- The forced code and the pending codes, from the operations ----

  /** The forced code after an operation: the last one that was set, until it is cleared or reset. */
  function ForcedAfter(f: Option<int>, op: Op, key: Key): Option<int> {
    if Resets(op, key) || (op.OpClearForceFail? && op.key == key) then None
    else if op.OpSetForceFail? && op.key == key then Some(op.value)
    else f
  }

  function ForcedAfterAll(f: Option<int>, ops: seq<Op>, key: Key): Option<int>
    decreases ops
  {
    if ops == [] then f else ForcedAfterAll(ForcedAfter(f, ops[0], key), ops[1..], key)
  }

  lemma EmptyHeadCode()
    ensures HeadCode([]) == None
  {
  }

  lemma SetForceFailForces(t: Table, key: Key, value: int)
    requires Good(t) && SetForceFail(t, key, value).Some?
    ensures ForcedOf(SetForceFail(t, key, value).value, key) == Some(value)
  {
    hide View, ProbeFrom;
    SlotForIsAlone(t, key, ForceFail);
    var i := SlotFor(t, key, ForceFail).value;
    UpsertView(t, key, ForceFail, i, SetForceFail(t, key, value).value[i]);
  }

  lemma CallKeepsForced(t: Table, key: Key, defaultRc: int, hooks: Hooks)
    requires Good(t) && Call(t, key, defaultRc, hooks).Some?
    ensures ForcedOf(Call(t, key, defaultRc, hooks).value.0, key) == ForcedOf(t, key)
  {
    hide View, Call, SelectCode, HeadCode;
    CallCodeViews(t, key, defaultRc, hooks, ForceFail);
    SelectCodeSelects(t, key, defaultRc);
  }

  lemma StepForced(s: State, op: Op, hooks: Hooks, key: Key)
    requires Inv(s) && Step(s, op, hooks).Some?
    ensures ForcedOf(Step(s, op, hooks).value.0.slots, key) == ForcedAfter(ForcedOf(s.slots, key), op, key)
  {
    hide View, Call, ClearOne, SetForceFail, CheckForceFail, HeadCode;
    EmptyHeadCode();
    var t := s.slots;
    if !Touches(op, key, ForceFail) {
      StepFrame(s, op, hooks, key, ForceFail);
    } else {
      match op
      case OpReset(k) => ResetView(t, k, key, ForceFail);
      case OpSetForceFail(k, value) => SetForceFailForces(t, key, value);
      case OpClearForceFail(k) =>
        ClearOneView(t, key, ForceFail);
        UniqueView(t, key, ForceFail);
      case OpCheckForceFail(k) => CheckForceFailForces(t, key);
      case OpCall(k, defaultRc) => CallKeepsForced(t, key, defaultRc, hooks);
    }
  }

  /** The pending deferred codes after a run whose registrations find their slots in order. */
  function PendingAfterAll(q: seq<Deferred>, ops: seq<Op>, key: Key): seq<Deferred>
    decreases ops
  {
    if ops == [] then q else PendingAfterAll(PendingStep(q, ops[0], key), ops[1..], key)
  }

  ghost predicate RunsInOrder(s: State, ops: seq<Op>, hooks: Hooks, key: Key)
    requires Inv(s)
    decreases ops
  {
    ops == [] ||
    (&& InOrder(s, ops[0], key)
     && (Step(s, ops[0], hooks).Some? ==> RunsInOrder(Step(s, ops[0], hooks).value.0, ops[1..], hooks, key)))
  }

  lemma {:induction false} RunForced(s: State, ops: seq<Op>, hooks: Hooks, key: Key)
    requires Inv(s) && Run(s, ops, hooks).Some?
    ensures ForcedOf(Run(s, ops, hooks).value.0.slots, key) == ForcedAfterAll(ForcedOf(s.slots, key), ops, key)
    decreases ops
  {
    hide Step, ForcedOf, ForcedAfter, Inv;
    if ops != [] {
      StepForced(s, ops[0], hooks, key);
      RunForced(Step(s, ops[0], hooks).value.0, ops[1..], hooks, key);
    }
  }

  lemma {:induction false} RunPending(s: State, ops: seq<Op>, hooks: Hooks, key: Key)
    requires Inv(s) && Run(s, ops, hooks).Some? && RunsInOrder(s, ops, hooks, key)
    ensures Pending(Run(s, ops, hooks).value.0.slots, key) == PendingAfterAll(Pending(s.slots, key), ops, key)
    decreases ops
  {
    hide Step, Pending, PendingStep, Inv, InOrder;
    if ops != [] {
      StepRefinesQueue(s, ops[0], hooks, key);
      RunPending(Step(s, ops[0], hooks).value.0, ops[1..], hooks, key);
    }
  }

  /**
   After every run, a call of a stub returns what its hook makes of the selected code, the
   number of calls since the last reset, and the first four parameters registered since the
   last call or reset; the hook is the last one that was set, and without one the selected
   code is returned. The selected code is the due deferred one, else the last forced one, else
   the default. Only the due deferred code is read from the table here.
   */
  lemma HookGetsWhatHappened(s: State, ops: seq<Op>, hooks: Hooks, key: Key, defaultRc: int, n: nat)
    requires Inv(s) && Run(s, ops, hooks).Some? && CountOf(s.slots, key) == n % UINT32_RANGE
    requires Step(Run(s, ops, hooks).value.0, OpCall(key, defaultRc), hooks).Some?
    ensures var s1 := Run(s, ops, hooks).value.0;
      Step(s1, OpCall(key, defaultRc), hooks).value.1
        == Returned(Outcome(HookAfterAll(HookOf(s.slots, key), ops, key),
                            CodeOr(Tick(Pending(s1.slots, key)).1, ForcedAfterAll(ForcedOf(s.slots, key), ops, key), defaultRc),
                            CallsSinceReset(ops, key, n) % UINT32_RANGE,
                            ParamsAfterAll(ParamsOf(s.slots, key), ops, key), hooks))
  {
    hide Run, HookOf, ParamsOf, CountOf, Pending, ForcedOf, Tick, CodeOr, Outcome, Call;
    var s1 := Run(s, ops, hooks).value.0;
    RunHook(s, ops, hooks, key);
    RunForced(s, ops, hooks, key);
    CounterCountsCalls(s, ops, hooks, key, n);
    CallOutcome(s1.slots, key, defaultRc, hooks);
  }

  /** What a stub has been told, and how often it was called, as far as its next call depends on it. */
  datatype Script = Script(hook: Option<Callback>, params: seq<int>, forced: Option<int>, pending: seq<Deferred>, calls: nat)

  function ScriptAfter(c: Script, ops: seq<Op>, key: Key): Script {
    Script(HookAfterAll(c.hook, ops, key), ParamsAfterAll(c.params, ops, key), ForcedAfterAll(c.forced, ops, key),
           PendingAfterAll(c.pending, ops, key), CallsSinceReset(ops, key, c.calls))
  }

  function ScriptCall(c: Script, defaultRc: int, hooks: Hooks): int {
    Outcome(c.hook, CodeOr(Tick(c.pending).1, c.forced, defaultRc), c.calls % UINT32_RANGE, c.params, hooks)
  }

  const NO_SCRIPT: Script := Script(None, [], None, [], 0)

  /**
   The whole stub mechanism from the operations alone: from an empty table, after every run
   whose deferred codes find their slots in order, a call returns what the script of the
   operations says.
   */
  lemma CallFollowsTheScript(mem: Memory, ops: seq<Op>, hooks: Hooks, key: Key, defaultRc: int)
    requires var s := State(EmptyTable(), mem);
      && Run(s, ops, hooks).Some? && RunsInOrder(s, ops, hooks, key)
      && Step(Run(s, ops, hooks).value.0, OpCall(key, defaultRc), hooks).Some?
    ensures Step(Run(State(EmptyTable(), mem), ops, hooks).value.0, OpCall(key, defaultRc), hooks).value.1
         == Returned(ScriptCall(ScriptAfter(NO_SCRIPT, ops, key), defaultRc, hooks))
  {
    var s := State(EmptyTable(), mem);
    EmptyScript(key);
    hide Run, RunsInOrder, HookOf, ParamsOf, CountOf, Pending, ForcedOf, Tick, CodeOr, Outcome, Step;
    HookGetsWhatHappened(s, ops, hooks, key, defaultRc, 0);
    RunPending(s, ops, hooks, key);
  }

  lemma EmptyScript(key: Key)
    ensures var t := EmptyTable();
      HookOf(t, key) == None && ParamsOf(t, key) == [] && ForcedOf(t, key) == None && Pending(t, key) == [] && CountOf(t, key) == 0
  {
    hide View;
    EmptyViewOfEmptyTable(key, CallbackHook);
    EmptyViewOfEmptyTable(key, CallbackContext);
    EmptyViewOfEmptyTable(key, ForceFail);
    EmptyViewOfEmptyTable(key, DeferredRc);
    EmptyViewOfEmptyTable(key, Counter);
  }
}
