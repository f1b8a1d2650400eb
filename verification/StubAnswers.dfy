/**
 What the operations of the stub table answer, in plain terms: exactly when one aborts the
 test, what it replies, what the counter entry of a stub keeps, and what a freshly registered
 buffer delivers or takes.
 */
module StubAnswers {
  import opened Basics
  import opened StubEntries
  import opened StubSpec
  import opened StubViews
  import opened StubRuns
  import opened StubCodes
  import opened StubHooks
  import opened StubBuffers
  import opened StubWrites
  import StubTable

  // ---- When an operation aborts ----

  /** Some slot of the table is free. */
  ghost predicate HasFree(t: Table) {
    exists i | 0 <= i < MAX_FUNC_STUBS :: t[i].kind.Unused?
  }

  lemma FreeIsFound(t: Table, key: Key)
    requires Good(t)
    ensures FindFree(t, key).Some? <==> HasFree(t)
  {
    hide ProbeFrom;
    ProbeIsNearest(t, Home(key), 0, Unused, FindFree(t, key));
    if i :| 0 <= i < MAX_FUNC_STUBS && t[i].kind.Unused? {
      assert Matches(t[i], 0, Unused);
    }
  }

  /** A slot for an entry of a unique kind is found unless there is no such entry and no free slot. */
  lemma SlotIsFound(t: Table, key: Key, kind: Kind)
    requires Good(t)
    ensures SlotFor(t, key, kind).None? <==> View(t, key, kind) == [] && !HasFree(t)
  {
    hide ProbeFrom, View, HasFree;
    FindIsHead(t, key, kind);
    FreeIsFound(t, key);
  }

  lemma LowestFree(t: Table)
    ensures FirstFree(t, 0).Some? <==> HasFree(t)
  {
  }

  lemma DeferredFrees(t: Table, key: Key)
    requires Good(t)
    ensures HasFree(CheckDeferred(t, key).0) <==> HasFree(t) || CheckDeferred(t, key).1.Some?
  {
    hide ProbeFrom;
    var (u, code) := CheckDeferred(t, key);
    var found := Find(t, key, DeferredRc);
    if found.Some? {
      assert u == t[found.value := u[found.value]];
      if i :| 0 <= i < MAX_FUNC_STUBS && t[i].kind.Unused? {
        assert u[i].kind.Unused?;
      }
      if code.Some? {
        assert u[found.value].kind.Unused?;
      }
      if i :| 0 <= i < MAX_FUNC_STUBS && u[i].kind.Unused? && code.None? {
        assert t[i].kind.Unused?;
      }
    }
  }

  lemma ForcedFreesNothing(t: Table, key: Key)
    requires Good(t)
    ensures HasFree(CheckForceFail(t, key).0) <==> HasFree(t)
  {
    hide ProbeFrom;
    var u := CheckForceFail(t, key).0;
    var found := Find(t, key, ForceFail);
    if found.Some? {
      assert u == t[found.value := u[found.value]];
      if i :| 0 <= i < MAX_FUNC_STUBS && t[i].kind.Unused? {
        assert u[i].kind.Unused?;
      }
      if i :| 0 <= i < MAX_FUNC_STUBS && u[i].kind.Unused? {
        assert t[i].kind.Unused?;
      }
    }
  }

  /** A call aborts exactly if the stub has no counter yet, no slot is free, and no deferred code is due that would free one. */
  lemma CallAborts(t: Table, key: Key, defaultRc: int, hooks: Hooks)
    requires Good(t)
    ensures Call(t, key, defaultRc, hooks).None? <==>
      View(t, key, Counter) == [] && !HasFree(t) && Tick(Pending(t, key)).1.None?
  {
    hide View, HasFree, Pending, Tick, CheckDeferred, CheckForceFail, SlotFor, HookedCode, ClearOne;
    var (t1, rc) := SelectCode(t, key, defaultRc);
    SelectCodeFrame(t, key, defaultRc, key, Counter);
    SlotIsFound(t1, key, Counter);
    DeferredFrees(t, key);
    ForcedFreesNothing(CheckDeferred(t, key).0, key);
    CheckDeferredTicks(t, key);
  }

  /** Whether an operation aborts the test or, for a registration of data, is handed a buffer that it must not use. */
  ghost predicate Aborts(s: State, op: Op) {
    match op
    case OpSetDeferred(key, count, rc) => count > 0 && !HasFree(s.slots)
    case OpSetForceFail(key, value) => ForcedOf(s.slots, key).None? && !HasFree(s.slots)
    case OpSetData(key, src, size) => !SourceFits(src, size, s.mem) || (src.Some? && size > 0 && !HasFree(s.slots))
    case OpSetHook(key, callback) => callback.address != 0 && HookOf(s.slots, key).None? && !HasFree(s.slots)
    case OpContext(key, parameter) => ParamsOf(s.slots, key) == [] && !HasFree(s.slots)
    case OpCall(key, defaultRc) =>
      LastCodeOf(s.slots, key).None? && !HasFree(s.slots) && Tick(Pending(s.slots, key)).1.None?
    case OpOnce(key) => key != 0 && View(s.slots, key, CallOnce) == [] && !HasFree(s.slots)
    case _ => false
  }

  /** The heads of unique views carry the data of their kind. */
  lemma HeadsHoldData(t: Table, key: Key)
    requires Good(t)
    ensures ForcedOf(t, key).None? <==> View(t, key, ForceFail) == []
    ensures HookOf(t, key).None? <==> View(t, key, CallbackHook) == []
    ensures ParamsOf(t, key) == [] <==> View(t, key, CallbackContext) == []
    ensures LastCodeOf(t, key).None? <==> View(t, key, Counter) == []
  {
    hide View, ViewRange;
    HeadIsWellFormed(t, key, ForceFail);
    HeadIsWellFormed(t, key, CallbackHook);
    HeadIsWellFormed(t, key, CallbackContext);
    HeadIsWellFormed(t, key, Counter);
  }

  lemma HeadIsWellFormed(t: Table, key: Key, kind: Kind)
    requires Good(t)
    ensures var v := View(t, key, kind); v != [] ==> v[0].kind == kind && WellFormed(v[0])
  {
    hide ViewRange;
    ViewMembers(t, Home(key), key, kind, 0, |t|);
    var v := View(t, key, kind);
    if v != [] {
      assert v[0] in v;
    }
  }

  /** An operation aborts exactly when it needs a slot and none is free; in every other case it takes effect. */
  lemma AbortsExactly(s: State, op: Op, hooks: Hooks)
    requires Inv(s)
    ensures Step(s, op, hooks).None? <==> Aborts(s, op)
  {
    hide View, HasFree, ProbeFrom, ForcedOf, HookOf, ParamsOf, LastCodeOf, Call, SlotFor, ClearOne, CheckDeferred, CheckForceFail,
      Pending, Tick, CopyToLocal, CopyFromLocal, Reset, ClearDeferred, Good, MemoryHolds;
    var t := s.slots;
    match op
    case OpSetDeferred(key, count, rc) => FreeIsFound(t, key);
    case OpSetForceFail(key, value) => HeadsHoldData(t, key); SlotIsFound(t, key, ForceFail);
    case OpSetData(key, src, size) => FreeIsFound(t, key);
    case OpSetHook(key, callback) => HeadsHoldData(t, key); SlotIsFound(t, key, CallbackHook);
    case OpContext(key, parameter) => HeadsHoldData(t, key); SlotIsFound(t, key, CallbackContext);
    case OpCall(key, defaultRc) => HeadsHoldData(t, key); CallAborts(t, key, defaultRc, hooks);
    case OpOnce(key) => FindIsHead(t, key, CallOnce); LowestFree(t);
    case _ =>
  }

  // ---- What an operation replies ----

  /** The replies that no other theorem gives: the two checks, the one-time functions, and operations without a result. */
  lemma Replies(s: State, op: Op, hooks: Hooks)
    requires Inv(s) && Step(s, op, hooks).Some?
    ensures var (s', reply) := Step(s, op, hooks).value;
      match op
      case OpCheckDeferred(key) => reply == Code(Tick(Pending(s.slots, key)).1)
      case OpCheckForceFail(key) => reply == Code(ForcedOf(s.slots, key))
      case OpOnce(key) => if key == 0 then reply == Once(false) && s' == s else reply == Once(View(s.slots, key, CallOnce) == [])
      case OpCall(_, _) => reply.Returned?
      case OpRead(_, _) => reply.Chunk?
      case OpWrite(_, _) => reply.Written?
      case _ => reply == Done
  {
    hide View, ProbeFrom, ForcedOf, Call, CheckDeferred, CheckForceFail, Pending, Tick, CopyToLocal, CopyFromLocal, Good, MemoryHolds;
    match op
    case OpCheckDeferred(key) => CheckDeferredTicks(s.slots, key);
    case OpCheckForceFail(key) => CheckForceFailForces(s.slots, key);
    case OpOnce(key) => FindIsHead(s.slots, key, CallOnce);
    case _ =>
  }

  /** A one-time function is marked in the lowest free slot. */
  lemma MarkerIsLowest(t: Table, key: Key)
    requires Good(t) && MarkOnce(t, key).Some? && MarkOnce(t, key).value.1
    ensures exists i | 0 <= i < MAX_FUNC_STUBS ::
      && t[i].kind.Unused? && (forall j | 0 <= j < i :: !t[j].kind.Unused?)
      && MarkOnce(t, key).value.0 == t[i := Entry(CallOnce, key, false, Zeroed)]
  {
    hide ProbeFrom;
    var i := FirstFree(t, 0).value;
    assert t[i].kind.Unused?;
  }

  // ---- What the counter entry keeps ----

  /** The code in a stub's counter entry, none if the stub has no such entry. */
  function LastCodeOf(t: Table, key: Key): Option<int> {
    HeadCode(View(t, key, Counter))
  }

  lemma CountCallKeepsCode(t: Table, key: Key, rc: int)
    requires Good(t) && CountCall(t, key, rc).Some?
    ensures LastCodeOf(CountCall(t, key, rc).value.0, key) == Some(rc)
  {
    hide View, ProbeFrom;
    var i := SlotFor(t, key, Counter).value;
    SlotForIsAlone(t, key, Counter);
    UpsertView(t, key, Counter, i, CountCall(t, key, rc).value.0[i]);
  }

  /** A call keeps the code that it selected, before any hook. */
  lemma CallKeepsCode(t: Table, key: Key, defaultRc: int, hooks: Hooks)
    requires Good(t) && Call(t, key, defaultRc, hooks).Some?
    ensures LastCodeOf(Call(t, key, defaultRc, hooks).value.0, key)
         == Some(CodeOr(Tick(Pending(t, key)).1, ForcedOf(t, key), defaultRc))
  {
    hide View, SelectCode, CountCall, ClearOne, HookedCode, Pending, Tick, ForcedOf, CodeOr, HeadCode;
    var (t1, rc) := SelectCode(t, key, defaultRc);
    SelectCodeSelects(t, key, defaultRc);
    CountCallKeepsCode(t1, key, rc);
    ClearOneFrame(CountCall(t1, key, rc).value.0, key, CallbackContext, key, Counter);
  }

  lemma StepKeepsCode(s: State, op: Op, hooks: Hooks, key: Key)
    requires Inv(s) && Step(s, op, hooks).Some?
    ensures LastCodeOf(Step(s, op, hooks).value.0.slots, key)
         == if Resets(op, key) then None
            else if op.OpCall? && op.key == key
            then Some(CodeOr(Tick(Pending(s.slots, key)).1, ForcedOf(s.slots, key), op.defaultRc))
            else LastCodeOf(s.slots, key)
  {
    hide View, Call, Pending, Tick, ForcedOf, CodeOr, HeadCode;
    EmptyHeadCode();
    if !Touches(op, key, Counter) {
      StepFrame(s, op, hooks, key, Counter);
    } else if op.OpReset? {
      ResetView(s.slots, op.key, key, Counter);
    } else {
      CallKeepsCode(s.slots, key, op.defaultRc, hooks);
    }
  }

  /** The code selected at the last call since the last reset, from the operations alone. */
  function LastCodeAfterAll(last: Option<int>, pending: seq<Deferred>, forced: Option<int>, ops: seq<Op>, key: Key): Option<int>
    decreases ops
  {
    if ops == [] then last
    else
      var op := ops[0];
      var next := if Resets(op, key) then None
                  else if op.OpCall? && op.key == key then Some(CodeOr(Tick(pending).1, forced, op.defaultRc))
                  else last;
      LastCodeAfterAll(next, PendingStep(pending, op, key), ForcedAfter(forced, op, key), ops[1..], key)
  }

  /** Over every run whose deferred codes find their slots in order, the counter entry keeps the code selected at the last call. */
  lemma {:induction false} CounterKeepsLastCode(s: State, ops: seq<Op>, hooks: Hooks, key: Key)
    requires Inv(s) && Run(s, ops, hooks).Some? && RunsInOrder(s, ops, hooks, key)
    ensures LastCodeOf(Run(s, ops, hooks).value.0.slots, key)
         == LastCodeAfterAll(LastCodeOf(s.slots, key), Pending(s.slots, key), ForcedOf(s.slots, key), ops, key)
    decreases ops
  {
    hide Step, Pending, PendingStep, ForcedOf, ForcedAfter, LastCodeOf, Tick, CodeOr, Resets, Inv, InOrder;
    if ops != [] {
      StepKeepsCode(s, ops[0], hooks, key);
      StepRefinesQueue(s, ops[0], hooks, key);
      StepForced(s, ops[0], hooks, key);
      CounterKeepsLastCode(Step(s, ops[0], hooks).value.0, ops[1..], hooks, key);
    }
  }

  /**
   What a test that starts with an empty table learns about a stub after a run: nothing if the
   stub was not called since the last reset, else the code selected at its last call and the
   number of its calls as a signed 32-bit number.
   */
  method RunThenQuery(memory: Memory, ops: seq<Op>, hooks: Hooks, key: Key) returns (ran: bool, r: Option<(int, int)>)
    requires RunsInOrder(State(EmptyTable(), memory), ops, hooks, key)
    ensures ran <==> Run(State(EmptyTable(), memory), ops, hooks).Some?
    ensures ran ==>
      var last := LastCodeAfterAll(None, [], None, ops, key);
      r == if last.None? then None else Some((last.value, Int32(CallsSinceReset(ops, key, 0) % 0x1_0000_0000)))
  {
    hide Run, RunsInOrder, View, LastCodeAfterAll, CallsSinceReset;
    ghost var s := State(EmptyTable(), memory);
    MemoryOfEmpty(memory);
    var table := new StubTable.StubTable(memory);
    var replies := ExecuteAll(table, ops, hooks);
    ran, r := replies.Some?, None;
    if ran {
      EmptyScript(key);
      EmptyLastCode(key);
      CounterKeepsLastCode(s, ops, hooks, key);
      CounterCountsCalls(s, ops, hooks, key, 0);
      r := table.GetStubRetcodeAndCount(key);
      HeadIsWellFormed(table.Contents(), key, Counter);
    }
  }

  lemma MemoryOfEmpty(memory: Memory)
    ensures Inv(State(EmptyTable(), memory))
  {
  }

  lemma EmptyLastCode(key: Key)
    ensures LastCodeOf(EmptyTable(), key) == None
  {
    hide View;
    EmptyViewOfEmptyTable(key, Counter);
  }

  // ---- How often a forced code was used ----

  /** The use count of a stub's forced code, zero when it has none. */
  function UsesOf(t: Table, key: Key): nat {
    HeadCount(View(t, key, ForceFail))
  }

  lemma CheckForceFailUses(t: Table, key: Key)
    requires Good(t)
    ensures UsesOf(CheckForceFail(t, key).0, key) == if ForcedOf(t, key).None? then 0 else NextCount(UsesOf(t, key))
  {
    hide View, ProbeFrom, NextCount;
    HeadIsWellFormed(t, key, ForceFail);
    FindIsHead(t, key, ForceFail);
    var found := Find(t, key, ForceFail);
    if found.Some? {
      var Rc(count, rc) := t[found.value].data;
      HeadUpdate(t, key, ForceFail, found.value, Entry(ForceFail, key, false, Rc(NextCount(count), rc)));
    }
  }

  lemma SelectCodeUses(t: Table, key: Key, defaultRc: int)
    requires Good(t)
    ensures UsesOf(SelectCode(t, key, defaultRc).0, key)
         == if ForcedOf(t, key).Some? && Tick(Pending(t, key)).1.None? then NextCount(UsesOf(t, key)) else UsesOf(t, key)
  {
    hide View, CheckDeferred, CheckForceFail, Pending, Tick, NextCount, HeadCount, HeadCode;
    CheckDeferredTicks(t, key);
    CheckDeferredFrame(t, key, key, ForceFail);
    CheckForceFailUses(CheckDeferred(t, key).0, key);
    NoForcedNoUses(t, key);
  }

  lemma NoForcedNoUses(t: Table, key: Key)
    requires Good(t)
    ensures ForcedOf(t, key).None? ==> UsesOf(t, key) == 0
  {
    hide View;
    HeadIsWellFormed(t, key, ForceFail);
  }

  lemma SetForceFailKeepsUses(t: Table, key: Key, value: int)
    requires Good(t) && SetForceFail(t, key, value).Some?
    ensures UsesOf(SetForceFail(t, key, value).value, key) == UsesOf(t, key)
  {
    hide View, ProbeFrom;
    SlotForIsAlone(t, key, ForceFail);
    FindIsHead(t, key, ForceFail);
    var i := SlotFor(t, key, ForceFail).value;
    UpsertView(t, key, ForceFail, i, SetForceFail(t, key, value).value[i]);
  }

  /** The forced code counts its uses: checks, and calls on which no deferred code is due. A new value keeps the count. */
  lemma StepCountsUses(s: State, op: Op, hooks: Hooks, key: Key)
    requires Inv(s) && Step(s, op, hooks).Some?
    ensures var t := s.slots;
      var uses := ForcedOf(t, key).Some? &&
        (op == OpCheckForceFail(key) || (op.OpCall? && op.key == key && Tick(Pending(t, key)).1.None?));
      UsesOf(Step(s, op, hooks).value.0.slots, key)
        == if Resets(op, key) || op == OpClearForceFail(key) then 0
           else if uses then (UsesOf(t, key) + 1) % 0x1_0000_0000
           else UsesOf(t, key)
  {
    hide View, Call, SelectCode, CheckForceFail, SetForceFail, ClearOne, Pending, Tick, NextCount, HeadCount, HeadCode;
    var t := s.slots;
    EmptyHeadCount();
    CountIsSmall(t, key);
    if !Touches(op, key, ForceFail) {
      StepFrame(s, op, hooks, key, ForceFail);
    } else {
      match op
      case OpReset(k) => ResetView(t, k, key, ForceFail);
      case OpSetForceFail(k, value) => SetForceFailKeepsUses(t, key, value);
      case OpClearForceFail(k) =>
        ClearOneView(t, key, ForceFail);
        UniqueView(t, key, ForceFail);
      case OpCheckForceFail(k) =>
        CheckForceFailUses(t, key);
        NoForcedNoUses(t, key);
      case OpCall(k, defaultRc) =>
        CallCodeViews(t, key, defaultRc, hooks, ForceFail);
        SelectCodeUses(t, key, defaultRc);
    }
  }

  lemma EmptyHeadCount()
    ensures HeadCount([]) == 0
  {
  }

  lemma CountIsSmall(t: Table, key: Key)
    requires Good(t)
    ensures UsesOf(t, key) < UINT32_RANGE && NextCount(UsesOf(t, key)) == (UsesOf(t, key) + 1) % 0x1_0000_0000
  {
    hide View;
    HeadIsWellFormed(t, key, ForceFail);
    NextCountWraps(UsesOf(t, key));
  }

  // ---- A freshly registered buffer ----

  /** What a registration hands over: the bytes of the copy, or the first bytes of the block. */
  lemma SourceBytesAre(base: Base, size: nat, mem: Memory)
    requires size > 0 && SourceFits(Some(base), size, mem)
    ensures SourceBytes(base, size, mem) == match base case Copied(bytes) => bytes case Direct(block) => mem[block][..size]
  {
    match base
    case Copied(bytes) => assert bytes[0..] == bytes;
    case Direct(block) => assert mem[block][0..size] == mem[block][..size];
  }

  /** Registered for a key without buffers, a buffer is read from its first byte on. */
  lemma RegisterThenRead(s: State, key: Key, base: Base, size: nat, maxSize: nat, hooks: Hooks)
    requires Inv(s) && View(s.slots, key, DataBuffer) == [] && HasFree(s.slots)
    requires size > 0 && SourceFits(Some(base), size, s.mem)
    ensures var first := Step(s, OpSetData(key, Some(base), size), hooks);
      && first.Some?
      && var read := Step(first.value.0, OpRead(key, maxSize), hooks);
      && read.Some?
      && var all := match base case Copied(bytes) => bytes case Direct(block) => s.mem[block][..size];
         read.value.1 == Chunk(if maxSize < size then all[..maxSize] else all)
  {
    hide View, HasFree, Insert, CopyToLocal, RestOfAll, Good, MemoryHolds, AppendsLast, SourceBytes;
    var op := OpSetData(key, Some(base), size);
    AbortsExactly(s, op, hooks);
    var s1 := Step(s, op, hooks).value.0;
    NoBuffersAppendsLast(s.slots, key);
    SetDataStream(s, key, base, size);
    SourceBytesAre(base, size, s.mem);
    EmptyStream(s, key);
    var all := SourceBytes(base, size, s.mem);
    assert [] + [all] == [all];
    CopyToLocalServes(s1, key, maxSize);
    assert all[..size] == all;
  }

  lemma EmptyStream(s: State, key: Key)
    requires View(s.slots, key, DataBuffer) == []
    ensures Stream(s, key) == []
  {
    hide View;
  }

  /** Registered for a key without buffers, a block of the test's memory is written from its first byte on. */
  lemma RegisterThenWrite(s: State, key: Key, block: nat, size: nat, local: seq<Byte>, hooks: Hooks)
    requires Inv(s) && View(s.slots, key, DataBuffer) == [] && HasFree(s.slots)
    requires 0 < size && block in s.mem && size <= |s.mem[block]|
    ensures var first := Step(s, OpSetData(key, Some(Direct(block)), size), hooks);
      && first.Some?
      && var write := Step(first.value.0, OpWrite(key, local), hooks);
      && write.Some?
      && var n := if |local| < size then |local| else size;
      && write.value.1 == Written(n)
      && write.value.0.mem == s.mem[block := local[..n] + s.mem[block][n..]]
  {
    hide View, HasFree, CopyFromLocal, Good, MemoryHolds, AppendsLast, ProbeFrom, FillsFirst, Insert;
    var op := OpSetData(key, Some(Direct(block)), size);
    AbortsExactly(s, op, hooks);
    var s1 := Step(s, op, hooks).value.0;
    var e := BufferEntry(key, Direct(block), size);
    NoBuffersAppendsLast(s.slots, key);
    InsertLast(s.slots, e);
    assert [] + [e] == [e];
    CopyFromLocalView(s1, key, local);
    var (t', mem', count) := CopyFromLocal(s1.slots, s1.mem, key, local);
    FillsFromTheStart(key, block, size, s.mem, local, count, View(t', key, DataBuffer), mem');
  }

  lemma FillsFromTheStart(key: Key, block: nat, size: nat, mem: Memory, local: seq<Byte>, count: nat, v': seq<Entry>, mem': Memory)
    requires 0 < size && block in mem && size <= |mem[block]|
    requires FillsFirst([BufferEntry(key, Direct(block), size)], mem, local, count, v', mem')
    ensures count == if |local| < size then |local| else size
    ensures mem' == mem[block := local[..count] + mem[block][count..]]
  {
    assert mem[block][..0] + local[..count] + mem[block][0 + count..] == local[..count] + mem[block][count..];
  }

  // ---- Forced and deferred codes together ----

  /**
   With one code forced and another deferred to the second call, two calls of a stub return the
   one and then the other: a deferred code that is due comes before the forced one.
   */
  lemma ForcedAndDeferred(s: State, key: Key, forced: int, deferred: int, hooks: Hooks)
    requires Inv(s) && Pending(s.slots, key) == [] && View(s.slots, key, CallbackHook) == []
    requires Step(s, OpSetForceFail(key, forced), hooks).Some?
    requires Step(Step(s, OpSetForceFail(key, forced), hooks).value.0, OpSetDeferred(key, 2, deferred), hooks).Some?
    ensures var s1 := Step(s, OpSetForceFail(key, forced), hooks).value.0;
      var s2 := Step(s1, OpSetDeferred(key, 2, deferred), hooks).value.0;
      HasFree(s2.slots) ==>
        && Run(s2, [OpCall(key, 0), OpCall(key, 0)], hooks).Some?
        && Run(s2, [OpCall(key, 0), OpCall(key, 0)], hooks).value.1 == [Returned(forced), Returned(deferred)]
  {
    var force, defer := OpSetForceFail(key, forced), OpSetDeferred(key, 2, deferred);
    var s1 := Step(s, force, hooks).value.0;
    var s2 := Step(s1, defer, hooks).value.0;
    CodesSet(key, forced, deferred, ForcedOf(s.slots, key));
    hide View, Run, Step, Pending, ForcedOf, ForcedAfter, AppendsLast, Good, MemoryHolds, PendingStep, Due, CodeOr;
    StepFrame(s, force, hooks, key, CallbackHook);
    StepFrame(s1, defer, hooks, key, CallbackHook);
    StepForced(s, force, hooks, key);
    StepForced(s1, defer, hooks, key);
    StepRefinesQueue(s, force, hooks, key);
    NothingPendingAppendsLast(s1.slots, key);
    StepRefinesQueue(s1, defer, hooks, key);
    if HasFree(s2.slots) {
      var i: nat :| i < MAX_FUNC_STUBS && s2.slots[i].kind.Unused?;
      TwoCalls(s2, key, hooks, i);
    }
  }

  lemma CodesSet(key: Key, forced: int, deferred: int, before: Option<int>)
    ensures var force, defer, q := OpSetForceFail(key, forced), OpSetDeferred(key, 2, deferred), [Deferred(2, deferred)];
      && ForcedAfter(before, force, key) == Some(forced) && ForcedAfter(Some(forced), defer, key) == Some(forced)
      && PendingStep([], force, key) == [] && PendingStep([], defer, key) == q
      && CodeOr(Due(q, 1), Some(forced), 0) == forced && CodeOr(Due(q, 2), Some(forced), 0) == deferred
  {
    var q := [Deferred(2, deferred)];
    assert Due(q, 1) == None && Due(q, 2) == Some(deferred);
  }
}
