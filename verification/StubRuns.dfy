/**
 Runs of the stub table: sequences of the operations that tests and stubs perform. This
 module states what every run keeps, and what a run can change for one key and kind.
 */
module StubRuns {
  import opened Basics
  import opened StubEntries
  import opened StubSpec
  import opened StubViews
  import StubTable

  /** The slots of the table and the memory blocks of the test that direct buffers point to. */
  datatype State = State(slots: Table, mem: Memory)

  ghost predicate Inv(s: State) {
    Good(s.slots) && MemoryHolds(s.slots, s.mem)
  }

  datatype Op =
    | OpReset(key: Key)
    | OpSetDeferred(key: Key, count: int, rc: int)
    | OpClearDeferred(key: Key)
    | OpCheckDeferred(key: Key)
    | OpSetForceFail(key: Key, value: int)
    | OpClearForceFail(key: Key)
    | OpCheckForceFail(key: Key)
    | OpSetData(key: Key, src: Option<Base>, size: nat)
    | OpRead(key: Key, maxSize: nat)
    | OpWrite(key: Key, local: seq<Byte>)
    | OpSetHook(key: Key, callback: Callback)
    | OpContext(key: Key, parameter: int)
    | OpCall(key: Key, defaultRc: int)
    | OpOnce(key: Key)

  datatype Reply =
    | Done
    | Code(code: Option<int>)
    | Returned(rc: int)
    | Chunk(bytes: seq<Byte>)
    | Written(count: nat)
    | Once(run: bool)

  function WithSlots(s: State, slots: Option<Table>, reply: Reply): Option<(State, Reply)> {
    if slots.None? then None else Some((State(slots.value, s.mem), reply))
  }

  /** One operation. `None` ends the run: the test was aborted, or it handed over a bad buffer pointer. */
  function Step(s: State, op: Op, hooks: Hooks): (r: Option<(State, Reply)>)
    requires Inv(s)
    ensures r.Some? ==> Inv(r.value.0)
  {
    var t := s.slots;
    match op
    case OpReset(key) => WithSlots(s, Some(Reset(t, key)), Done)
    case OpSetDeferred(key, count, rc) => WithSlots(s, SetDeferred(t, key, count, rc), Done)
    case OpClearDeferred(key) => WithSlots(s, Some(ClearDeferred(t, key)), Done)
    case OpCheckDeferred(key) =>
      var (t', code) := CheckDeferred(t, key);
      WithSlots(s, Some(t'), Code(code))
    case OpSetForceFail(key, value) => WithSlots(s, SetForceFail(t, key, value), Done)
    case OpClearForceFail(key) => WithSlots(s, Some(ClearOne(t, key, ForceFail)), Done)
    case OpCheckForceFail(key) =>
      var (t', code) := CheckForceFail(t, key);
      WithSlots(s, Some(t'), Code(code))
    case OpSetData(key, src, size) =>
      if SourceFits(src, size, s.mem) then WithSlots(s, SetDataBuffer(t, key, src, size), Done) else None
    case OpRead(key, maxSize) =>
      var (t', bytes) := CopyToLocal(t, s.mem, key, maxSize);
      WithSlots(s, Some(t'), Chunk(bytes))
    case OpWrite(key, local) =>
      var (t', mem', n) := CopyFromLocal(t, s.mem, key, local);
      Some((State(t', mem'), Written(n)))
    case OpSetHook(key, callback) => WithSlots(s, SetHook(t, key, callback), Done)
    case OpContext(key, parameter) => WithSlots(s, RegisterContext(t, key, parameter), Done)
    case OpCall(key, defaultRc) =>
      var r := Call(t, key, defaultRc, hooks);
      if r.None? then None else WithSlots(s, Some(r.value.0), Returned(r.value.1))
    case OpOnce(key) =>
      var r := MarkOnce(t, key);
      if r.None? then None else WithSlots(s, Some(r.value.0), Once(r.value.1))
  }

  /** A whole run: the final state and all replies, or `None` if the run ended early. */
  function Run(s: State, ops: seq<Op>, hooks: Hooks): (r: Option<(State, seq<Reply>)>)
    requires Inv(s)
    ensures r.Some? ==> Inv(r.value.0) && |r.value.1| == |ops|
    decreases ops
  {
    if ops == [] then Some((s, []))
    else
      var first := Step(s, ops[0], hooks);
      if first.None? then None
      else
        var rest := Run(first.value.0, ops[1..], hooks);
        if rest.None? then None
        else Some((rest.value.0, [first.value.1] + rest.value.1))
  }

  /** Runs compose: a run of `a + b` is a run of `a` followed by a run of `b`. */
  lemma {:induction false} RunConcat(s: State, a: seq<Op>, b: seq<Op>, hooks: Hooks)
    requires Inv(s)
    ensures Run(s, a + b, hooks).Some? <==>
      Run(s, a, hooks).Some? && Run(Run(s, a, hooks).value.0, b, hooks).Some?
    ensures Run(s, a + b, hooks).Some? ==>
      && Run(s, a + b, hooks).value.0 == Run(Run(s, a, hooks).value.0, b, hooks).value.0
      && Run(s, a + b, hooks).value.1
           == Run(s, a, hooks).value.1 + Run(Run(s, a, hooks).value.0, b, hooks).value.1
    decreases a
  {
    hide Step;
    if a == [] {
      assert a + b == b;
    } else {
      assert (a + b)[0] == a[0] && (a + b)[1..] == a[1..] + b;
      var first := Step(s, a[0], hooks);
      if first.Some? {
        RunConcat(first.value.0, a[1..], b, hooks);
      }
    }
  }

  // ---- What an operation can change ----

  /** A reset of everything or of this key. */
  predicate Resets(op: Op, key: Key) {
    op.OpReset? && (op.key == 0 || op.key == key)
  }

  /** Whether an operation may edit the view of (key, kind). */
  predicate Touches(op: Op, key: Key, kind: Kind) {
    match op
    case OpReset(k) => k == 0 || k == key
    case OpSetDeferred(k, _, _) => k == key && kind.DeferredRc?
    case OpClearDeferred(k) => k == key && kind.DeferredRc?
    case OpCheckDeferred(k) => k == key && kind.DeferredRc?
    case OpSetForceFail(k, _) => k == key && kind.ForceFail?
    case OpClearForceFail(k) => k == key && kind.ForceFail?
    case OpCheckForceFail(k) => k == key && kind.ForceFail?
    case OpSetData(k, _, _) => k == key && kind.DataBuffer?
    case OpRead(k, _) => k == key && kind.DataBuffer?
    case OpWrite(k, _) => k == key && kind.DataBuffer?
    case OpSetHook(k, _) => k == key && kind.CallbackHook?
    case OpContext(k, _) => k == key && kind.CallbackContext?
    case OpCall(k, _) => k == key && !kind.DataBuffer? && !kind.CallbackHook? && !kind.CallOnce?
    case OpOnce(k) => k == key && kind.CallOnce?
  }

  /** An operation leaves every view that it does not touch exactly as it was. */
  lemma StepFrame(s: State, op: Op, hooks: Hooks, key: Key, kind: Kind)
    requires Inv(s) && Step(s, op, hooks).Some? && !kind.Unused? && !Touches(op, key, kind)
    ensures View(Step(s, op, hooks).value.0.slots, key, kind) == View(s.slots, key, kind)
  {
    hide View, CheckDeferred, CheckForceFail, CopyToLocal, CopyFromLocal, SetHook, RegisterContext, Call, Reset, ClearDeferred,
      ClearOne, ProbeFrom, MemoryHolds;
    var t := s.slots;
    match op
    case OpReset(k) => ResetView(t, k, key, kind);
    case OpSetDeferred(k, count, rc) =>
      if count > 0 { InsertFrame(t, DeferredEntry(k, count, rc), key, kind); }
    case OpClearDeferred(k) => ClearDeferredView(t, k, key, kind);
    case OpCheckDeferred(k) => CheckDeferredFrame(t, k, key, kind);
    case OpSetForceFail(k, value) =>
      var i := SlotFor(t, k, ForceFail).value;
      SlotForIsAlone(t, k, ForceFail);
      UpsertFrame(t, k, ForceFail, i, Entry(ForceFail, k, false, Rc(CountIn(t[i].data), value)), key, kind);
    case OpClearForceFail(k) => ClearOneFrame(t, k, ForceFail, key, kind);
    case OpCheckForceFail(k) => CheckForceFailFrame(t, k, key, kind);
    case OpSetData(k, src, size) =>
      if src.Some? && size != 0 { InsertFrame(t, BufferEntry(k, src.value, size), key, kind); }
    case OpRead(k, maxSize) => ReadFrame(s, k, maxSize, key, kind);
    case OpWrite(k, local) => WriteFrame(s, k, local, key, kind);
    case OpSetHook(k, callback) => SetHookFrame(t, k, callback, key, kind);
    case OpContext(k, parameter) => ContextFrame(t, k, parameter, key, kind);
    case OpCall(k, defaultRc) => CallFrame(t, k, defaultRc, hooks, key, kind);
    case OpOnce(k) =>
      if MarkOnce(t, k).value.1 { ViewFrame(t, key, kind, FirstFree(t, 0).value, OnceEntry(k)); }
  }

  lemma ReadFrame(s: State, own: Key, maxSize: nat, key: Key, kind: Kind)
    requires Inv(s) && !kind.Unused? && !(own == key && kind.DataBuffer?)
    ensures View(CopyToLocal(s.slots, s.mem, own, maxSize).0, key, kind) == View(s.slots, key, kind)
  {
    var found := Find(s.slots, own, DataBuffer);
    if found.Some? {
      var e := s.slots[found.value];
      var n := Min(maxSize, e.data.totalSize - e.data.position);
      FoundFrame(s.slots, own, DataBuffer, found.value, Advance(e, n), key, kind);
    }
  }

  lemma WriteFrame(s: State, own: Key, local: seq<Byte>, key: Key, kind: Kind)
    requires Inv(s) && !kind.Unused? && !(own == key && kind.DataBuffer?)
    ensures View(CopyFromLocal(s.slots, s.mem, own, local).0, key, kind) == View(s.slots, key, kind)
  {
    var found := Find(s.slots, own, DataBuffer);
    if found.Some? {
      var t' := CopyFromLocal(s.slots, s.mem, own, local).0;
      FoundFrame(s.slots, own, DataBuffer, found.value, t'[found.value], key, kind);
      assert t' == s.slots[found.value := t'[found.value]];
    }
  }

  lemma SetHookFrame(t: Table, own: Key, callback: Callback, key: Key, kind: Kind)
    requires Good(t) && SetHook(t, own, callback).Some? && !kind.Unused? && !(own == key && kind.CallbackHook?)
    ensures View(SetHook(t, own, callback).value, key, kind) == View(t, key, kind)
  {
    if callback.address == 0 {
      ClearOneFrame(t, own, CallbackHook, key, kind);
    } else {
      var i := SlotFor(t, own, CallbackHook).value;
      UpsertFrame(t, own, CallbackHook, i, Entry(CallbackHook, own, false, Cb(callback)), key, kind);
    }
  }

  lemma ContextFrame(t: Table, own: Key, parameter: int, key: Key, kind: Kind)
    requires Good(t) && RegisterContext(t, own, parameter).Some?
    requires !kind.Unused? && !(own == key && kind.CallbackContext?)
    ensures View(RegisterContext(t, own, parameter).value, key, kind) == View(t, key, kind)
  {
    var i := SlotFor(t, own, CallbackContext).value;
    SlotForIsAlone(t, own, CallbackContext);
    var args := ArgsIn(t[i].data);
    var e := Entry(CallbackContext, own, false,
                   Context(if |args| < CONTEXT_MAX_SIZE then args + [parameter] else args));
    UpsertFrame(t, own, CallbackContext, i, e, key, kind);
  }

  // ---- The array with bounded searches refines these runs ----

  /** Performs one operation on the real table. */
  method Execute(table: StubTable.StubTable, op: Op, hooks: Hooks) returns (r: Option<Reply>)
    requires table.Valid()
    modifies table, table.slots
    ensures table.Valid() && table.slots == old(table.slots)
    ensures var spec := Step(State(old(table.Contents()), old(table.memory)), op, hooks);
      && r.None? == spec.None?
      && (r.Some? ==> State(table.Contents(), table.memory) == spec.value.0 && r.value == spec.value.1)
  {
    hide Reset, SetDeferred, ClearDeferred, CheckDeferred, SetForceFail, ClearOne, CheckForceFail,
         SetDataBuffer, CopyToLocal, CopyFromLocal, SetHook, RegisterContext, Call, MarkOnce, Good, MemoryHolds,
         StubTable.WithinBound;
    var aborted := false;
    r := Some(Done);
    match op {
      case OpReset(key) => table.ResetState(key);
      case OpSetDeferred(key, count, rc) => aborted := table.SetDeferredRetcode(key, count, rc);
      case OpClearDeferred(key) => table.ClearDeferredRetcode(key);
      case OpCheckDeferred(key) => var c := table.CheckDeferredRetcode(key); r := Some(Code(c));
      case OpSetForceFail(key, value) => aborted := table.SetForceFail(key, value);
      case OpClearForceFail(key) => table.ClearForceFail(key);
      case OpCheckForceFail(key) => var c := table.CheckForceFail(key); r := Some(Code(c));
      case OpSetData(key, src, size) =>
        aborted := true;
        if SourceFits(src, size, table.memory) { aborted := table.SetDataBuffer(key, src, size); }
      case OpRead(key, maxSize) => var b := table.CopyToLocal(key, maxSize); r := Some(Chunk(b));
      case OpWrite(key, local) => var n := table.CopyFromLocal(key, local); r := Some(Written(n));
      case OpSetHook(key, callback) => aborted := table.SetHookFunction(key, callback);
      case OpContext(key, parameter) => aborted := table.RegisterContext(key, parameter);
      case OpCall(key, defaultRc) =>
        var c := table.DefaultStubImpl(key, defaultRc, hooks);
        aborted := c.None?;
        if c.Some? { r := Some(Returned(c.value)); }
      case OpOnce(key) =>
        var run;
        run, aborted := table.CallOnce(key);
        r := Some(Once(run));
    }
    if aborted {
      r := None;
    }
  }

  /** Over every run, bounded hashed searching answers exactly as searching all slots would. */
  method ExecuteAll(table: StubTable.StubTable, ops: seq<Op>, hooks: Hooks) returns (r: Option<seq<Reply>>)
    requires table.Valid()
    modifies table, table.slots
    ensures table.Valid() && table.slots == old(table.slots)
    ensures var spec := Run(State(old(table.Contents()), old(table.memory)), ops, hooks);
      && r.None? == spec.None?
      && (r.Some? ==> State(table.Contents(), table.memory) == spec.value.0 && r.value == spec.value.1)
  {
    if ops == [] {
      return Some([]);
    }
    var first := Execute(table, ops[0], hooks);
    if first.None? {
      return None;
    }
    var rest := ExecuteAll(table, ops[1..], hooks);
    if rest.None? {
      return None;
    }
    return Some([first.value] + rest.value);
  }
}
