/**
 What each stub-table operation of osal/ut_assert/src/utstubs.c does to the table, stated
 with the unbounded search of `StubEntries`, together with the invariant all of them keep.
 */
module StubSpec {
  import opened Basics
  import opened StubEntries

  /** Kinds of which the table holds at most one entry per key. */
  predicate UniqueKind(kind: Kind) {
    kind.Counter? || kind.ForceFail? || kind.CallbackHook? || kind.CallbackContext? || kind.CallOnce?
  }

  predicate WellFormed(e: Entry) {
    match e.kind
    case Unused => e == ZERO_ENTRY
    case Counter => !e.allocBuf && e.data.Rc? && e.data.count < UINT32_RANGE
    case ForceFail => !e.allocBuf && e.data.Rc? && e.data.count < UINT32_RANGE
    case DeferredRc => !e.allocBuf && e.data.Rc? && 0 < e.data.count
    case DataBuffer =>
      && e.data.Buff?
      && e.data.position < e.data.totalSize
      && (e.allocBuf <==> e.data.base.Copied?)
      && (e.data.base.Copied? ==> |e.data.base.bytes| == e.data.totalSize)
    case CallbackHook => !e.allocBuf && e.data.Cb? && e.data.callback.address != 0
    case CallbackContext => !e.allocBuf && e.data.Context? && 0 < |e.data.args| <= CONTEXT_MAX_SIZE
    case CallOnce => !e.allocBuf && e.data.Zeroed? && e.key != 0
  }

  /** The table invariant: slots are well formed and the unique kinds are unique. */
  ghost predicate Good(t: Table) {
    && (forall i | 0 <= i < MAX_FUNC_STUBS :: WellFormed(t[i]))
    && forall i, j | 0 <= i < j < MAX_FUNC_STUBS && UniqueKind(t[i].kind) && t[i].kind == t[j].kind ::
         t[i].key != t[j].key
  }

  /** Every buffer that lives in the test's memory lies inside its block. */
  ghost predicate MemoryHolds(t: Table, mem: Memory) {
    forall i | 0 <= i < MAX_FUNC_STUBS :: EntryInMemory(t[i], mem)
  }

  ghost predicate EntryInMemory(e: Entry, mem: Memory) {
    e.data.Buff? && e.data.base.Direct? ==>
      e.data.base.block in mem && e.data.totalSize <= |mem[e.data.base.block]|
  }

  /** No deferred code or buffer appears on the way from `t` to `r`, and no buffer changes. */
  ghost predicate AddsNothingQueued(t: Table, r: Table) {
    forall i | 0 <= i < MAX_FUNC_STUBS ::
      && (r[i].kind.DeferredRc? || r[i].kind.DataBuffer? ==> Matches(t[i], r[i].key, r[i].kind))
      && (r[i].data.Buff? ==> r[i] == t[i])
  }

  function EmptyTable(): (t: Table)
    ensures Good(t)
    ensures forall i | 0 <= i < MAX_FUNC_STUBS :: t[i] == ZERO_ENTRY
  {
    seq(MAX_FUNC_STUBS, i => ZERO_ENTRY)
  }

  lemma GoodUpdate(t: Table, i: nat, e: Entry)
    requires Good(t) && i < MAX_FUNC_STUBS && WellFormed(e)
    requires UniqueKind(e.kind) ==>
      forall j | 0 <= j < MAX_FUNC_STUBS && j != i :: !Matches(t[j], e.key, e.kind)
    ensures Good(t[i := e])
  {
  }

  /** The slot an operation that never duplicates will write: the entry itself or a free slot. */
  function SlotFor(t: Table, key: Key, kind: Kind): (r: Option<nat>) {
    var found := Find(t, key, kind);
    if found.Some? then found else FindFree(t, key)
  }

  lemma SlotForIsAlone(t: Table, key: Key, kind: Kind)
    requires Good(t) && UniqueKind(kind) && SlotFor(t, key, kind).Some?
    ensures var i := SlotFor(t, key, kind).value;
      && i < MAX_FUNC_STUBS
      && (Matches(t[i], key, kind) || t[i] == ZERO_ENTRY)
      && forall j | 0 <= j < MAX_FUNC_STUBS && j != i :: !Matches(t[j], key, kind)
  {
    ProbeIsNearest(t, Home(key), key, kind, Find(t, key, kind));
  }

  /** Reading the return-code part of a slot that was just claimed or already holds one. */
  function CountIn(d: Data): nat
    requires d.Rc? || d.Zeroed?
  {
    if d.Rc? then d.count else 0
  }

  /** Unsigned 32-bit increment. */
  function NextCount(count: nat): nat {
    if count + 1 == UINT32_RANGE then 0 else count + 1
  }

  // ---- Clearing ----

  function ResetEntry(e: Entry, key: Key): Entry {
    if key == 0 || e.key == key then ZERO_ENTRY else e
  }

  function Reset(t: Table, key: Key): (r: Table)
    ensures forall i | 0 <= i < MAX_FUNC_STUBS :: r[i] == ResetEntry(t[i], key)
    ensures Good(t) ==> Good(r)
    ensures AddsNothingQueued(t, r)
  {
    seq(MAX_FUNC_STUBS, i requires 0 <= i < MAX_FUNC_STUBS => ResetEntry(t[i], key))
  }

  function WithoutDeferred(e: Entry, key: Key): Entry {
    if Matches(e, key, DeferredRc) then ZERO_ENTRY else e
  }

  function ClearDeferred(t: Table, key: Key): (r: Table)
    ensures forall i | 0 <= i < MAX_FUNC_STUBS :: r[i] == WithoutDeferred(t[i], key)
    ensures Good(t) ==> Good(r)
    ensures AddsNothingQueued(t, r)
  {
    seq(MAX_FUNC_STUBS, i requires 0 <= i < MAX_FUNC_STUBS => WithoutDeferred(t[i], key))
  }

  /** Clears the entry of a unique kind, if there is one. */
  function ClearOne(t: Table, key: Key, kind: Kind): (r: Table)
    requires Good(t)
    ensures Good(r) && AddsNothingQueued(t, r)
  {
    var found := Find(t, key, kind);
    if found.None? then t else GoodUpdate(t, found.value, ZERO_ENTRY); t[found.value := ZERO_ENTRY]
  }

  // ---- Registering ----

  /** Places a new entry in the first free slot of its key's probe order; `None` if the table is full. */
  function Insert(t: Table, e: Entry): (r: Option<Table>)
    requires Good(t) && WellFormed(e) && !UniqueKind(e.kind)
    ensures r.Some? ==> Good(r.value)
  {
    var free := FindFree(t, e.key);
    if free.None? then None else GoodUpdate(t, free.value, e); Some(t[free.value := e])
  }

  function DeferredEntry(key: Key, count: nat, rc: int): Entry {
    Entry(DeferredRc, key, false, Rc(count, rc))
  }

  function BufferEntry(key: Key, base: Base, size: nat): Entry {
    Entry(DataBuffer, key, base.Copied?, Buff(0, size, base))
  }

  function SetDeferred(t: Table, key: Key, count: int, rc: int): (r: Option<Table>)
    requires Good(t)
    ensures r.Some? ==> Good(r.value)
  {
    if count <= 0 then Some(t) else Insert(t, DeferredEntry(key, count, rc))
  }

  /** The buffer a caller hands over: nothing for NULL, else its bytes or its block. */
  predicate SourceFits(src: Option<Base>, size: nat, mem: Memory) {
    src.Some? ==>
      match src.value
      case Copied(bytes) => |bytes| == size
      case Direct(block) => block in mem && size <= |mem[block]|
  }

  function SetDataBuffer(t: Table, key: Key, src: Option<Base>, size: nat): (r: Option<Table>)
    requires Good(t)
    requires src.Some? && src.value.Copied? ==> |src.value.bytes| == size
    ensures r.Some? ==> Good(r.value)
  {
    if src.None? || size == 0 then Some(t) else Insert(t, BufferEntry(key, src.value, size))
  }

  function SetForceFail(t: Table, key: Key, value: int): (r: Option<Table>)
    requires Good(t)
    ensures r.Some? ==> Good(r.value) && AddsNothingQueued(t, r.value)
  {
    var slot := SlotFor(t, key, ForceFail);
    if slot.None? then None else
      SlotForIsAlone(t, key, ForceFail);
      var e := Entry(ForceFail, key, false, Rc(CountIn(t[slot.value].data), value));
      GoodUpdate(t, slot.value, e);
      Some(t[slot.value := e])
  }

  /** A null callback deletes the hook; any other one replaces it. */
  function SetHook(t: Table, key: Key, callback: Callback): (r: Option<Table>)
    requires Good(t)
    ensures r.Some? ==> Good(r.value) && AddsNothingQueued(t, r.value)
  {
    if callback.address == 0 then Some(ClearOne(t, key, CallbackHook))
    else
      var slot := SlotFor(t, key, CallbackHook);
      if slot.None? then None else
        SlotForIsAlone(t, key, CallbackHook);
        var e := Entry(CallbackHook, key, false, Cb(callback));
        GoodUpdate(t, slot.value, e);
        Some(t[slot.value := e])
  }

  function ArgsIn(d: Data): seq<int>
    requires d.Context? || d.Zeroed?
  {
    if d.Context? then d.args else []
  }

  function RegisterContext(t: Table, key: Key, parameter: int): (r: Option<Table>)
    requires Good(t)
    ensures r.Some? ==> Good(r.value) && AddsNothingQueued(t, r.value)
  {
    var slot := SlotFor(t, key, CallbackContext);
    if slot.None? then None else
      SlotForIsAlone(t, key, CallbackContext);
      var args := ArgsIn(t[slot.value].data);
      var e := Entry(CallbackContext, key, false,
                     Context(if |args| < CONTEXT_MAX_SIZE then args + [parameter] else args));
      GoodUpdate(t, slot.value, e);
      Some(t[slot.value := e])
  }

  // ---- Stub calls ----

  /** Counts the nearest deferred code down; it is due, and gone, when its count reaches zero. */
  function CheckDeferred(t: Table, key: Key): (r: (Table, Option<int>))
    requires Good(t)
    ensures Good(r.0) && AddsNothingQueued(t, r.0)
  {
    var found := Find(t, key, DeferredRc);
    if found.None? then (t, None)
    else
      var Rc(count, rc) := t[found.value].data;
      var e := if count == 1 then ZERO_ENTRY else DeferredEntry(key, count - 1, rc);
      GoodUpdate(t, found.value, e);
      (t[found.value := e], if count == 1 then Some(rc) else None)
  }

  function CheckForceFail(t: Table, key: Key): (r: (Table, Option<int>))
    requires Good(t)
    ensures Good(r.0) && AddsNothingQueued(t, r.0)
  {
    var found := Find(t, key, ForceFail);
    if found.None? then (t, None)
    else
      ProbeIsNearest(t, Home(key), key, ForceFail, found);
      var Rc(count, rc) := t[found.value].data;
      var e := Entry(ForceFail, key, false, Rc(NextCount(count), rc));
      GoodUpdate(t, found.value, e);
      (t[found.value := e], Some(rc))
  }

  /** The code a stub call settles on before any hook runs. */
  function SelectCode(t: Table, key: Key, defaultRc: int): (r: (Table, int))
    requires Good(t)
    ensures Good(r.0) && AddsNothingQueued(t, r.0)
  {
    var (t1, deferred) := CheckDeferred(t, key);
    if deferred.Some? then (t1, deferred.value)
    else
      var (t2, forced) := CheckForceFail(t1, key);
      (t2, if forced.Some? then forced.value else defaultRc)
  }

  /** Counts the call; the second component is the count before it. */
  function CountCall(t: Table, key: Key, rc: int): (r: Option<(Table, nat)>)
    requires Good(t)
    ensures r.Some? ==> Good(r.value.0) && AddsNothingQueued(t, r.value.0)
  {
    var slot := SlotFor(t, key, Counter);
    if slot.None? then None else
      SlotForIsAlone(t, key, Counter);
      var count := CountIn(t[slot.value].data);
      var e := Entry(Counter, key, false, Rc(NextCount(count), rc));
      GoodUpdate(t, slot.value, e);
      Some((t[slot.value := e], count))
  }

  function ContextOf(t: Table, key: Key): (r: Option<seq<int>>)
    requires Good(t)
  {
    var found := Find(t, key, CallbackContext);
    if found.None? then None else Some(t[found.value].data.args)
  }

  function HookedCode(t: Table, key: Key, rc: int, count: nat, hooks: Hooks): (r: int)
    requires Good(t)
  {
    var found := Find(t, key, CallbackHook);
    if found.None? then rc else hooks(t[found.value].data.callback, rc, count, ContextOf(t, key))
  }

  /** The default stub implementation: new table and return code, or `None` if it aborted. */
  function Call(t: Table, key: Key, defaultRc: int, hooks: Hooks): (r: Option<(Table, int)>)
    requires Good(t)
    ensures r.Some? ==> Good(r.value.0) && AddsNothingQueued(t, r.value.0)
  {
    var (t1, rc) := SelectCode(t, key, defaultRc);
    match CountCall(t1, key, rc)
    case None => None
    case Some((t2, count)) =>
      Some((ClearOne(t2, key, CallbackContext), HookedCode(t2, key, rc, count, hooks)))
  }

  // ---- Data buffers ----

  function Min(a: nat, b: nat): (m: nat)
    ensures m <= a && m <= b && (m == a || m == b)
  {
    if a < b then a else b
  }

  /** All bytes of a live buffer. */
  function Contents(e: Entry, mem: Memory): (s: seq<Byte>)
    requires WellFormed(e) && e.kind.DataBuffer? && EntryInMemory(e, mem)
    ensures |s| == e.data.totalSize
  {
    match e.data.base
    case Copied(bytes) => bytes
    case Direct(block) => mem[block][..e.data.totalSize]
  }

  /** A buffer entry after `n` of its bytes were used: gone when none is left. */
  function Advance(e: Entry, n: nat): (r: Entry)
    requires WellFormed(e) && e.kind.DataBuffer? && e.data.position + n <= e.data.totalSize
    ensures WellFormed(r)
  {
    if e.data.position + n == e.data.totalSize then ZERO_ENTRY
    else e.(data := e.data.(position := e.data.position + n))
  }

  /** Reads at most `maxSize` bytes from the nearest buffer. */
  function CopyToLocal(t: Table, mem: Memory, key: Key, maxSize: nat): (r: (Table, seq<Byte>))
    requires Good(t) && MemoryHolds(t, mem)
    ensures Good(r.0) && MemoryHolds(r.0, mem)
  {
    var found := Find(t, key, DataBuffer);
    if found.None? then (t, [])
    else
      var e := t[found.value];
      var p := e.data.position;
      var n := Min(maxSize, e.data.totalSize - p);
      GoodUpdate(t, found.value, Advance(e, n));
      var t': Table := t[found.value := Advance(e, n)];
      (t', Contents(e, mem)[p..p + n])
  }

  /** Writes at most all of `local` to the nearest buffer; the last component is the number written. */
  function CopyFromLocal(t: Table, mem: Memory, key: Key, local: seq<Byte>): (r: (Table, Memory, nat))
    requires Good(t) && MemoryHolds(t, mem)
    ensures Good(r.0) && MemoryHolds(r.0, r.1)
  {
    var found := Find(t, key, DataBuffer);
    if found.None? then (t, mem, 0)
    else
      var e := t[found.value];
      var p := e.data.position;
      var n := Min(|local|, e.data.totalSize - p);
      match e.data.base
      case Copied(bytes) =>
        var e' := e.(data := e.data.(base := Copied(Overwrite(bytes, p, local[..n]))));
        GoodUpdate(t, found.value, Advance(e', n));
        var t': Table := t[found.value := Advance(e', n)];
        (t', mem, n)
      case Direct(block) =>
        GoodUpdate(t, found.value, Advance(e, n));
        var t': Table := t[found.value := Advance(e, n)];
        (t', mem[block := Overwrite(mem[block], p, local[..n])], n)
  }

  // ---- Call once ----

  /** The lowest-numbered free slot from `i` on. */
  function FirstFree(t: Table, i: nat): (r: Option<nat>)
    requires i <= MAX_FUNC_STUBS
    ensures r.Some? ==> i <= r.value < MAX_FUNC_STUBS && t[r.value].kind.Unused?
    ensures forall j | i <= j < MAX_FUNC_STUBS && t[j].kind.Unused? :: r.Some? && r.value <= j
    decreases |t| - i
  {
    if i == |t| then None else if t[i].kind.Unused? then Some(i) else FirstFree(t, i + 1)
  }

  function OnceEntry(key: Key): Entry {
    Entry(CallOnce, key, false, Zeroed)
  }

  /** Whether the one-time function runs now, and the table that remembers it; `None` if it aborted. */
  function MarkOnce(t: Table, key: Key): (r: Option<(Table, bool)>)
    requires Good(t)
    ensures r.Some? ==> Good(r.value.0) && AddsNothingQueued(t, r.value.0)
  {
    if key == 0 || Find(t, key, CallOnce).Some? then Some((t, false))
    else
      var free := FirstFree(t, 0);
      if free.None? then None else
        ProbeIsNearest(t, Home(key), key, CallOnce, None);
        GoodUpdate(t, free.value, OnceEntry(key));
        Some((t[free.value := OnceEntry(key)], true))
  }
}
