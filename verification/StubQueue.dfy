/**
 The message-queue stubs (osal/src/ut-stubs/osapi-utstub-queue.c): OS_QueuePut stores each
 message as a data buffer of the stub table, OS_QueueGet reads it back.
 */
module StubQueue {
  import opened Basics
  import opened StubEntries
  import opened StubSpec
  import opened StubViews
  import opened StubRuns
  import opened StubCodes
  import opened StubHooks
  import opened StubBuffers
  import opened StubAnswers
  import StubTable

  const OS_SUCCESS := 0
  const OS_QUEUE_EMPTY := -8

  /** The addresses of the two stub functions and the range of addresses, which wrap around. */
  datatype Platform = Platform(getAddress: Key, putAddress: Key, addressRange: nat) {
    predicate Valid() {
      UINT32_RANGE <= addressRange && getAddress < addressRange && putAddress < addressRange
    }

    /** The table key that holds the messages of a queue: an address, with wrap-around. */
    function QueueKey(id: nat): (k: Key)
      requires Valid() && id < UINT32_RANGE
      ensures k < addressRange
    {
      var k := getAddress + id;
      if k < addressRange then k else k - addressRange
    }
  }

  /** Different queues never share a key. */
  lemma QueueKeysDiffer(p: Platform, i: nat, j: nat)
    requires p.Valid() && i < UINT32_RANGE && j < UINT32_RANGE && i != j
    ensures p.QueueKey(i) != p.QueueKey(j)
  {
  }

  /** A put: the status, and the state after it. */
  function Put(s: State, p: Platform, id: nat, data: seq<Byte>, hooks: Hooks): (r: Option<(State, int)>)
    requires Inv(s) && p.Valid() && id < UINT32_RANGE
    ensures r.Some? ==> Inv(r.value.0)
  {
    var call := Step(s, OpCall(p.putAddress, OS_SUCCESS), hooks);
    if call.None? then None
    else
      var (s1, reply) := call.value;
      if reply != Returned(OS_SUCCESS) then Some((s1, if reply.Returned? then reply.rc else 0))
      else
        var stored := Step(s1, OpSetData(p.QueueKey(id), Some(Copied(data)), |data|), hooks);
        if stored.None? then None else Some((stored.value.0, OS_SUCCESS))
  }

  /** A get: the status, the bytes copied, and the state after it. */
  function Get(s: State, p: Platform, id: nat, size: nat, hooks: Hooks): (r: Option<(State, int, seq<Byte>)>)
    requires Inv(s) && p.Valid() && id < UINT32_RANGE
    ensures r.Some? ==> Inv(r.value.0)
  {
    var call := Step(s, OpCall(p.getAddress, OS_SUCCESS), hooks);
    if call.None? then None
    else
      var (s1, reply) := call.value;
      if reply != Returned(OS_SUCCESS) then Some((s1, if reply.Returned? then reply.rc else 0, []))
      else
        var (t', bytes) := CopyToLocal(s1.slots, s1.mem, p.QueueKey(id), size);
        Some((State(t', s1.mem), if bytes == [] then OS_QUEUE_EMPTY else OS_SUCCESS, bytes))
  }

  /** OS_QueuePut on the real table; `None` means that the test was aborted. */
  method QueuePut(table: StubTable.StubTable, p: Platform, id: nat, data: seq<Byte>, hooks: Hooks)
    returns (status: Option<int>)
    requires table.Valid() && p.Valid() && id < UINT32_RANGE
    modifies table, table.slots
    ensures table.Valid() && table.slots == old(table.slots)
    ensures var spec := Put(State(old(table.Contents()), old(table.memory)), p, id, data, hooks);
      && status.None? == spec.None?
      && (status.Some? ==> (State(table.Contents(), table.memory), status.value) == spec.value)
  {
    hide Call, SetDataBuffer;
    status := table.DefaultStubImpl(p.putAddress, OS_SUCCESS, hooks);
    if status == Some(OS_SUCCESS) {
      var aborted := table.SetDataBuffer(p.QueueKey(id), Some(Copied(data)), |data|);
      if aborted {
        status := None;
      }
    }
  }

  /** OS_QueueGet on the real table; `None` means that the test was aborted. */
  method QueueGet(table: StubTable.StubTable, p: Platform, id: nat, size: nat, hooks: Hooks)
    returns (r: Option<(int, seq<Byte>)>)
    requires table.Valid() && p.Valid() && id < UINT32_RANGE
    modifies table, table.slots
    ensures table.Valid() && table.slots == old(table.slots)
    ensures var spec := Get(State(old(table.Contents()), old(table.memory)), p, id, size, hooks);
      && r.None? == spec.None?
      && (r.Some? ==> (State(table.Contents(), table.memory), r.value.0, r.value.1) == spec.value)
  {
    hide Call, CopyToLocal;
    var status := table.DefaultStubImpl(p.getAddress, OS_SUCCESS, hooks);
    if status.None? {
      return None;
    }
    if status.value != OS_SUCCESS {
      return Some((status.value, []));
    }
    var bytes := table.CopyToLocal(p.QueueKey(id), size);
    return Some((if |bytes| == 0 then OS_QUEUE_EMPTY else OS_SUCCESS, bytes));
  }

  // ---- What put and get answer ----

  /**
   A get, by what the queue holds. It aborts exactly if its stub's call does. If the stub's call
   returns another code than success, that is the answer and the queue stays as it was. Else the
   answer is success with the first bytes of the first message, as many as are asked for, and
   what is left of that message stays first; or -8, queue empty, if and only if there is no
   message or nothing is asked for.
   */
  lemma GetAnswers(s: State, p: Platform, id: nat, size: nat, hooks: Hooks)
    requires Inv(s) && p.Valid() && id < UINT32_RANGE
    ensures var call := Step(s, OpCall(p.getAddress, 0), hooks);
      var q := Stream(s, p.QueueKey(id));
      && (Get(s, p, id, size, hooks).None? <==> call.None?)
      && (call.Some? ==>
            && call.value.1.Returned?
            && var code := call.value.1.rc;
            && var (s', status, bytes) := Get(s, p, id, size, hooks).value;
            && (code != 0 ==> status == code && bytes == [] && Stream(s', p.QueueKey(id)) == q)
            && (code == 0 && q == [] ==> status == -8 && bytes == [] && Stream(s', p.QueueKey(id)) == [])
            && (code == 0 && q != [] ==>
                  && 0 < |q[0]| && status == (if size == 0 then -8 else 0)
                  && bytes == (if size < |q[0]| then q[0][..size] else q[0])
                  && Stream(s', p.QueueKey(id)) == if size < |q[0]| then [q[0][size..]] + q[1..] else q[1..]))
  {
    hide Step, Stream, CopyToLocal, Good, MemoryHolds;
    if Step(s, OpCall(p.getAddress, 0), hooks).Some? {
      var key := p.QueueKey(id);
      CallKeepsStream(s, p.getAddress, hooks, key);
      var s1 := Step(s, OpCall(p.getAddress, 0), hooks).value.0;
      CopyToLocalServes(s1, key, size);
      FirstIsNotEmpty(s, key);
      var q := Stream(s, key);
      if q != [] && size >= |q[0]| {
        assert q[0][..|q[0]|] == q[0];
      }
    }
  }

  lemma FirstIsNotEmpty(s: State, key: Key)
    requires Inv(s)
    ensures Stream(s, key) != [] ==> 0 < |Stream(s, key)[0]|
  {
    hide View, CopyToLocal, Rest, Advance;
    CopyToLocalView(s, key, 0);
  }

  /**
   A put. If its stub's call returns another code than success, that is the answer and nothing is
   stored. Else the answer is success, unless the message is not empty and no slot is free, which
   aborts the test.
   */
  lemma PutAnswers(s: State, p: Platform, id: nat, data: seq<Byte>, hooks: Hooks)
    requires Inv(s) && p.Valid() && id < UINT32_RANGE
    ensures var call := Step(s, OpCall(p.putAddress, 0), hooks);
      && (Put(s, p, id, data, hooks).None? <==>
            call.None? || (call.value.1 == Returned(0) && data != [] && !HasFree(call.value.0.slots)))
      && (call.Some? && call.value.1 != Returned(0) ==>
            call.value.1.Returned? && Put(s, p, id, data, hooks) == Some((call.value.0, call.value.1.rc)))
      && (call.Some? && call.value.1 == Returned(0) && Put(s, p, id, data, hooks).Some? ==>
            Put(s, p, id, data, hooks).value.1 == 0)
  {
    hide Stream, HasFree, Step, Good, MemoryHolds;
    var call := Step(s, OpCall(p.putAddress, 0), hooks);
    if call.Some? {
      Replies(s, OpCall(p.putAddress, 0), hooks);
      AbortsExactly(call.value.0, OpSetData(p.QueueKey(id), Some(Copied(data)), |data|), hooks);
    }
  }

  // ---- A message put is a message got ----

  /** At least `n` slots are free. */
  ghost predicate AtLeastFree(t: Table, n: nat) {
    exists f: seq<nat> :: |f| == n && FreeSlots(t, f)
  }

  ghost predicate FreeSlots(t: Table, f: seq<nat>) {
    && (forall i | 0 <= i < |f| :: f[i] < MAX_FUNC_STUBS && t[f[i]].kind.Unused?)
    && forall i, j | 0 <= i < j < |f| :: f[i] != f[j]
  }

  /** All free slots but perhaps `i` stay free. */
  ghost predicate UsesOnly(t: Table, u: Table, i: nat) {
    forall j: nat | j < MAX_FUNC_STUBS && t[j].kind.Unused? :: u[j].kind.Unused? || j == i
  }

  ghost predicate UsesOneSlot(t: Table, u: Table) {
    exists i: nat :: UsesOnly(t, u, i)
  }

  lemma OneFewer(t: Table, u: Table, n: nat)
    requires AtLeastFree(t, n + 1) && UsesOneSlot(t, u)
    ensures AtLeastFree(u, n)
  {
    var f: seq<nat> :| |f| == n + 1 && FreeSlots(t, f);
    var i: nat :| UsesOnly(t, u, i);
    if k :| 0 <= k < |f| && f[k] == i {
      var g := f[..k] + f[k + 1..];
      assert forall m | 0 <= m < |g| :: g[m] == f[if m < k then m else m + 1];
      assert FreeSlots(u, g) && |g| == n;
    } else {
      assert FreeSlots(u, f[..n]) && |f[..n]| == n;
    }
  }

  lemma SomeFree(t: Table, n: nat)
    requires AtLeastFree(t, n) && 0 < n
    ensures HasFree(t)
  {
    var f: seq<nat> :| |f| == n && FreeSlots(t, f);
    assert t[f[0]].kind.Unused?;
  }

  lemma CallUsesOneSlot(t: Table, key: Key, defaultRc: int, hooks: Hooks)
    requires Good(t) && Call(t, key, defaultRc, hooks).Some?
    ensures UsesOneSlot(t, Call(t, key, defaultRc, hooks).value.0)
  {
    hide ProbeFrom, SelectCode, HookedCode;
    var (t1, rc) := SelectCode(t, key, defaultRc);
    var i := SlotFor(t1, key, Counter).value;
    var u := Call(t, key, defaultRc, hooks).value.0;
    forall j: nat | j < MAX_FUNC_STUBS && t[j].kind.Unused?
      ensures u[j].kind.Unused? || j == i
    {
      SelectKeepsFree(t, key, defaultRc, j);
    }
    assert UsesOnly(t, u, i);
  }

  lemma SetDataUsesOneSlot(t: Table, key: Key, data: seq<Byte>)
    requires Good(t) && SetDataBuffer(t, key, Some(Copied(data)), |data|).Some?
    ensures UsesOneSlot(t, SetDataBuffer(t, key, Some(Copied(data)), |data|).value)
  {
    hide ProbeFrom;
    if data == [] {
      assert UsesOnly(t, t, 0);
    } else {
      var i := FindFree(t, key).value;
      var u := SetDataBuffer(t, key, Some(Copied(data)), |data|).value;
      assert UsesOnly(t, u, i);
    }
  }

  /** Nothing makes the stub return another code than its default. */
  ghost predicate Quiet(t: Table, key: Key) {
    HookOf(t, key).None? && ForcedOf(t, key).None? && Pending(t, key) == []
  }

  /** A call of a quiet stub goes through if a slot is free, returns its default code, and leaves all stubs as quiet as they were. */
  lemma QuietCall(s: State, address: Key, hooks: Hooks, n: nat)
    requires Inv(s) && Quiet(s.slots, address) && AtLeastFree(s.slots, n + 1)
    ensures var r := Step(s, OpCall(address, 0), hooks);
      r.Some? && r.value.1 == Returned(0) && AtLeastFree(r.value.0.slots, n)
  {
    hide HookOf, ForcedOf, Pending, AtLeastFree, HasFree, LastCodeOf, Call, UsesOneSlot, ParamsOf, CountOf;
    SomeFree(s.slots, n + 1);
    AbortsExactly(s, OpCall(address, 0), hooks);
    CallOutcome(s.slots, address, 0, hooks);
    CallUsesOneSlot(s.slots, address, 0, hooks);
    OneFewer(s.slots, Step(s, OpCall(address, 0), hooks).value.0.slots, n);
  }

  lemma StaysQuiet(s: State, op: Op, hooks: Hooks, key: Key)
    requires Inv(s) && Step(s, op, hooks).Some? && Quiet(s.slots, key) && (op.OpCall? || op.OpSetData?)
    ensures Quiet(Step(s, op, hooks).value.0.slots, key)
  {
    hide HookOf, ForcedOf, Pending, Step, Good, MemoryHolds;
    StepHook(s, op, hooks, key);
    StepForced(s, op, hooks, key);
    StepRefinesQueue(s, op, hooks, key);
  }

  /**
   A message put into an empty queue is what the next get delivers, if nothing interferes with the
   two stubs and three slots are free; the queue is empty again afterwards.
   */
  lemma PutThenGet(s: State, p: Platform, id: nat, data: seq<Byte>, size: nat, hooks: Hooks)
    requires Inv(s) && p.Valid() && id < UINT32_RANGE && 0 < |data| <= size
    requires Stream(s, p.QueueKey(id)) == [] && Quiet(s.slots, p.putAddress) && Quiet(s.slots, p.getAddress)
    requires AtLeastFree(s.slots, 3)
    ensures var put := Put(s, p, id, data, hooks);
      && put.Some? && put.value.1 == 0
      && var got := Get(put.value.0, p, id, size, hooks);
      && got.Some? && got.value.1 == 0 && got.value.2 == data && Stream(got.value.0, p.QueueKey(id)) == []
  {
    hide Step, Stream, Quiet, AtLeastFree, HasFree, CopyToLocal, UsesOneSlot, Good, MemoryHolds;
    var key := p.QueueKey(id);
    var call, set0 := OpCall(p.putAddress, 0), OpSetData(key, Some(Copied(data)), |data|);
    QuietCall(s, p.putAddress, hooks, 2);
    var s1 := Step(s, call, hooks).value.0;
    CallKeepsStream(s, p.putAddress, hooks, key);
    StaysQuiet(s, call, hooks, p.getAddress);
    SomeFree(s1.slots, 2);
    PutAnswers(s, p, id, data, hooks);
    var s2 := Step(s1, set0, hooks).value.0;
    assert Put(s, p, id, data, hooks) == Some((s2, 0));
    StoredFirst(s1, key, data, hooks);
    StaysQuiet(s1, set0, hooks, p.getAddress);
    QuietCall(s2, p.getAddress, hooks, 0);
    GetAnswers(s2, p, id, size, hooks);
  }

  lemma StoredFirst(s: State, key: Key, data: seq<Byte>, hooks: Hooks)
    requires Inv(s) && data != [] && Stream(s, key) == [] && AtLeastFree(s.slots, 2)
    requires Step(s, OpSetData(key, Some(Copied(data)), |data|), hooks).Some?
    ensures var s' := Step(s, OpSetData(key, Some(Copied(data)), |data|), hooks).value.0;
      Stream(s', key) == [data] && AtLeastFree(s'.slots, 1)
  {
    hide View, RestOfAll, Insert, AppendsLast, AtLeastFree, UsesOneSlot, SourceBytes;
    EmptyViewOf(s, key);
    NoBuffersAppendsLast(s.slots, key);
    SetDataStream(s, key, Copied(data), |data|);
    SourceBytesAre(Copied(data), |data|, s.mem);
    assert [] + [data] == [data];
    SetDataUsesOneSlot(s.slots, key, data);
    OneFewer(s.slots, Step(s, OpSetData(key, Some(Copied(data)), |data|), hooks).value.0.slots, 1);
  }

  lemma EmptyViewOf(s: State, key: Key)
    requires Stream(s, key) == []
    ensures View(s.slots, key, DataBuffer) == []
  {
    hide View;
    assert |RestOfAll(View(s.slots, key, DataBuffer), s.mem)| == |View(s.slots, key, DataBuffer)|;
  }

  /** In particular on a new table: a put and a get of any queue, on the real table. */
  method NewPutThenGet(p: Platform, id: nat, data: seq<Byte>, size: nat, hooks: Hooks)
    returns (put: Option<int>, got: Option<(int, seq<Byte>)>)
    requires p.Valid() && id < UINT32_RANGE && 0 < |data| <= size
    ensures put == Some(0) && got == Some((0, data))
  {
    hide View, Put, Get, Quiet, AtLeastFree, Stream, Good;
    var table := new StubTable.StubTable(map[]);
    ghost var s := State(EmptyTable(), map[]);
    EmptyIsReady(p, id);
    PutThenGet(s, p, id, data, size, hooks);
    put := QueuePut(table, p, id, data, hooks);
    got := QueueGet(table, p, id, size, hooks);
  }

  lemma EmptyIsReady(p: Platform, id: nat)
    requires p.Valid() && id < UINT32_RANGE
    ensures var s := State(EmptyTable(), map[]);
      && Inv(s) && Stream(s, p.QueueKey(id)) == [] && Quiet(s.slots, p.putAddress) && Quiet(s.slots, p.getAddress)
      && AtLeastFree(s.slots, 3)
  {
    hide View;
    EmptyViewOfEmptyTable(p.QueueKey(id), DataBuffer);
    EmptyScript(p.putAddress);
    EmptyScript(p.getAddress);
    assert FreeSlots(EmptyTable(), [0, 1, 2]) && |[0, 1, 2]| == 3;
  }

  /** The key of a queue is its ID added to the address of the get stub. */
  lemma QueueKeyIs(p: Platform, id: nat)
    requires p.Valid() && id < UINT32_RANGE
    ensures (p.QueueKey(id) - p.getAddress - id) % p.addressRange == 0 && p.QueueKey(id) < p.addressRange
  {
  }

  // ---- Conservation of messages ----

  /** Puts and gets of any queues, with other stub operations in between. */
  datatype QueueOp = QPut(id: nat, data: seq<Byte>) | QGet(id: nat, size: nat) | Other(op: Op)

  /** What happened: a put was answered with success, a message was delivered by a queue, or neither. */
  datatype Event = Accepted(id: nat, data: seq<Byte>) | Delivered(id: nat, data: seq<Byte>) | Nothing

  predicate IdsValid(q: QueueOp) {
    q.Other? || q.id < UINT32_RANGE
  }

  function QueueStep(s: State, p: Platform, q: QueueOp, hooks: Hooks): (r: Option<(State, Event)>)
    requires Inv(s) && p.Valid() && IdsValid(q)
    ensures r.Some? ==> Inv(r.value.0)
  {
    match q
    case QPut(id, data) =>
      var r := Put(s, p, id, data, hooks);
      if r.None? then None
      else Some((r.value.0, if r.value.1 == OS_SUCCESS then Accepted(id, data) else Nothing))
    case QGet(id, size) =>
      var r := Get(s, p, id, size, hooks);
      if r.None? then None
      else Some((r.value.0, if r.value.1 == OS_SUCCESS then Delivered(id, r.value.2) else Nothing))
    case Other(op) =>
      var r := Step(s, op, hooks);
      if r.None? then None else Some((r.value.0, Nothing))
  }

  function QueueRun(s: State, p: Platform, qs: seq<QueueOp>, hooks: Hooks): (r: Option<(State, seq<Event>)>)
    requires Inv(s) && p.Valid() && forall q <- qs :: IdsValid(q)
    ensures r.Some? ==> Inv(r.value.0)
    decreases qs
  {
    if qs == [] then Some((s, []))
    else
      assert qs[0] in qs;
      var first := QueueStep(s, p, qs[0], hooks);
      if first.None? then None
      else
        var rest := QueueRun(first.value.0, p, qs[1..], hooks);
        if rest.None? then None else Some((rest.value.0, [first.value.1] + rest.value.1))
  }

  function AcceptedBy(events: seq<Event>, id: nat): multiset<seq<Byte>>
    decreases events
  {
    if events == [] then multiset{}
    else (if events[0].Accepted? && events[0].id == id then multiset{events[0].data} else multiset{})
         + AcceptedBy(events[1..], id)
  }

  /** The empty messages among the accepted ones: a put of no bytes succeeds, but stores nothing. */
  function EmptyBy(events: seq<Event>, id: nat): multiset<seq<Byte>>
    decreases events
  {
    if events == [] then multiset{}
    else (if events[0] == Accepted(id, []) then multiset{[]} else multiset{}) + EmptyBy(events[1..], id)
  }

  function DeliveredBy(events: seq<Event>, id: nat): multiset<seq<Byte>>
    decreases events
  {
    if events == [] then multiset{}
    else (if events[0].Delivered? && events[0].id == id then multiset{events[0].data} else multiset{})
         + DeliveredBy(events[1..], id)
  }

  /** A reset that throws the messages of a key away. */
  predicate Discards(q: QueueOp, key: Key) {
    q.Other? && q.op.OpReset? && (q.op.key == 0 || q.op.key == key)
  }

  /** The messages of queue `id` that the resets of a run threw away. */
  function DiscardedBy(s: State, p: Platform, qs: seq<QueueOp>, hooks: Hooks, id: nat): multiset<seq<Byte>>
    requires Inv(s) && p.Valid() && id < UINT32_RANGE && forall q <- qs :: IdsValid(q)
    decreases qs
  {
    if qs == [] then multiset{}
    else
      assert qs[0] in qs;
      var first := QueueStep(s, p, qs[0], hooks);
      if first.None? then multiset{}
      else
        (if Discards(qs[0], p.QueueKey(id)) then multiset(Stream(s, p.QueueKey(id))) else multiset{})
        + DiscardedBy(first.value.0, p, qs[1..], hooks, id)
  }

  /**
   Messages of queue `id` fit in `limit` bytes, and its gets offer that much. Other operations
   may reset the queue, but otherwise do not name its key, and do not write into its blocks.
   */
  predicate Roomy(q: QueueOp, p: Platform, id: nat, limit: nat, sh: Sharing)
    requires p.Valid() && id < UINT32_RANGE
  {
    match q
    case QPut(i, data) => i == id ==> |data| <= limit
    case QGet(i, size) => i == id ==> limit <= size
    case Other(op) =>
      Discards(q, p.QueueKey(id)) || (!Touches(op, p.QueueKey(id), DataBuffer) && ActsApart(op, p.QueueKey(id), sh))
  }

  ghost predicate Fits(q: seq<seq<Byte>>, limit: nat) {
    forall m <- q :: 0 < |m| <= limit
  }

  lemma CallKeepsStream(s: State, address: Key, hooks: Hooks, key: Key)
    requires Inv(s) && Step(s, OpCall(address, OS_SUCCESS), hooks).Some?
    ensures var (s1, reply) := Step(s, OpCall(address, OS_SUCCESS), hooks).value;
      s1.mem == s.mem && Stream(s1, key) == Stream(s, key) && reply.Returned?
  {
    hide View, Call, RestOfAll;
    StepFrame(s, OpCall(address, OS_SUCCESS), hooks, key, DataBuffer);
  }

  lemma PutConserves(s: State, p: Platform, i: nat, data: seq<Byte>, hooks: Hooks, id: nat)
    requires Inv(s) && p.Valid() && i < UINT32_RANGE && id < UINT32_RANGE && Put(s, p, i, data, hooks).Some?
    ensures var (s', status) := Put(s, p, i, data, hooks).value;
      multiset(Stream(s', p.QueueKey(id)))
        == multiset(Stream(s, p.QueueKey(id)))
           + if i == id && status == OS_SUCCESS && data != [] then multiset{data} else multiset{}
  {
    hide Call, Stream, Insert;
    CallKeepsStream(s, p.putAddress, hooks, p.QueueKey(id));
    var (s1, reply) := Step(s, OpCall(p.putAddress, OS_SUCCESS), hooks).value;
    if reply == Returned(OS_SUCCESS) {
      var op := OpSetData(p.QueueKey(i), Some(Copied(data)), |data|);
      if i != id {
        SetDataKeepsStream(s1, p.QueueKey(i), data, hooks, p.QueueKey(id));
      } else if data != [] {
        SetDataStream(s1, p.QueueKey(id), Copied(data), |data|);
        assert data[0..] == data;
      }
    }
  }

  lemma OtherKeepsStream(s: State, op: Op, hooks: Hooks, key: Key, sh: Sharing)
    requires Inv(s) && Step(s, op, hooks).Some? && !Touches(op, key, DataBuffer)
    requires Apart(s.slots, key, sh) && ActsApart(op, key, sh)
    ensures Stream(Step(s, op, hooks).value.0, key) == Stream(s, key)
  {
    hide View, RestOfAll, Step, Apart, SameBlocks;
    StepFrame(s, op, hooks, key, DataBuffer);
    StepApart(s, op, hooks, key, sh);
    StreamSame(s, Step(s, op, hooks).value.0.mem, key, sh);
  }

  lemma SetDataKeepsStream(s: State, k: Key, data: seq<Byte>, hooks: Hooks, key: Key)
    requires Inv(s) && k != key && Step(s, OpSetData(k, Some(Copied(data)), |data|), hooks).Some?
    ensures Stream(Step(s, OpSetData(k, Some(Copied(data)), |data|), hooks).value.0, key) == Stream(s, key)
  {
    hide View, RestOfAll, Insert;
    StepFrame(s, OpSetData(k, Some(Copied(data)), |data|), hooks, key, DataBuffer);
  }

  lemma ReadKeepsStream(s: State, own: Key, size: nat, key: Key)
    requires Inv(s) && own != key
    ensures Stream(State(CopyToLocal(s.slots, s.mem, own, size).0, s.mem), key) == Stream(s, key)
  {
    hide View, RestOfAll, CopyToLocal;
    ReadFrame(s, own, size, key, DataBuffer);
  }

  /** With a large enough size, a get takes one whole message out of the stream, or finds it empty. */
  lemma GetConserves(s: State, p: Platform, i: nat, size: nat, hooks: Hooks, id: nat, limit: nat)
    requires Inv(s) && p.Valid() && i < UINT32_RANGE && id < UINT32_RANGE && Get(s, p, i, size, hooks).Some?
    requires Fits(Stream(s, p.QueueKey(id)), limit) && (i == id ==> limit <= size)
    ensures var (s', status, bytes) := Get(s, p, i, size, hooks).value;
      && multiset(Stream(s, p.QueueKey(id)))
           == multiset(Stream(s', p.QueueKey(id)))
              + (if i == id && status == OS_SUCCESS then multiset{bytes} else multiset{})
      && Fits(Stream(s', p.QueueKey(id)), limit)
  {
    hide Step, Stream, CopyToLocal, Serve, Good, MemoryHolds, Fits;
    CallKeepsStream(s, p.getAddress, hooks, p.QueueKey(id));
    var (s1, reply) := Step(s, OpCall(p.getAddress, OS_SUCCESS), hooks).value;
    if reply == Returned(OS_SUCCESS) {
      if i != id {
        ReadKeepsStream(s1, p.QueueKey(i), size, p.QueueKey(id));
      } else {
        CopyToLocalServes(s1, p.QueueKey(id), size);
        ServeWhole(Stream(s1, p.QueueKey(id)), size, limit);
      }
    }
  }

  lemma ServeWhole(q: seq<seq<Byte>>, size: nat, limit: nat)
    requires Fits(q, limit) && limit <= size
    ensures var (q', chunk) := Serve(q, size);
      && Fits(q', limit)
      && (chunk == [] <==> q == [])
      && (chunk == [] ==> q' == q)
      && (chunk != [] ==> multiset(q) == multiset(q') + multiset{chunk})
  {
    if q != [] {
      assert q[0] in q;
      assert q == [q[0]] + q[1..];
      assert q[0][..|q[0]|] == q[0];
    }
  }

  lemma ResetDiscards(s: State, op: Op, hooks: Hooks, key: Key)
    requires Inv(s) && op.OpReset? && (op.key == 0 || op.key == key) && Step(s, op, hooks).Some?
    ensures Stream(Step(s, op, hooks).value.0, key) == []
  {
    hide View;
    ResetView(s.slots, op.key, key, DataBuffer);
  }

  /** Puts, gets and other operations keep the queue's blocks apart. */
  lemma QueueStepApart(s: State, p: Platform, q: QueueOp, hooks: Hooks, id: nat, limit: nat, sh: Sharing)
    requires Inv(s) && p.Valid() && id < UINT32_RANGE && IdsValid(q) && Roomy(q, p, id, limit, sh)
    requires Apart(s.slots, p.QueueKey(id), sh) && QueueStep(s, p, q, hooks).Some?
    ensures Apart(QueueStep(s, p, q, hooks).value.0.slots, p.QueueKey(id), sh)
  {
    hide Step, Apart, SameBlocks, CopyToLocal, Stream;
    var key := p.QueueKey(id);
    match q
    case QPut(i, data) =>
      StepApart(s, OpCall(p.putAddress, OS_SUCCESS), hooks, key, sh);
      var (s1, reply) := Step(s, OpCall(p.putAddress, OS_SUCCESS), hooks).value;
      if reply == Returned(OS_SUCCESS) {
        StepApart(s1, OpSetData(p.QueueKey(i), Some(Copied(data)), |data|), hooks, key, sh);
      }
    case QGet(i, size) =>
      StepApart(s, OpCall(p.getAddress, OS_SUCCESS), hooks, key, sh);
      var (s1, reply) := Step(s, OpCall(p.getAddress, OS_SUCCESS), hooks).value;
      if reply == Returned(OS_SUCCESS) {
        ReadApart(s1, p.QueueKey(i), size, key, sh);
      }
    case Other(op) => StepApart(s, op, hooks, key, sh);
  }

  /** What a step does to the messages of a queue. */
  ghost predicate Conserves(before: seq<seq<Byte>>, after: seq<seq<Byte>>, event: Event, discards: bool, id: nat, limit: nat) {
    && multiset(before) + AcceptedBy([event], id)
         == multiset(after) + DeliveredBy([event], id) + EmptyBy([event], id)
            + (if discards then multiset(before) else multiset{})
    && Fits(after, limit)
  }

  lemma PutStep(s: State, p: Platform, q: QueueOp, hooks: Hooks, id: nat, limit: nat)
    requires Inv(s) && p.Valid() && id < UINT32_RANGE && IdsValid(q) && q.QPut? && (q.id == id ==> |q.data| <= limit)
    requires Fits(Stream(s, p.QueueKey(id)), limit) && QueueStep(s, p, q, hooks).Some?
    ensures var (s', event) := QueueStep(s, p, q, hooks).value;
      Conserves(Stream(s, p.QueueKey(id)), Stream(s', p.QueueKey(id)), event, false, id, limit)
  {
    hide Put, Stream, Step, AcceptedBy, DeliveredBy, EmptyBy, Fits;
    var (s', event) := QueueStep(s, p, q, hooks).value;
    EventSums(event, id);
    PutConserves(s, p, q.id, q.data, hooks, id);
    FitsFromBag(Stream(s, p.QueueKey(id)), Stream(s', p.QueueKey(id)), q.data, limit);
  }

  lemma GetStep(s: State, p: Platform, q: QueueOp, hooks: Hooks, id: nat, limit: nat)
    requires Inv(s) && p.Valid() && id < UINT32_RANGE && IdsValid(q) && q.QGet? && (q.id == id ==> limit <= q.size)
    requires Fits(Stream(s, p.QueueKey(id)), limit) && QueueStep(s, p, q, hooks).Some?
    ensures var (s', event) := QueueStep(s, p, q, hooks).value;
      Conserves(Stream(s, p.QueueKey(id)), Stream(s', p.QueueKey(id)), event, false, id, limit)
  {
    hide Get, Stream, Step, AcceptedBy, DeliveredBy, EmptyBy, Fits;
    EventSums(QueueStep(s, p, q, hooks).value.1, id);
    GetConserves(s, p, q.id, q.size, hooks, id, limit);
  }

  lemma QueueStepConserves(s: State, p: Platform, q: QueueOp, hooks: Hooks, id: nat, limit: nat, sh: Sharing)
    requires Inv(s) && p.Valid() && id < UINT32_RANGE && IdsValid(q) && Roomy(q, p, id, limit, sh)
    requires Apart(s.slots, p.QueueKey(id), sh)
    requires Fits(Stream(s, p.QueueKey(id)), limit) && QueueStep(s, p, q, hooks).Some?
    ensures var (s', event) := QueueStep(s, p, q, hooks).value;
      Conserves(Stream(s, p.QueueKey(id)), Stream(s', p.QueueKey(id)), event, Discards(q, p.QueueKey(id)), id, limit)
  {
    hide Stream, Step, Apart, ActsApart, AcceptedBy, DeliveredBy, EmptyBy, Put, Get;
    match q
    case QPut(_, _) => PutStep(s, p, q, hooks, id, limit);
    case QGet(_, _) => GetStep(s, p, q, hooks, id, limit);
    case Other(op) =>
      EventSums(QueueStep(s, p, q, hooks).value.1, id);
      if Discards(q, p.QueueKey(id)) {
        ResetDiscards(s, op, hooks, p.QueueKey(id));
      } else {
        OtherKeepsStream(s, op, hooks, p.QueueKey(id), sh);
      }
  }

  lemma EventSums(e: Event, id: nat)
    ensures AcceptedBy([e], id) == if e.Accepted? && e.id == id then multiset{e.data} else multiset{}
    ensures EmptyBy([e], id) == if e == Accepted(id, []) then multiset{[]} else multiset{}
    ensures DeliveredBy([e], id) == if e.Delivered? && e.id == id then multiset{e.data} else multiset{}
  {
    assert [e][1..] == [];
  }

  lemma FitsFromBag(q: seq<seq<Byte>>, q': seq<seq<Byte>>, data: seq<Byte>, limit: nat)
    requires Fits(q, limit)
    requires multiset(q') == multiset(q)
      || (0 < |data| <= limit && multiset(q') == multiset(q) + multiset{data})
    ensures Fits(q', limit)
  {
    forall m <- q'
      ensures 0 < |m| <= limit
    {
      assert m in multiset(q');
      assert m in multiset(q) || m == data;
    }
  }

  /**
   No message is invented or altered, and none but empty ones is lost: over every interleaving
   of puts and gets of all queues and of other stub operations, whatever the delivery order,
   the messages a queue held plus those whose put succeeded are those it delivered whole, those
   it still holds, those that a reset threw away, and the empty ones, which are never stored.
   */
  lemma {:induction false} QueueConservesMessages(s: State, p: Platform, qs: seq<QueueOp>, hooks: Hooks, id: nat, limit: nat,
                                                  sh: Sharing)
    requires Inv(s) && p.Valid() && id < UINT32_RANGE && Apart(s.slots, p.QueueKey(id), sh)
    requires forall q <- qs :: IdsValid(q) && Roomy(q, p, id, limit, sh)
    requires Fits(Stream(s, p.QueueKey(id)), limit) && QueueRun(s, p, qs, hooks).Some?
    ensures var (s', events) := QueueRun(s, p, qs, hooks).value;
      multiset(Stream(s, p.QueueKey(id))) + AcceptedBy(events, id)
        == DeliveredBy(events, id) + multiset(Stream(s', p.QueueKey(id))) + DiscardedBy(s, p, qs, hooks, id) + EmptyBy(events, id)
    decreases qs
  {
    hide QueueStep, Stream, Fits, Roomy, IdsValid, AcceptedBy, DeliveredBy, EmptyBy, Inv, Apart, Discards;
    if qs == [] {
      NoEvents(id);
    } else {
      assert qs[0] in qs;
      var (s1, event) := QueueStep(s, p, qs[0], hooks).value;
      QueueStepConserves(s, p, qs[0], hooks, id, limit, sh);
      QueueStepApart(s, p, qs[0], hooks, id, limit, sh);
      QueueConservesMessages(s1, p, qs[1..], hooks, id, limit, sh);
      var rest := QueueRun(s1, p, qs[1..], hooks).value.1;
      EventsCons(event, rest, id);
      var key, s' := p.QueueKey(id), QueueRun(s1, p, qs[1..], hooks).value.0;
      var now := if Discards(qs[0], key) then multiset(Stream(s, key)) else multiset{};
      SumsChain(multiset(Stream(s, key)), AcceptedBy([event], id), multiset(Stream(s1, key)), DeliveredBy([event], id), now,
                EmptyBy([event], id), AcceptedBy(rest, id), DeliveredBy(rest, id), multiset(Stream(s', key)),
                DiscardedBy(s1, p, qs[1..], hooks, id), EmptyBy(rest, id));
    }
  }

  lemma SumsChain<T>(a: multiset<T>, x: multiset<T>, b: multiset<T>, y: multiset<T>, z: multiset<T>, e: multiset<T>,
                     u: multiset<T>, v: multiset<T>, c: multiset<T>, w: multiset<T>, f: multiset<T>)
    requires a + x == b + y + e + z && b + u == v + c + w + f
    ensures a + (x + u) == (y + v) + c + (z + w) + (e + f)
  {
    assert a + (x + u) == (a + x) + u == (b + y + e + z) + u == (b + u) + (y + e + z) == (v + c + w + f) + (y + e + z);
  }

  lemma NoEvents(id: nat)
    ensures AcceptedBy([], id) == multiset{} && DeliveredBy([], id) == multiset{} && EmptyBy([], id) == multiset{}
  {
  }

  lemma EventsCons(e: Event, rest: seq<Event>, id: nat)
    ensures AcceptedBy([e] + rest, id) == AcceptedBy([e], id) + AcceptedBy(rest, id)
    ensures DeliveredBy([e] + rest, id) == DeliveredBy([e], id) + DeliveredBy(rest, id)
    ensures EmptyBy([e] + rest, id) == EmptyBy([e], id) + EmptyBy(rest, id)
  {
    assert ([e] + rest)[1..] == rest;
    EventSums(e, id);
  }
}
