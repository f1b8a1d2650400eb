/**
 Each data buffer of the stub table by itself. An entry never changes its slot, so that what is
 read from a slot, and what is written to it, can be followed over every run, also when a buffer
 that was registered later lands before an older one.
 */
module StubSlots {
  import opened Basics
  import opened StubEntries
  import opened StubSpec
  import opened StubRuns
  import opened StubBuffers

  // ---- Other operations leave buffers alone ----

  /** Every data buffer of `t` is in the same slot of `r`. */
  ghost predicate KeepsBuffers(t: Table, r: Table) {
    forall i | 0 <= i < MAX_FUNC_STUBS && t[i].kind.DataBuffer? :: r[i] == t[i]
  }

  lemma KeepsChain(a: Table, b: Table, c: Table)
    requires KeepsBuffers(a, b) && KeepsBuffers(b, c)
    ensures KeepsBuffers(a, c)
  {
  }

  lemma ClearOneKeeps(t: Table, key: Key, kind: Kind)
    requires Good(t) && !kind.DataBuffer?
    ensures KeepsBuffers(t, ClearOne(t, key, kind))
  {
    hide ProbeFrom;
  }

  lemma SelectCodeKeeps(t: Table, key: Key, defaultRc: int)
    requires Good(t)
    ensures KeepsBuffers(t, SelectCode(t, key, defaultRc).0)
  {
    CheckDeferredKeeps(t, key);
    CheckForceFailKeeps(CheckDeferred(t, key).0, key);
    hide CheckDeferred, CheckForceFail;
  }

  lemma CheckDeferredKeeps(t: Table, key: Key)
    requires Good(t)
    ensures KeepsBuffers(t, CheckDeferred(t, key).0)
  {
    hide ProbeFrom;
  }

  lemma CheckForceFailKeeps(t: Table, key: Key)
    requires Good(t)
    ensures KeepsBuffers(t, CheckForceFail(t, key).0)
  {
    hide ProbeFrom;
  }

  lemma CountCallKeeps(t: Table, key: Key, rc: int)
    requires Good(t) && CountCall(t, key, rc).Some?
    ensures KeepsBuffers(t, CountCall(t, key, rc).value.0)
  {
    hide ProbeFrom;
  }

  lemma CallKeeps(t: Table, key: Key, defaultRc: int, hooks: Hooks)
    requires Good(t) && Call(t, key, defaultRc, hooks).Some?
    ensures KeepsBuffers(t, Call(t, key, defaultRc, hooks).value.0)
  {
    hide SelectCode, CountCall, ClearOne, HookedCode, KeepsBuffers;
    var (t1, rc) := SelectCode(t, key, defaultRc);
    var t2 := CountCall(t1, key, rc).value.0;
    var t3 := ClearOne(t2, key, CallbackContext);
    SelectCodeKeeps(t, key, defaultRc);
    CountCallKeeps(t1, key, rc);
    ClearOneKeeps(t2, key, CallbackContext);
    KeepsChain(t, t1, t2);
    KeepsChain(t, t2, t3);
  }

  /** Operations that neither reset, read nor write leave every buffer in its slot. */
  lemma StepKeeps(s: State, op: Op, hooks: Hooks)
    requires Inv(s) && Step(s, op, hooks).Some? && !op.OpReset? && !op.OpRead? && !op.OpWrite?
    ensures KeepsBuffers(s.slots, Step(s, op, hooks).value.0.slots) && Step(s, op, hooks).value.0.mem == s.mem
  {
    hide ProbeFrom, Call, ClearOne, CheckDeferred, CheckForceFail, Good, MemoryHolds, AddsNothingQueued;
    var t := s.slots;
    match op
    case OpCheckDeferred(k) => CheckDeferredKeeps(t, k);
    case OpClearForceFail(k) => ClearOneKeeps(t, k, ForceFail);
    case OpCheckForceFail(k) => CheckForceFailKeeps(t, k);
    case OpSetHook(k, callback) => if callback.address == 0 { ClearOneKeeps(t, k, CallbackHook); }
    case OpCall(k, defaultRc) => CallKeeps(t, k, defaultRc, hooks);
    case _ =>
  }

  /** The operation reads from or writes to the buffer in slot `i`. */
  predicate UsesSlot(s: State, op: Op, key: Key, i: nat) {
    (op.OpRead? || op.OpWrite?) && op.key == key && Find(s.slots, key, DataBuffer) == Some(i)
  }

  /** A buffer stays as it is in its slot, unless it is used or reset. */
  lemma SlotStays(s: State, op: Op, hooks: Hooks, key: Key, i: nat)
    requires Inv(s) && Step(s, op, hooks).Some? && i < MAX_FUNC_STUBS && Matches(s.slots[i], key, DataBuffer)
    requires !Resets(op, key) && !UsesSlot(s, op, key, i)
    ensures Step(s, op, hooks).value.0.slots[i] == s.slots[i]
  {
    hide ProbeFrom, Good, MemoryHolds;
    if op.OpReset? {
      hide Step;
      ResetStays(s, op, hooks, key, i);
    } else if op.OpRead? || op.OpWrite? {
      assert Find(s.slots, op.key, DataBuffer) != Some(i);
    } else {
      hide Step;
      StepKeeps(s, op, hooks);
    }
  }

  lemma ResetStays(s: State, op: Op, hooks: Hooks, key: Key, i: nat)
    requires Inv(s) && Step(s, op, hooks).Some? && i < MAX_FUNC_STUBS && Matches(s.slots[i], key, DataBuffer)
    requires op.OpReset? && !Resets(op, key)
    ensures Step(s, op, hooks).value.0.slots[i] == s.slots[i]
  {
  }

  // ---- What is read from one slot ----

  /** The part of a reply that comes from slot `i`. */
  function ReadFrom(s: State, op: Op, reply: Reply, key: Key, i: nat): seq<Byte> {
    if op.OpRead? && UsesSlot(s, op, key, i) && reply.Chunk? then reply.bytes else []
  }

  /** Everything read from the buffer in slot `i` until it is gone or the run ends, and what is left of it then. */
  ghost function Drained(s: State, ops: seq<Op>, hooks: Hooks, key: Key, i: nat): (r: (seq<Byte>, seq<Byte>))
    requires Inv(s) && i < MAX_FUNC_STUBS
    decreases ops
  {
    if !Matches(s.slots[i], key, DataBuffer) then ([], [])
    else if ops == [] || Step(s, ops[0], hooks).None? then ([], Rest(s.slots[i], s.mem))
    else
      var (s1, reply) := Step(s, ops[0], hooks).value;
      var (read, left) := Drained(s1, ops[1..], hooks, key, i);
      (ReadFrom(s, ops[0], reply, key, i) + read, left)
  }

  /** A read that finds slot `i` returns the next bytes of that buffer only, and leaves the rest there. */
  lemma ReadStep(s: State, op: Op, hooks: Hooks, key: Key, i: nat)
    requires Inv(s) && op.OpRead? && UsesSlot(s, op, key, i) && Step(s, op, hooks).Some?
    ensures i < MAX_FUNC_STUBS && Matches(s.slots[i], key, DataBuffer)
    ensures var (s', reply) := Step(s, op, hooks).value;
      var rest := Rest(s.slots[i], s.mem);
      var n := Min(op.maxSize, |rest|);
      && reply == Chunk(rest[..n]) && s'.mem == s.mem
      && (n == |rest| ==> s'.slots[i] == ZERO_ENTRY)
      && (n < |rest| ==> Matches(s'.slots[i], key, DataBuffer) && Rest(s'.slots[i], s'.mem) == rest[n..])
  {
    hide ProbeFrom, Rest, Advance, Contents;
    var e := s.slots[i];
    var n := Min(op.maxSize, e.data.totalSize - e.data.position);
    AdvanceRest(e, s.mem, n);
  }

  /**
   Over every run without a reset of the key or writes to it, and whatever else is registered,
   read or written meanwhile outside its blocks: the chunks read from a buffer, followed by what
   is left of it, are its bytes in order.
   */
  lemma {:induction false} EachBufferIsDelivered(s: State, ops: seq<Op>, hooks: Hooks, key: Key, i: nat, sh: Sharing)
    requires Inv(s) && i < MAX_FUNC_STUBS && Matches(s.slots[i], key, DataBuffer) && Apart(s.slots, key, sh)
    requires forall op <- ops :: ActsApart(op, key, sh) && !Resets(op, key) && !(op.OpWrite? && op.key == key)
    ensures var (read, left) := Drained(s, ops, hooks, key, i);
      read + left == Rest(s.slots[i], s.mem)
    decreases ops
  {
    hide Step, Rest, Apart, ActsApart, Inv, UsesSlot, Resets, SameBlocks;
    var rest := Rest(s.slots[i], s.mem);
    if ops == [] || Step(s, ops[0], hooks).None? {
      assert [] + rest == rest;
    } else {
      var op := ops[0];
      assert op in ops;
      var (s1, reply) := Step(s, op, hooks).value;
      StepApart(s, op, hooks, key, sh);
      if op.OpRead? && UsesSlot(s, op, key, i) {
        ReadStep(s, op, hooks, key, i);
        if Matches(s1.slots[i], key, DataBuffer) {
          EachBufferIsDelivered(s1, ops[1..], hooks, key, i, sh);
          Rejoined(rest, Min(op.maxSize, |rest|), Drained(s1, ops[1..], hooks, key, i).0, Drained(s1, ops[1..], hooks, key, i).1);
        } else {
          assert rest[..|rest|] + [] + [] == rest;
        }
      } else {
        NotUsed(s, op, key, i);
        SlotStays(s, op, hooks, key, i);
        RestStays(s, s1.mem, key, i, sh);
        EachBufferIsDelivered(s1, ops[1..], hooks, key, i, sh);
        assert [] + Drained(s1, ops[1..], hooks, key, i).0 == Drained(s1, ops[1..], hooks, key, i).0;
      }
    }
  }

  lemma NotUsed(s: State, op: Op, key: Key, i: nat)
    requires !(op.OpRead? && UsesSlot(s, op, key, i)) && !(op.OpWrite? && op.key == key)
    ensures !UsesSlot(s, op, key, i)
  {
  }

  lemma Rejoined(rest: seq<Byte>, n: nat, read: seq<Byte>, left: seq<Byte>)
    requires n <= |rest| && read + left == rest[n..]
    ensures rest[..n] + read + left == rest
  {
    Assoc(rest[..n], read, left);
  }

  lemma RestStays(s: State, mem': Memory, key: Key, i: nat, sh: Sharing)
    requires i < MAX_FUNC_STUBS && Matches(s.slots[i], key, DataBuffer) && Apart(s.slots, key, sh)
    requires SameBlocks(s.mem, mem', sh.blocks)
    ensures Rest(s.slots[i], mem') == Rest(s.slots[i], s.mem)
  {
    hide Rest, SameBlocks;
    ApartAt(s.slots, i, key, sh);
    RestSame(s.slots[i], s.mem, mem', sh.blocks);
  }

  /** The same from the registration on: a buffer is delivered as it was handed over, wherever it lands. */
  lemma RegisteredIsDelivered(s: State, key: Key, base: Base, size: nat, ops: seq<Op>, hooks: Hooks, sh: Sharing)
    requires Inv(s) && size > 0 && Apart(s.slots, key, sh)
    requires Step(s, OpSetData(key, Some(base), size), hooks).Some? && ActsApart(OpSetData(key, Some(base), size), key, sh)
    requires forall op <- ops :: ActsApart(op, key, sh) && !Resets(op, key) && !(op.OpWrite? && op.key == key)
    ensures FindFree(s.slots, key).Some? && FindFree(s.slots, key).value < MAX_FUNC_STUBS
    ensures var s1 := Step(s, OpSetData(key, Some(base), size), hooks).value.0;
      var (read, left) := Drained(s1, ops, hooks, key, FindFree(s.slots, key).value);
      read + left == SourceBytes(base, size, s.mem)
  {
    hide ProbeFrom, Apart, ActsApart, Resets, Rest, Good, MemoryHolds, Drained;
    var op := OpSetData(key, Some(base), size);
    var i := FindFree(s.slots, key).value;
    var s1 := Step(s, op, hooks).value.0;
    StepApart(s, op, hooks, key, sh);
    EachBufferIsDelivered(s1, ops, hooks, key, i, sh);
    RestIgnoresKey(base, size, key, s.mem);
  }

  // ---- What is written to one slot ----

  /** The part of a write that was stored in slot `i`. */
  function WrittenTo(s: State, op: Op, reply: Reply, key: Key, i: nat): seq<Byte> {
    if op.OpWrite? && UsesSlot(s, op, key, i) && reply.Written? && reply.count <= |op.local| then op.local[..reply.count] else []
  }

  /** Everything written to the buffer in slot `i` until it is gone or the run ends, and the state then. */
  ghost function Filling(s: State, ops: seq<Op>, hooks: Hooks, key: Key, i: nat): (r: (seq<Byte>, State))
    requires Inv(s) && i < MAX_FUNC_STUBS
    ensures Inv(r.1)
    decreases ops
  {
    if !Matches(s.slots[i], key, DataBuffer) || ops == [] || Step(s, ops[0], hooks).None? then ([], s)
    else
      var (s1, reply) := Step(s, ops[0], hooks).value;
      var (w, s') := Filling(s1, ops[1..], hooks, key, i);
      (WrittenTo(s, ops[0], reply, key, i) + w, s')
  }

  /** The bytes of a buffer in use, and whether they can be seen: a copy is visible while its entry exists. */
  ghost predicate Visible(s: State, key: Key, i: nat, base: Base)
    requires i < MAX_FUNC_STUBS
  {
    base.Direct? || Matches(s.slots[i], key, DataBuffer)
  }

  ghost function BytesOf(s: State, i: nat, base: Base): seq<Byte>
    requires i < MAX_FUNC_STUBS
  {
    match base
    case Direct(b) => if b in s.mem then s.mem[b] else []
    case Copied(_) => if s.slots[i].data.Buff? && s.slots[i].data.base.Copied? then s.slots[i].data.base.bytes else []
  }

  /** No other buffer that is written lies in the block of this one. */
  predicate EntryElsewhere(e: Entry, base: Base, writers: iset<Key>) {
    e.data.Buff? && e.data.base.Direct? && e.data.base == base ==> e.key !in writers
  }

  ghost predicate Sole(t: Table, i: nat, base: Base, writers: iset<Key>) {
    base.Direct? ==> forall j | 0 <= j < MAX_FUNC_STUBS && j != i :: EntryElsewhere(t[j], base, writers)
  }

  /** Only writers write, and they do not register the block again. */
  predicate WritesElsewhere(op: Op, base: Base, writers: iset<Key>) {
    match op
    case OpWrite(k, _) => k in writers
    case OpSetData(k, src, _) => src.Some? && src.value.Direct? && src.value == base ==> k !in writers
    case _ => true
  }

  lemma SoleUpdate(t: Table, i: nat, base: Base, writers: iset<Key>, j: nat, e: Entry)
    requires Sole(t, i, base, writers) && j < MAX_FUNC_STUBS && (j == i || EntryElsewhere(e, base, writers))
    ensures Sole(t[j := e], i, base, writers)
  {
    hide EntryElsewhere;
  }

  lemma SoleNothingQueued(t: Table, r: Table, i: nat, base: Base, writers: iset<Key>)
    requires Sole(t, i, base, writers) && AddsNothingQueued(t, r)
    ensures Sole(r, i, base, writers)
  {
  }

  lemma SoleUse(s: State, op: Op, hooks: Hooks, i: nat, base: Base, writers: iset<Key>)
    requires Inv(s) && Step(s, op, hooks).Some? && Sole(s.slots, i, base, writers) && (op.OpRead? || op.OpWrite?)
    ensures Sole(Step(s, op, hooks).value.0.slots, i, base, writers)
  {
    hide ProbeFrom, Sole, Overwrite;
    var found := Find(s.slots, op.key, DataBuffer);
    if found.Some? {
      var t', j := Step(s, op, hooks).value.0.slots, found.value;
      assert t' == s.slots[j := t'[j]];
      if j != i && base.Direct? {
        ElsewhereAt(s.slots, i, base, writers, j);
      }
      SoleUpdateIf(s.slots, i, base, writers, j, t'[j]);
    }
  }

  lemma ElsewhereAt(t: Table, i: nat, base: Base, writers: iset<Key>, j: nat)
    requires Sole(t, i, base, writers) && base.Direct? && j < MAX_FUNC_STUBS && j != i
    ensures EntryElsewhere(t[j], base, writers)
  {
  }

  lemma SoleUpdateIf(t: Table, i: nat, base: Base, writers: iset<Key>, j: nat, e: Entry)
    requires Sole(t, i, base, writers) && j < MAX_FUNC_STUBS && (j != i && base.Direct? ==> EntryElsewhere(e, base, writers))
    ensures Sole(t[j := e], i, base, writers)
  {
    hide EntryElsewhere;
  }

  lemma SoleStep(s: State, op: Op, hooks: Hooks, i: nat, base: Base, writers: iset<Key>)
    requires Inv(s) && Step(s, op, hooks).Some? && Sole(s.slots, i, base, writers) && WritesElsewhere(op, base, writers)
    ensures Sole(Step(s, op, hooks).value.0.slots, i, base, writers)
  {
    hide Sole, Good, MemoryHolds, AddsNothingQueued, Reset, ClearDeferred, ClearOne, SetForceFail, SetHook, RegisterContext,
      CheckDeferred, CheckForceFail, Call, MarkOnce, CopyToLocal, CopyFromLocal, ProbeFrom;
    var t, t' := s.slots, Step(s, op, hooks).value.0.slots;
    match op
    case OpSetDeferred(k, count, rc) =>
      if count > 0 { SoleUpdate(t, i, base, writers, FindFree(t, k).value, DeferredEntry(k, count, rc)); }
    case OpSetData(k, src, size) =>
      if src.Some? && size != 0 { SoleUpdate(t, i, base, writers, FindFree(t, k).value, BufferEntry(k, src.value, size)); }
    case OpRead(k, _) => SoleUse(s, op, hooks, i, base, writers);
    case OpWrite(k, _) => SoleUse(s, op, hooks, i, base, writers);
    case _ => SoleNothingQueued(t, t', i, base, writers);
  }

  /** An operation that does not use the slot leaves the bytes of its buffer alone. */
  lemma BytesStay(s: State, op: Op, hooks: Hooks, key: Key, i: nat, writers: iset<Key>)
    requires Inv(s) && Step(s, op, hooks).Some? && i < MAX_FUNC_STUBS && Matches(s.slots[i], key, DataBuffer)
    requires !Resets(op, key) && !UsesSlot(s, op, key, i) && s.slots[i].data.Buff?
    requires Sole(s.slots, i, s.slots[i].data.base, writers) && WritesElsewhere(op, s.slots[i].data.base, writers)
    ensures var s', base := Step(s, op, hooks).value.0, s.slots[i].data.base;
      BytesOf(s', i, base) == BytesOf(s, i, base)
  {
    hide ProbeFrom, Sole, Overwrite;
    SlotStays(s, op, hooks, key, i);
    if op.OpWrite? {
      var found, base := Find(s.slots, op.key, DataBuffer), s.slots[i].data.base;
      if found.Some? {
        assert found.value != i;
        if base.Direct? {
          ElsewhereAt(s.slots, i, base, writers, found.value);
        }
      }
    } else if !op.OpRead? && !op.OpReset? {
      hide Step;
      StepKeeps(s, op, hooks);
    }
  }

  /** A write that finds slot `i` stores what fits at the position of that buffer, and moves the position. */
  lemma WriteStep(s: State, op: Op, hooks: Hooks, key: Key, i: nat)
    requires Inv(s) && op.OpWrite? && UsesSlot(s, op, key, i) && Step(s, op, hooks).Some?
    ensures i < MAX_FUNC_STUBS && Matches(s.slots[i], key, DataBuffer) && s.slots[i].data.Buff?
    ensures var (s', reply) := Step(s, op, hooks).value;
      var Buff(p, total, base) := s.slots[i].data;
      var n := Min(|op.local|, total - p);
      && reply == Written(n) && total <= |BytesOf(s, i, base)|
      && (n == total - p ==> s'.slots[i] == ZERO_ENTRY)
      && (n < total - p ==> Continues(s', key, i, p + n, total, base))
      && (Visible(s', key, i, base) ==> BytesOf(s', i, base) == Overwrite(BytesOf(s, i, base), p, op.local[..n]))
  {
    hide ProbeFrom, Overwrite;
  }

  /** The buffer is still in its slot, at this position. */
  ghost predicate Continues(s: State, key: Key, i: nat, position: nat, total: nat, base: Base)
    requires i < MAX_FUNC_STUBS
  {
    && Matches(s.slots[i], key, DataBuffer) && s.slots[i].data.Buff?
    && s.slots[i].data.position == position && s.slots[i].data.totalSize == total
    && (if base.Direct? then s.slots[i].data.base == base else s.slots[i].data.base.Copied?)
  }

  /** What has been written to a buffer: the bytes from its position on, and nothing before them. */
  ghost predicate FilledFrom(s: State, s': State, key: Key, i: nat, p: nat, total: nat, base: Base, w: seq<Byte>)
    requires i < MAX_FUNC_STUBS
  {
    && p + |w| <= total
    && (p + |w| < total ==> Continues(s', key, i, p + |w|, total, base))
    && (p + |w| == total ==> !Matches(s'.slots[i], key, DataBuffer))
    && (Visible(s', key, i, base) ==>
          var old0, new0 := BytesOf(s, i, base), BytesOf(s', i, base);
          total <= |old0| == |new0| && new0[..p] == old0[..p] && new0[p..p + |w|] == w)
  }

  lemma FilledNothing(s: State, key: Key, i: nat)
    requires Inv(s) && i < MAX_FUNC_STUBS && Matches(s.slots[i], key, DataBuffer)
    ensures s.slots[i].data.Buff?
    ensures var Buff(p, total, base) := s.slots[i].data;
      FilledFrom(s, s, key, i, p, total, base, [])
  {
  }

  lemma OverwriteThen(a: seq<Byte>, p: nat, x: seq<Byte>, b: seq<Byte>, w: seq<Byte>)
    requires p + |x| + |w| <= |a| == |b|
    requires b[..p + |x|] == Overwrite(a, p, x)[..p + |x|] && b[p + |x|..p + |x| + |w|] == w
    ensures b[..p] == a[..p] && b[p..p + |x + w|] == x + w
  {
    assert Overwrite(a, p, x)[..p] == a[..p] && Overwrite(a, p, x)[p..p + |x|] == x;
    assert b[..p] == b[..p + |x|][..p];
    assert b[p..p + |x|] == b[..p + |x|][p..];
    assert b[p..p + |x + w|] == b[p..p + |x|] + b[p + |x|..p + |x| + |w|];
  }

  /** A write that leaves room, in front of a run. */
  lemma FilledAfterWrite(s: State, s1: State, s': State, key: Key, i: nat, p: nat, total: nat, base: Base, base1: Base,
                         x: seq<Byte>, w: seq<Byte>)
    requires i < MAX_FUNC_STUBS && p + |x| < total <= |BytesOf(s, i, base)| && Continues(s1, key, i, p + |x|, total, base)
    requires BytesOf(s1, i, base) == Overwrite(BytesOf(s, i, base), p, x)
    requires base1 == s1.slots[i].data.base && FilledFrom(s1, s', key, i, p + |x|, total, base1, w)
    ensures FilledFrom(s, s', key, i, p, total, base, x + w)
  {
    hide Overwrite;
    if Visible(s', key, i, base) {
      OverwriteThen(BytesOf(s, i, base), p, x, BytesOf(s', i, base), w);
    }
  }

  /** A write that fills the buffer. */
  lemma FilledUp(s: State, s1: State, key: Key, i: nat, p: nat, total: nat, base: Base, x: seq<Byte>)
    requires i < MAX_FUNC_STUBS && p + |x| == total <= |BytesOf(s, i, base)| && s1.slots[i] == ZERO_ENTRY
    requires Visible(s1, key, i, base) ==> BytesOf(s1, i, base) == Overwrite(BytesOf(s, i, base), p, x)
    ensures FilledFrom(s, s1, key, i, p, total, base, x)
  {
    if Visible(s1, key, i, base) {
      var a := BytesOf(s, i, base);
      assert Overwrite(a, p, x)[..p] == a[..p] && Overwrite(a, p, x)[p..p + |x|] == x;
    }
  }

  /**
   Over every run without a reset or a read of the key, whatever else is registered meanwhile,
   also under this key and before this buffer, copied or direct: what writes store in a buffer
   lands there one chunk after the other from its position on, nothing before it changes, and
   the buffer is gone exactly when it is full.
   */
  lemma {:induction false} EachBufferIsFilled(s: State, ops: seq<Op>, hooks: Hooks, key: Key, i: nat, writers: iset<Key>)
    requires Inv(s) && i < MAX_FUNC_STUBS && Matches(s.slots[i], key, DataBuffer) && s.slots[i].data.Buff?
    requires Sole(s.slots, i, s.slots[i].data.base, writers)
    requires forall op <- ops ::
      WritesElsewhere(op, s.slots[i].data.base, writers) && !Resets(op, key) && !(op.OpRead? && op.key == key)
    ensures var (w, s') := Filling(s, ops, hooks, key, i);
      var Buff(p, total, base) := s.slots[i].data;
      FilledFrom(s, s', key, i, p, total, base, w)
    decreases ops
  {
    hide Step, Sole, WritesElsewhere, Inv, UsesSlot, Resets, FilledFrom, BytesOf, Visible, Overwrite;
    var Buff(p, total, base) := s.slots[i].data;
    if ops == [] || Step(s, ops[0], hooks).None? {
      FilledNothing(s, key, i);
    } else {
      var op := ops[0];
      assert op in ops;
      var (s1, reply) := Step(s, op, hooks).value;
      SoleStep(s, op, hooks, i, base, writers);
      var (w, s') := Filling(s1, ops[1..], hooks, key, i);
      if op.OpWrite? && UsesSlot(s, op, key, i) {
        WriteStep(s, op, hooks, key, i);
        var n := Min(|op.local|, total - p);
        var x := op.local[..n];
        assert WrittenTo(s, op, reply, key, i) == x;
        if n < total - p {
          var base1 := s1.slots[i].data.base;
          SoleFor(s1.slots, i, base, base1, writers);
          ElsewhereFor(ops[1..], base, base1, writers);
          EachBufferIsFilled(s1, ops[1..], hooks, key, i, writers);
          StillVisible(s1, key, i, p + n, total, base);
          FilledAfterWrite(s, s1, s', key, i, p, total, base, base1, x, w);
        } else {
          FilledUp(s, s1, key, i, p, total, base, x);
          assert x + [] == x;
        }
      } else {
        NotRead(s, op, key, i);
        BytesStay(s, op, hooks, key, i, writers);
        SlotStays(s, op, hooks, key, i);
        EachBufferIsFilled(s1, ops[1..], hooks, key, i, writers);
        FilledElsewhere(s, s1, s', key, i, p, total, base, w);
        assert [] + w == w;
      }
    }
  }

  lemma NotRead(s: State, op: Op, key: Key, i: nat)
    requires !(op.OpWrite? && UsesSlot(s, op, key, i)) && !(op.OpRead? && op.key == key)
    ensures !UsesSlot(s, op, key, i)
  {
  }

  lemma SoleFor(t: Table, i: nat, base: Base, base1: Base, writers: iset<Key>)
    requires Sole(t, i, base, writers) && (if base.Direct? then base1 == base else base1.Copied?)
    ensures Sole(t, i, base1, writers)
  {
  }

  lemma ElsewhereFor(ops: seq<Op>, base: Base, base1: Base, writers: iset<Key>)
    requires (forall op <- ops :: WritesElsewhere(op, base, writers)) && (if base.Direct? then base1 == base else base1.Copied?)
    ensures forall op <- ops :: WritesElsewhere(op, base1, writers)
  {
  }

  lemma StillVisible(s: State, key: Key, i: nat, position: nat, total: nat, base: Base)
    requires i < MAX_FUNC_STUBS && Continues(s, key, i, position, total, base)
    ensures Visible(s, key, i, base)
  {
  }

  lemma FilledElsewhere(s: State, s1: State, s': State, key: Key, i: nat, p: nat, total: nat, base: Base, w: seq<Byte>)
    requires i < MAX_FUNC_STUBS && BytesOf(s1, i, base) == BytesOf(s, i, base)
    requires FilledFrom(s1, s', key, i, p, total, base, w)
    ensures FilledFrom(s, s', key, i, p, total, base, w)
  {
    hide BytesOf;
  }
}
