/**
 Data buffers of the stub table as byte streams: what a key's buffers hold, and what
 sequences of registrations and reads deliver, whatever happens to other keys.
 */
module StubBuffers {
  import opened Basics
  import opened StubEntries
  import opened StubSpec
  import opened StubViews
  import opened StubRuns
  import opened StubCodes

  /** The bytes of a buffer entry that have not been used yet. */
  function Rest(e: Entry, mem: Memory): (s: seq<Byte>) {
    if WellFormed(e) && e.kind.DataBuffer? then
      match e.data.base
      case Copied(bytes) => bytes[e.data.position..]
      case Direct(block) =>
        if block in mem && e.data.totalSize <= |mem[block]|
        then mem[block][e.data.position..e.data.totalSize] else []
    else []
  }

  function RestOfAll(v: seq<Entry>, mem: Memory): (q: seq<seq<Byte>>) {
    seq(|v|, i requires 0 <= i < |v| => Rest(v[i], mem))
  }

  /** The unused bytes of every buffer of a key, in the order in which they will be read. */
  function Stream(s: State, key: Key): (q: seq<seq<Byte>>) {
    RestOfAll(View(s.slots, key, DataBuffer), s.mem)
  }

  function Flatten(q: seq<seq<Byte>>): seq<Byte>
    decreases q
  {
    if q == [] then [] else q[0] + Flatten(q[1..])
  }

  lemma {:induction false} FlattenConcat(a: seq<seq<Byte>>, b: seq<seq<Byte>>)
    ensures Flatten(a + b) == Flatten(a) + Flatten(b)
    decreases a
  {
    if a == [] {
      assert a + b == b;
    } else {
      assert (a + b)[1..] == a[1..] + b;
      FlattenConcat(a[1..], b);
    }
  }

  lemma RestOfConcat(a: seq<Entry>, b: seq<Entry>, mem: Memory)
    ensures RestOfAll(a + b, mem) == RestOfAll(a, mem) + RestOfAll(b, mem)
  {
  }

  lemma RestOfOne(e: Entry, mem: Memory)
    ensures RestOfAll([], mem) == [] && RestOfAll([e], mem) == [Rest(e, mem)]
  {
  }

  // ---- Reading ----

  /** A read of at most `maxSize` bytes from a stream of buffers: it uses the first buffer only. */
  function Serve(q: seq<seq<Byte>>, maxSize: nat): (r: (seq<seq<Byte>>, seq<Byte>)) {
    if q == [] then (q, [])
    else
      var n := Min(maxSize, |q[0]|);
      (if n == |q[0]| then q[1..] else [q[0][n..]] + q[1..], q[0][..n])
  }

  /** What the code's single read step does to the entry it found. */
  lemma AdvanceRest(e: Entry, mem: Memory, n: nat)
    requires WellFormed(e) && e.kind.DataBuffer? && EntryInMemory(e, mem)
    requires e.data.position + n <= e.data.totalSize
    ensures Rest(e, mem) == Contents(e, mem)[e.data.position..]
    ensures |Rest(e, mem)| == e.data.totalSize - e.data.position
    ensures n < |Rest(e, mem)| ==>
      Matches(Advance(e, n), e.key, DataBuffer) && Rest(Advance(e, n), mem) == Rest(e, mem)[n..]
    ensures n == |Rest(e, mem)| <==> Advance(e, n) == ZERO_ENTRY
  {
  }

  lemma ServeHead(v: seq<Entry>, e': Entry, mem: Memory, maxSize: nat)
    requires v != [] && Rest(v[0], mem) != []
    requires var n := Min(maxSize, |Rest(v[0], mem)|);
      n < |Rest(v[0], mem)| ==> Rest(e', mem) == Rest(v[0], mem)[n..]
    ensures var n := Min(maxSize, |Rest(v[0], mem)|);
      Serve(RestOfAll(v, mem), maxSize)
        == (RestOfAll(if n == |Rest(v[0], mem)| then v[1..] else [e'] + v[1..], mem), Rest(v[0], mem)[..n])
  {
    var q := RestOfAll(v, mem);
    assert q[0] == Rest(v[0], mem) && q[1..] == RestOfAll(v[1..], mem);
    RestOfConcat([e'], v[1..], mem);
    RestOfOne(e', mem);
  }

  lemma ServeNothing(mem: Memory, maxSize: nat)
    ensures Serve(RestOfAll([], mem), maxSize) == (RestOfAll([], mem), [])
  {
  }

  /** A read from a list of buffers: the first is advanced, or gone when nothing of it is left. */
  ghost predicate ReadsFirst(v: seq<Entry>, mem: Memory, maxSize: nat, chunk: seq<Byte>, v': seq<Entry>) {
    if v == [] then v' == v && chunk == []
    else
      && v[0].kind.DataBuffer? && WellFormed(v[0]) && EntryInMemory(v[0], mem)
      && var left := v[0].data.totalSize - v[0].data.position;
      && |Rest(v[0], mem)| == left
      && var n := Min(maxSize, left);
      && chunk == Rest(v[0], mem)[..n]
      && v' == if n == left then v[1..] else [Advance(v[0], n)] + v[1..]
  }

  /** What a read does to the view. */
  lemma CopyToLocalView(s: State, key: Key, maxSize: nat)
    requires Inv(s)
    ensures var (t', chunk) := CopyToLocal(s.slots, s.mem, key, maxSize);
      ReadsFirst(View(s.slots, key, DataBuffer), s.mem, maxSize, chunk, View(t', key, DataBuffer))
  {
    hide View, ProbeFrom, Advance, Contents, Rest;
    FindIsHead(s.slots, key, DataBuffer);
    var found := Find(s.slots, key, DataBuffer);
    if found.Some? {
      var e := s.slots[found.value];
      var n := Min(maxSize, e.data.totalSize - e.data.position);
      AdvanceRest(e, s.mem, n);
      HeadUpdate(s.slots, key, DataBuffer, found.value, Advance(e, n));
      var rest := View(s.slots, key, DataBuffer)[1..];
      assert [] + rest == rest;
    }
  }

  /** A read of the table is a read of the stream. */
  lemma CopyToLocalServes(s: State, key: Key, maxSize: nat)
    requires Inv(s)
    ensures var (t', chunk) := CopyToLocal(s.slots, s.mem, key, maxSize);
      (Stream(State(t', s.mem), key), chunk) == Serve(Stream(s, key), maxSize)
  {
    hide View, CopyToLocal, RestOfAll, Rest, Serve, Advance;
    CopyToLocalView(s, key, maxSize);
    var v := View(s.slots, key, DataBuffer);
    if v == [] {
      ServeNothing(s.mem, maxSize);
    } else {
      var n := Min(maxSize, |Rest(v[0], s.mem)|);
      AdvanceRest(v[0], s.mem, n);
      ServeHead(v, Advance(v[0], n), s.mem, maxSize);
    }
  }

  // ---- Registering ----

  /** The bytes that a registration hands over. */
  function SourceBytes(base: Base, size: nat, mem: Memory): (s: seq<Byte>) {
    Rest(BufferEntry(0, base, size), mem)
  }

  predicate RegistersData(op: Op, key: Key) {
    op.OpSetData? && op.key == key && op.src.Some? && op.size > 0
  }

  /** A registration adds one buffer somewhere in the stream, and last if its slot is last. */
  lemma SetDataStream(s: State, key: Key, base: Base, size: nat)
    requires Inv(s) && size > 0 && SourceFits(Some(base), size, s.mem)
    requires SetDataBuffer(s.slots, key, Some(base), size).Some?
    ensures var s' := State(SetDataBuffer(s.slots, key, Some(base), size).value, s.mem);
      && multiset(Stream(s', key)) == multiset(Stream(s, key)) + multiset{SourceBytes(base, size, s.mem)}
      && (AppendsLast(s.slots, key, DataBuffer) ==>
            Stream(s', key) == Stream(s, key) + [SourceBytes(base, size, s.mem)])
  {
    hide View, RestOfAll, Insert, AppendsLast, Rest;
    var e := BufferEntry(key, base, size);
    var v := View(s.slots, key, DataBuffer);
    var j := InsertOrder(s.slots, e);
    SplitStream(v, e, j, s.mem);
    RestIgnoresKey(base, size, key, s.mem);
    if j == |v| {
      InsertLast(s.slots, e);
      RestOfConcat(v, [e], s.mem);
      RestOfOne(e, s.mem);
    }
  }

  lemma RestIgnoresKey(base: Base, size: nat, key: Key, mem: Memory)
    ensures Rest(BufferEntry(key, base, size), mem) == SourceBytes(base, size, mem)
  {
  }

  lemma SplitStream(v: seq<Entry>, e: Entry, j: nat, mem: Memory)
    requires j <= |v|
    ensures multiset(RestOfAll(v[..j] + [e] + v[j..], mem)) == multiset(RestOfAll(v, mem)) + multiset{Rest(e, mem)}
  {
    RestOfConcat(v[..j] + [e], v[j..], mem);
    RestOfConcat(v[..j], [e], mem);
    RestOfOne(e, mem);
    RestOfConcat(v[..j], v[j..], mem);
    assert v[..j] + v[j..] == v;
  }

  // ---- Memory shared with other keys ----

  /** The blocks that the direct buffers of one key use, and the keys that write into their buffers. */
  datatype Sharing = Sharing(blocks: set<nat>, writers: iset<Key>)

  predicate EntryApart(e: Entry, key: Key, sh: Sharing) {
    e.data.Buff? && e.data.base.Direct? ==>
      && (e.key == key ==> e.data.base.block in sh.blocks)
      && (e.key in sh.writers ==> e.data.base.block !in sh.blocks)
  }

  /** The writers have no buffer in a block of this key. */
  ghost predicate Apart(t: Table, key: Key, sh: Sharing) {
    forall i | 0 <= i < MAX_FUNC_STUBS :: EntryApart(t[i], key, sh)
  }

  /** An operation keeps it that way: registrations respect the blocks, and only writers write. */
  predicate ActsApart(op: Op, key: Key, sh: Sharing) {
    match op
    case OpSetData(k, src, size) =>
      src.Some? && src.value.Direct? ==>
        (k == key ==> src.value.block in sh.blocks) && (k in sh.writers ==> src.value.block !in sh.blocks)
    case OpWrite(k, _) => k in sh.writers
    case _ => true
  }

  /** The memory has the same blocks, and those named have the same contents. */
  ghost predicate SameBlocks(m: Memory, m': Memory, blocks: set<nat>) {
    m'.Keys == m.Keys && forall b | b in blocks && b in m :: m'[b] == m[b]
  }

  lemma ApartUpdate(t: Table, i: nat, e: Entry, key: Key, sh: Sharing)
    requires Apart(t, key, sh) && i < MAX_FUNC_STUBS && EntryApart(e, key, sh)
    ensures Apart(t[i := e], key, sh)
  {
    hide EntryApart;
  }

  lemma NothingQueuedApart(t: Table, r: Table, key: Key, sh: Sharing)
    requires Apart(t, key, sh) && AddsNothingQueued(t, r)
    ensures Apart(r, key, sh)
  {
  }

  lemma ReadApart(s: State, k: Key, maxSize: nat, key: Key, sh: Sharing)
    requires Inv(s) && Apart(s.slots, key, sh)
    ensures Apart(CopyToLocal(s.slots, s.mem, k, maxSize).0, key, sh)
  {
    hide Apart;
    var found := Find(s.slots, k, DataBuffer);
    if found.Some? {
      var e := s.slots[found.value];
      ApartAt(s.slots, found.value, key, sh);
      var n := Min(maxSize, e.data.totalSize - e.data.position);
      ApartUpdate(s.slots, found.value, Advance(e, n), key, sh);
    }
  }

  lemma ApartAt(t: Table, i: nat, key: Key, sh: Sharing)
    requires Apart(t, key, sh) && i < MAX_FUNC_STUBS
    ensures EntryApart(t[i], key, sh)
  {
  }

  /** A write stays out of the blocks if its key is a writer, and never moves a buffer to another block. */
  lemma WriteApart(s: State, k: Key, local: seq<Byte>, key: Key, sh: Sharing)
    requires Inv(s) && Apart(s.slots, key, sh)
    ensures var (t', mem', n) := CopyFromLocal(s.slots, s.mem, k, local);
      && Apart(t', key, sh)
      && (k in sh.writers ==> SameBlocks(s.mem, mem', sh.blocks))
  {
    hide Apart, Overwrite;
    var found := Find(s.slots, k, DataBuffer);
    if found.Some? {
      ApartAt(s.slots, found.value, key, sh);
      var t' := CopyFromLocal(s.slots, s.mem, k, local).0;
      ApartUpdate(s.slots, found.value, t'[found.value], key, sh);
      assert t' == s.slots[found.value := t'[found.value]];
    }
  }

  lemma RegistrationApart(t: Table, k: Key, src: Option<Base>, size: nat, key: Key, sh: Sharing)
    requires Good(t) && (src.Some? && src.value.Copied? ==> |src.value.bytes| == size)
    requires Apart(t, key, sh) && ActsApart(OpSetData(k, src, size), key, sh) && SetDataBuffer(t, k, src, size).Some?
    ensures Apart(SetDataBuffer(t, k, src, size).value, key, sh)
  {
    hide Apart, ProbeFrom;
    if src.Some? && size != 0 {
      ApartUpdate(t, FindFree(t, k).value, BufferEntry(k, src.value, size), key, sh);
    }
  }

  lemma DeferredApart(t: Table, k: Key, count: int, rc: int, key: Key, sh: Sharing)
    requires Good(t) && Apart(t, key, sh) && SetDeferred(t, k, count, rc).Some?
    ensures Apart(SetDeferred(t, k, count, rc).value, key, sh)
  {
    hide Apart, ProbeFrom;
    if count > 0 {
      ApartUpdate(t, FindFree(t, k).value, DeferredEntry(k, count, rc), key, sh);
    }
  }

  /** Apartness is kept by operations that act apart and by the key's own writes; the former leave its blocks alone. */
  lemma StepApart(s: State, op: Op, hooks: Hooks, key: Key, sh: Sharing)
    requires Inv(s) && Step(s, op, hooks).Some? && Apart(s.slots, key, sh)
    requires ActsApart(op, key, sh) || (op.OpWrite? && op.key == key)
    ensures var s' := Step(s, op, hooks).value.0;
      && Apart(s'.slots, key, sh)
      && (ActsApart(op, key, sh) ==> SameBlocks(s.mem, s'.mem, sh.blocks))
  {
    hide Apart, Good, MemoryHolds, AddsNothingQueued, Reset, ClearDeferred, ClearOne, SetForceFail, SetHook, RegisterContext,
      CheckDeferred, CheckForceFail, Call, MarkOnce, SetDeferred, SetDataBuffer, CopyToLocal, CopyFromLocal;
    var t' := Step(s, op, hooks).value.0.slots;
    match op
    case OpSetDeferred(k, count, rc) => DeferredApart(s.slots, k, count, rc, key, sh);
    case OpSetData(k, src, size) => RegistrationApart(s.slots, k, src, size, key, sh);
    case OpRead(k, maxSize) => ReadApart(s, k, maxSize, key, sh);
    case OpWrite(k, local) => WriteApart(s, k, local, key, sh);
    case _ => NothingQueuedApart(s.slots, t', key, sh);
  }

  /** Everything in a view is in the table. */
  lemma {:induction false} ViewFromTable(t: Table, home: nat, key: Key, kind: Kind, lo: nat, hi: nat)
    requires home < MAX_FUNC_STUBS && lo <= hi <= MAX_FUNC_STUBS
    ensures forall e <- ViewRange(t, home, key, kind, lo, hi) :: e in t && Matches(e, key, kind)
    decreases hi - lo
  {
    if lo < hi {
      ViewFromTable(t, home, key, kind, lo + 1, hi);
    }
  }

  /** The buffers of the key lie in its own blocks. */
  lemma ViewApart(t: Table, key: Key, sh: Sharing)
    requires Apart(t, key, sh)
    ensures forall e <- View(t, key, DataBuffer) ::
      Matches(e, key, DataBuffer) && (e.data.Buff? && e.data.base.Direct? ==> e.data.base.block in sh.blocks)
  {
    hide ViewRange;
    ViewFromTable(t, Home(key), key, DataBuffer, 0, |t|);
    forall e <- View(t, key, DataBuffer)
      ensures EntryApart(e, key, sh) && e.key == key
    {
      var i :| 0 <= i < |t| && t[i] == e;
      ApartAt(t, i, key, sh);
    }
  }

  lemma RestSame(e: Entry, m: Memory, m': Memory, blocks: set<nat>)
    requires SameBlocks(m, m', blocks) && (e.data.Buff? && e.data.base.Direct? ==> e.data.base.block in blocks)
    ensures Rest(e, m') == Rest(e, m)
  {
  }

  /** Changes outside the key's blocks do not show in its stream. */
  lemma StreamSame(s: State, m': Memory, key: Key, sh: Sharing)
    requires Apart(s.slots, key, sh) && SameBlocks(s.mem, m', sh.blocks)
    ensures Stream(State(s.slots, m'), key) == Stream(s, key)
  {
    hide View, Apart, Rest, SameBlocks;
    ViewApart(s.slots, key, sh);
    var v := View(s.slots, key, DataBuffer);
    forall i | 0 <= i < |v|
      ensures Rest(v[i], m') == Rest(v[i], s.mem)
    {
      assert v[i] in v;
      RestSame(v[i], s.mem, m', sh.blocks);
    }
  }

  // ---- Runs ----

  /** What one operation does to the stream of a key, when registrations append. */
  function StreamStep(q: seq<seq<Byte>>, op: Op, key: Key, mem: Memory): (r: seq<seq<Byte>>) {
    if op.OpReset? && (op.key == 0 || op.key == key) then []
    else if RegistersData(op, key) then q + [SourceBytes(op.src.value, op.size, mem)]
    else if op.OpRead? && op.key == key then Serve(q, op.maxSize).0
    else q
  }

  /** Every operation but the key's own writes acts on the stream as prescribed, and leaves its blocks alone. */
  lemma StepRefinesStream(s: State, op: Op, hooks: Hooks, key: Key, sh: Sharing)
    requires Inv(s) && Step(s, op, hooks).Some? && !(op.OpWrite? && op.key == key)
    requires Apart(s.slots, key, sh) && ActsApart(op, key, sh)
    requires RegistersData(op, key) ==> AppendsLast(s.slots, key, DataBuffer)
    ensures var (s', reply) := Step(s, op, hooks).value;
      && SameBlocks(s.mem, s'.mem, sh.blocks)
      && Stream(s', key) == StreamStep(Stream(s, key), op, key, s.mem)
      && (op.OpRead? && op.key == key ==> reply == Chunk(Serve(Stream(s, key), op.maxSize).1))
  {
    hide View, RestOfAll, Rest, Serve, CopyToLocal, CopyFromLocal, Call, Insert, Reset, AppendsLast, Apart, SameBlocks, Good, MemoryHolds;
    StepApart(s, op, hooks, key, sh);
    if !Touches(op, key, DataBuffer) {
      StepFrame(s, op, hooks, key, DataBuffer);
      StreamSame(s, Step(s, op, hooks).value.0.mem, key, sh);
    } else {
      match op
      case OpReset(k) =>
        ResetView(s.slots, k, key, DataBuffer);
        RestOfOne(ZERO_ENTRY, s.mem);
      case OpSetData(k, src, size) =>
        if RegistersData(op, key) {
          SetDataStream(s, key, src.value, size);
        }
      case OpRead(k, maxSize) => CopyToLocalServes(s, key, maxSize);
    }
  }

  /** Each registration of the run finds its free slot beyond the key's other buffers. */
  ghost predicate RegistersInOrder(s: State, ops: seq<Op>, hooks: Hooks, key: Key)
    requires Inv(s)
    decreases ops
  {
    ops == [] ||
    (&& (RegistersData(ops[0], key) ==> AppendsLast(s.slots, key, DataBuffer))
     && (Step(s, ops[0], hooks).Some? ==> RegistersInOrder(Step(s, ops[0], hooks).value.0, ops[1..], hooks, key)))
  }

  /** No write and no reset of this key: registrations and reads, and operations on other keys. */
  predicate OnlyReads(ops: seq<Op>, key: Key) {
    forall op <- ops :: !(op.OpWrite? && op.key == key) && !(op.OpReset? && (op.key == 0 || op.key == key))
  }

  /** Everything registered for the key during a run, one buffer after the other. */
  function RegisteredBytes(ops: seq<Op>, key: Key, mem: Memory): seq<Byte>
    decreases ops
  {
    if ops == [] then []
    else
      (if RegistersData(ops[0], key) then SourceBytes(ops[0].src.value, ops[0].size, mem) else [])
      + RegisteredBytes(ops[1..], key, mem)
  }

  /** Everything read from the key during a run, one chunk after the other. */
  function BytesRead(ops: seq<Op>, replies: seq<Reply>, key: Key): seq<Byte>
    requires |ops| == |replies|
    decreases ops
  {
    if ops == [] then []
    else
      (if ops[0].OpRead? && ops[0].key == key && replies[0].Chunk? then replies[0].bytes else [])
      + BytesRead(ops[1..], replies[1..], key)
  }

  lemma ServeConserves(q: seq<seq<Byte>>, maxSize: nat)
    ensures Serve(q, maxSize).1 + Flatten(Serve(q, maxSize).0) == Flatten(q)
  {
    if q != [] {
      var (q', chunk) := Serve(q, maxSize);
      assert q[0] == q[0][..|chunk|] + q[0][|chunk|..];
      if |chunk| < |q[0]| {
        assert q'[1..] == q[1..];
      }
    }
  }

  lemma FlattenAppend(q: seq<seq<Byte>>, b: seq<Byte>)
    ensures Flatten(q + [b]) == Flatten(q) + b
  {
    FlattenConcat(q, [b]);
    assert [b][1..] == [];
    assert Flatten([b]) == b + [];
  }

  /** What is registered does not depend on other blocks. */
  lemma {:induction false} RegisteredSame(ops: seq<Op>, key: Key, m: Memory, m': Memory, sh: Sharing)
    requires SameBlocks(m, m', sh.blocks) && forall op <- ops :: ActsApart(op, key, sh)
    ensures RegisteredBytes(ops, key, m') == RegisteredBytes(ops, key, m)
    decreases ops
  {
    hide SameBlocks, Rest;
    if ops != [] {
      assert ops[0] in ops;
      RegisteredSame(ops[1..], key, m, m', sh);
      if RegistersData(ops[0], key) {
        RestSame(BufferEntry(0, ops[0].src.value, ops[0].size), m, m', sh.blocks);
      }
    }
  }

  lemma SameBlocksChain(a: Memory, b: Memory, c: Memory, blocks: set<nat>)
    requires SameBlocks(a, b, blocks) && SameBlocks(b, c, blocks)
    ensures SameBlocks(a, c, blocks)
  {
  }

  /**
   The buffers of a key are one first-in first-out byte stream: over every run of
   registrations and reads of any sizes, interleaved with operations on other keys that do
   not write into its blocks, the chunks read, followed by what is left, are exactly what was
   there at the start followed by what was registered.
   */
  lemma {:induction false} ReadsDeliverTheStream(s: State, ops: seq<Op>, hooks: Hooks, key: Key, sh: Sharing)
    requires Inv(s) && Run(s, ops, hooks).Some? && OnlyReads(ops, key) && RegistersInOrder(s, ops, hooks, key)
    requires Apart(s.slots, key, sh) && forall op <- ops :: ActsApart(op, key, sh)
    ensures var (s', replies) := Run(s, ops, hooks).value;
      && SameBlocks(s.mem, s'.mem, sh.blocks)
      && BytesRead(ops, replies, key) + Flatten(Stream(s', key))
           == Flatten(Stream(s, key)) + RegisteredBytes(ops, key, s.mem)
    decreases ops
  {
    hide Step, Stream, Serve, Flatten, AppendsLast, SourceBytes, Inv, SameBlocks, Apart, ActsApart;
    if ops == [] {
      NothingChanged(s.mem, sh.blocks);
    } else {
      var op := ops[0];
      assert op in ops;
      assert OnlyReads(ops[1..], key);
      var (s1, reply) := Step(s, op, hooks).value;
      StepRefinesStream(s, op, hooks, key, sh);
      StepApart(s, op, hooks, key, sh);
      ReadsDeliverTheStream(s1, ops[1..], hooks, key, sh);
      var (s', replies) := Run(s, ops, hooks).value;
      assert replies[0] == reply && replies[1..] == Run(s1, ops[1..], hooks).value.1;
      SameBlocksChain(s.mem, s1.mem, s'.mem, sh.blocks);
      RegisteredSame(ops[1..], key, s.mem, s1.mem, sh);
      StreamStepConserves(Stream(s, key), op, key, s.mem, BytesRead(ops[1..], replies[1..], key),
                          Flatten(Stream(s', key)), RegisteredBytes(ops[1..], key, s.mem));
    }
  }

  lemma NothingChanged(m: Memory, blocks: set<nat>)
    ensures SameBlocks(m, m, blocks)
  {
  }

  lemma DataOnlyAtFirstFree(s: State, op: Op, hooks: Hooks, key: Key)
    requires Inv(s) && Step(s, op, hooks).Some? && SetsUp(op)
    ensures AddsOnlyFirstFree(s.slots, Step(s, op, hooks).value.0.slots, key, DataBuffer)
  {
    hide SetForceFail, SetHook, RegisterContext, ProbeFrom;
  }

  /** Registrations that are all made during set-up find their slots in order. */
  lemma {:induction false} SetUpRegistersInOrder(s: State, setup: seq<Op>, ops: seq<Op>, hooks: Hooks, key: Key)
    requires Inv(s) && AppendsLast(s.slots, key, DataBuffer)
    requires (forall op <- setup :: SetsUp(op)) && forall op <- ops :: !RegistersData(op, key)
    ensures RegistersInOrder(s, setup + ops, hooks, key)
    decreases |setup| + |ops|
  {
    hide Step, AppendsLast, SetsUp, RegistersData, Inv;
    if setup != [] {
      var all, op := setup + ops, setup[0];
      assert op in setup && all[0] == op && all[1..] == setup[1..] + ops;
      if Step(s, op, hooks).Some? {
        var s' := Step(s, op, hooks).value.0;
        SetUpFreesNothing(s, op, hooks);
        DataOnlyAtFirstFree(s, op, hooks, key);
        AppendsLastInRun(s, s', key, DataBuffer);
        SetUpRegistersInOrder(s', setup[1..], ops, hooks, key);
      }
    } else {
      assert setup + ops == ops;
      NothingRegistered(s, ops, hooks, key);
    }
  }

  lemma {:induction false} NothingRegistered(s: State, ops: seq<Op>, hooks: Hooks, key: Key)
    requires Inv(s) && forall op <- ops :: !RegistersData(op, key)
    ensures RegistersInOrder(s, ops, hooks, key)
    decreases ops
  {
    hide Step, AppendsLast, RegistersData, Inv;
    if ops != [] {
      assert ops[0] in ops;
      if Step(s, ops[0], hooks).Some? {
        NothingRegistered(Step(s, ops[0], hooks).value.0, ops[1..], hooks, key);
      }
    }
  }

  /**
   The documented order of buffers, for a test that registers all of them during set-up: what
   is read afterwards, in pieces of any size, followed by what is left, is what was registered.
   */
  lemma SetUpThenReads(s: State, setup: seq<Op>, ops: seq<Op>, hooks: Hooks, key: Key, sh: Sharing)
    requires Inv(s) && View(s.slots, key, DataBuffer) == [] && Run(s, setup + ops, hooks).Some?
    requires (forall op <- setup :: SetsUp(op)) && OnlyReads(ops, key) && forall op <- ops :: !RegistersData(op, key)
    requires Apart(s.slots, key, sh) && forall op <- setup + ops :: ActsApart(op, key, sh)
    ensures var (s', replies) := Run(s, setup + ops, hooks).value;
      BytesRead(setup + ops, replies, key) + Flatten(Stream(s', key)) == RegisteredBytes(setup + ops, key, s.mem)
  {
    hide Run, RegistersInOrder, BytesRead, RegisteredBytes, RegistersData, View, ViewRange, Inv, Apart, ActsApart, SameBlocks;
    NoBuffersAppendsLast(s.slots, key);
    SetUpRegistersInOrder(s, setup, ops, hooks, key);
    SetUpOnlyReads(setup, ops, key);
    ReadsDeliverTheStream(s, setup + ops, hooks, key, sh);
    assert Flatten(Stream(s, key)) == [];
    var more := RegisteredBytes(setup + ops, key, s.mem);
    assert [] + more == more;
  }

  lemma SetUpOnlyReads(setup: seq<Op>, ops: seq<Op>, key: Key)
    requires (forall op <- setup :: SetsUp(op)) && OnlyReads(ops, key)
    ensures OnlyReads(setup + ops, key)
  {
  }

  lemma NoBuffersAppendsLast(t: Table, key: Key)
    requires View(t, key, DataBuffer) == []
    ensures AppendsLast(t, key, DataBuffer)
  {
    ViewRangeEmpty(t, Home(key), key, DataBuffer, 0, |t|);
  }

  /** The bookkeeping of one step: `read`, `left` and `more` belong to the rest of the run. */
  lemma StreamStepConserves(q: seq<seq<Byte>>, op: Op, key: Key, mem: Memory,
                            read: seq<Byte>, left: seq<Byte>, more: seq<Byte>)
    requires OnlyReads([op], key)
    requires read + left == Flatten(StreamStep(q, op, key, mem)) + more
    ensures (if op.OpRead? && op.key == key then Serve(q, op.maxSize).1 else []) + read + left
         == Flatten(q) + ((if RegistersData(op, key) then SourceBytes(op.src.value, op.size, mem) else []) + more)
  {
    hide Serve, Flatten, SourceBytes;
    assert op in [op];
    if op.OpRead? && op.key == key {
      var chunk := Serve(q, op.maxSize).1;
      ServeConserves(q, op.maxSize);
      Assoc(chunk, read, left);
      Assoc(chunk, Flatten(Serve(q, op.maxSize).0), more);
    } else if RegistersData(op, key) {
      var b := SourceBytes(op.src.value, op.size, mem);
      FlattenAppend(q, b);
      Assoc(Flatten(q), b, more);
      assert [] + read == read;
    } else {
      assert [] + read == read && [] + more == more;
    }
  }
}
