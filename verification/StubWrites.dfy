/**
 What stubs write into the buffers of a key: over every run, the accepted chunks fill the free
 spaces of the registered blocks one after the other. This is the dual of reading a stream.
 */
module StubWrites {
  import opened Basics
  import opened StubEntries
  import opened StubSpec
  import opened StubRuns
  import opened StubBuffers

  // ---- One write ----

  /** A buffer entry after bytes were stored at its position: a copy changes, a direct buffer only refers to memory. */
  function Stored(e: Entry, chunk: seq<Byte>): (r: Entry)
    requires WellFormed(e) && e.kind.DataBuffer? && e.data.position + |chunk| <= e.data.totalSize
    ensures WellFormed(r) && r.kind.DataBuffer? && r.data.position == e.data.position && r.data.totalSize == e.data.totalSize
  {
    match e.data.base
    case Copied(bytes) => e.(data := e.data.(base := Copied(Overwrite(bytes, e.data.position, chunk))))
    case Direct(_) => e
  }

  /** The memory after bytes were stored at the position of a buffer entry. */
  function StoredIn(mem: Memory, e: Entry, chunk: seq<Byte>): (r: Memory)
    requires WellFormed(e) && e.kind.DataBuffer? && EntryInMemory(e, mem)
    requires e.data.position + |chunk| <= e.data.totalSize
  {
    match e.data.base
    case Copied(_) => mem
    case Direct(block) => mem[block := Overwrite(mem[block], e.data.position, chunk)]
  }

  /** A write to a list of buffers: what fits goes to the first from its position on, and a full buffer is gone. */
  ghost predicate FillsFirst(v: seq<Entry>, mem: Memory, local: seq<Byte>, count: nat, v': seq<Entry>, mem': Memory) {
    if v == [] then v' == v && mem' == mem && count == 0
    else
      && WellFormed(v[0]) && EntryInMemory(v[0], mem) && v[0].kind.DataBuffer?
      && var left := v[0].data.totalSize - v[0].data.position;
      && count == Min(|local|, left)
      && mem' == StoredIn(mem, v[0], local[..count])
      && v' == if count == left then v[1..] else [Advance(Stored(v[0], local[..count]), count)] + v[1..]
  }

  /**
   One write goes to the first buffer only, copied or direct: it stores what fits from the
   buffer's position on, and the entry is gone exactly when the buffer is full.
   */
  lemma CopyFromLocalView(s: State, key: Key, local: seq<Byte>)
    requires Inv(s)
    ensures var (t', mem', count) := CopyFromLocal(s.slots, s.mem, key, local);
      FillsFirst(View(s.slots, key, DataBuffer), s.mem, local, count, View(t', key, DataBuffer), mem')
  {
    hide View, ProbeFrom, Overwrite, Contents;
    FindIsHead(s.slots, key, DataBuffer);
    var found := Find(s.slots, key, DataBuffer);
    if found.Some? {
      var e := s.slots[found.value];
      var n := Min(|local|, e.data.totalSize - e.data.position);
      HeadUpdate(s.slots, key, DataBuffer, found.value, Advance(Stored(e, local[..n]), n));
      var rest := View(s.slots, key, DataBuffer)[1..];
      assert [] + rest == rest;
    }
  }

  // ---- Spaces ----

  /** The part of a block that is still to be filled. */
  datatype Space = Space(block: nat, from: nat, to: nat)

  function SpaceOf(e: Entry): Space {
    if e.data.Buff? && e.data.base.Direct? then Space(e.data.base.block, e.data.position, e.data.totalSize) else Space(0, 0, 0)
  }

  function SpacesOf(v: seq<Entry>): (q: seq<Space>)
    ensures |q| == |v| && forall i | 0 <= i < |v| :: q[i] == SpaceOf(v[i])
  {
    seq(|v|, i requires 0 <= i < |v| => SpaceOf(v[i]))
  }

  /** The spaces of a key's buffers, in the order in which they will be filled. */
  function Spaces(s: State, key: Key): (q: seq<Space>) {
    SpacesOf(View(s.slots, key, DataBuffer))
  }

  ghost predicate AllDirect(v: seq<Entry>) {
    forall e <- v :: e.data.Buff? && e.data.base.Direct?
  }

  /** Non-empty spaces inside their blocks, no two of them in one block. */
  ghost predicate GoodSpaces(q: seq<Space>, mem: Memory) {
    && (forall i | 0 <= i < |q| :: q[i].block in mem && q[i].from < q[i].to <= |mem[q[i].block]|)
    && forall i, j | 0 <= i < j < |q| :: q[i].block != q[j].block
  }

  /** How much of an offer is accepted: at most the first space, never more. */
  function Accept(q: seq<Space>, offered: nat): (n: nat) {
    if q == [] || q[0].to < q[0].from then 0 else Min(offered, q[0].to - q[0].from)
  }

  /** The spaces after the first `n` bytes were filled; a space is gone exactly when it is full. */
  function Drop(q: seq<Space>, n: nat): (r: seq<Space>)
    decreases q
  {
    if q == [] || n == 0 || q[0].to < q[0].from then q
    else
      var size := q[0].to - q[0].from;
      if size <= n then Drop(q[1..], n - size) else [Space(q[0].block, q[0].from + n, q[0].to)] + q[1..]
  }

  /** What the spaces hold, one after the other. */
  function Area(q: seq<Space>, mem: Memory): seq<Byte>
    decreases q
  {
    if q == [] then [] else AreaOf(q[0], mem) + Area(q[1..], mem)
  }

  function AreaOf(sp: Space, mem: Memory): seq<Byte> {
    if sp.block in mem && sp.from <= sp.to <= |mem[sp.block]| then mem[sp.block][sp.from..sp.to] else []
  }

  predicate Covers(q: seq<Space>, b: nat, i: nat) {
    exists j | 0 <= j < |q| :: q[j].block == b && q[j].from <= i < q[j].to
  }

  /** Nothing of these blocks changes outside the spaces. */
  ghost predicate OnlyInside(q: seq<Space>, mem: Memory, mem': Memory, blocks: set<nat>) {
    && mem'.Keys == mem.Keys
    && forall b | b in blocks && b in mem ::
         && |mem'[b]| == |mem[b]|
         && forall i: nat | i < |mem[b]| && !Covers(q, b, i) :: mem'[b][i] == mem[b][i]
  }

  lemma AreaSame(q: seq<Space>, m: Memory, m': Memory)
    requires forall i | 0 <= i < |q| :: AreaOf(q[i], m') == AreaOf(q[i], m)
    ensures Area(q, m') == Area(q, m)
    decreases q
  {
    hide AreaOf;
    if q != [] {
      AreaSame(q[1..], m, m');
    }
  }

  // ---- One write to the spaces ----

  /** The memory after a chunk was stored at the start of the first space. */
  function Put(q: seq<Space>, mem: Memory, chunk: seq<Byte>): (r: Memory)
    requires GoodSpaces(q, mem) && q != [] && |chunk| <= q[0].to - q[0].from
  {
    mem[q[0].block := Overwrite(mem[q[0].block], q[0].from, chunk)]
  }

  /** Filling n bytes and then m more is filling n + m bytes. */
  lemma DropDrop(q: seq<Space>, n: nat, m: nat)
    requires q != [] && q[0].from < q[0].to && n <= q[0].to - q[0].from
    ensures Drop(Drop(q, n), m) == Drop(q, n + m)
  {
  }

  lemma GoodAfterPut(q: seq<Space>, mem: Memory, chunk: seq<Byte>)
    requires GoodSpaces(q, mem) && q != [] && |chunk| <= q[0].to - q[0].from
    ensures GoodSpaces(Drop(q, |chunk|), Put(q, mem, chunk))
  {
    DropFirst(q, |chunk|);
    hide Drop;
  }

  /** The spaces left after part of the first one was filled. */
  lemma DropFirst(q: seq<Space>, n: nat)
    requires q != [] && q[0].from < q[0].to && n <= q[0].to - q[0].from
    ensures Drop(q, n)
         == if n == q[0].to - q[0].from then q[1..] else [Space(q[0].block, q[0].from + n, q[0].to)] + q[1..]
  {
    if n == 0 {
      assert q == [q[0]] + q[1..];
    }
  }

  lemma AreaOfCons(sp: Space, q: seq<Space>, mem: Memory)
    ensures Area([sp] + q, mem) == AreaOf(sp, mem) + Area(q, mem)
  {
    assert ([sp] + q)[1..] == q;
  }

  lemma AreaOfSplit(b: seq<Byte>, from: nat, n: nat, to: nat)
    requires from + n <= to <= |b|
    ensures b[from..to] == b[from..from + n] + b[from + n..to]
  {
  }

  /** The first `n` bytes of a space, and the space that is left. */
  function Head(sp: Space, n: nat): Space {
    Space(sp.block, sp.from, sp.from + n)
  }

  function Tail(sp: Space, n: nat): Space {
    Space(sp.block, sp.from + n, sp.to)
  }

  lemma SpaceSplit(sp: Space, mem: Memory, n: nat)
    requires sp.block in mem && sp.from + n <= sp.to <= |mem[sp.block]|
    ensures AreaOf(sp, mem) == AreaOf(Head(sp, n), mem) + AreaOf(Tail(sp, n), mem)
    ensures |AreaOf(Head(sp, n), mem)| == n
    ensures n == sp.to - sp.from ==> Head(sp, n) == sp
  {
    AreaOfSplit(mem[sp.block], sp.from, n, sp.to);
  }

  /** What the spaces hold is what the filled part holds followed by what the others hold. */
  lemma AreaSplit(q: seq<Space>, mem: Memory, n: nat)
    requires GoodSpaces(q, mem) && q != [] && n <= q[0].to - q[0].from
    ensures |AreaOf(Head(q[0], n), mem)| == n
    ensures Area(q, mem) == AreaOf(Head(q[0], n), mem) + Area(Drop(q, n), mem)
  {
    FirstIsGood(q, mem);
    DropFirst(q, n);
    var sp, rest := q[0], q[1..];
    assert Tail(sp, n) == Space(sp.block, sp.from + n, sp.to);
    hide *;
    SpaceSplit(sp, mem, n);
    assert q == [sp] + rest;
    AreaOfCons(sp, rest, mem);
    if n < sp.to - sp.from {
      AreaOfCons(Tail(sp, n), rest, mem);
      Assoc(AreaOf(Head(sp, n), mem), AreaOf(Tail(sp, n), mem), Area(rest, mem));
    }
  }

  /** Filling the first space does not change what the remaining spaces hold. */
  lemma PutKeepsTheRest(q: seq<Space>, mem: Memory, chunk: seq<Byte>)
    requires GoodSpaces(q, mem) && q != [] && |chunk| <= q[0].to - q[0].from
    ensures Area(Drop(q, |chunk|), Put(q, mem, chunk)) == Area(Drop(q, |chunk|), mem)
  {
    hide Drop;
    DropFirst(q, |chunk|);
    var d, m := Drop(q, |chunk|), Put(q, mem, chunk);
    forall i | 0 <= i < |d|
      ensures AreaOf(d[i], m) == AreaOf(d[i], mem)
    {
      if d[i].block == q[0].block {
        OverwriteTail(mem[q[0].block], q[0].from, chunk, q[0].to);
      }
    }
    AreaSame(d, mem, m);
  }

  lemma OverwriteTail(b: seq<Byte>, p: nat, chunk: seq<Byte>, to: nat)
    requires p + |chunk| <= to <= |b|
    ensures Overwrite(b, p, chunk)[p + |chunk|..to] == b[p + |chunk|..to]
  {
  }

  lemma OverwriteAt(b: seq<Byte>, p: nat, chunk: seq<Byte>, i: nat)
    requires p + |chunk| <= |b| && i < |b|
    ensures Overwrite(b, p, chunk)[i] == if p <= i < p + |chunk| then chunk[i - p] else b[i]
  {
  }

  lemma CoversAfterDrop(q: seq<Space>, n: nat, b: nat, i: nat)
    requires q != [] && q[0].from < q[0].to && n <= q[0].to - q[0].from && Covers(Drop(q, n), b, i)
    ensures Covers(q, b, i)
  {
    hide Drop;
    DropFirst(q, n);
    var d := Drop(q, n);
    var j :| 0 <= j < |d| && d[j].block == b && d[j].from <= i < d[j].to;
    if n == q[0].to - q[0].from {
      assert q[j + 1] == d[j];
    } else {
      assert q[j].block == b && q[j].from <= i < q[j].to;
    }
  }

  /** A write and what follows inside the remaining spaces stays inside the spaces. */
  lemma OnlyInsideChain(q: seq<Space>, mem: Memory, chunk: seq<Byte>, mem': Memory, blocks: set<nat>)
    requires GoodSpaces(q, mem) && q != [] && |chunk| <= q[0].to - q[0].from
    requires OnlyInside(Drop(q, |chunk|), Put(q, mem, chunk), mem', blocks)
    ensures OnlyInside(q, mem, mem', blocks)
  {
    hide Drop, Overwrite, Covers;
    var m, d := Put(q, mem, chunk), Drop(q, |chunk|);
    forall b, i: nat | b in blocks && b in mem && i < |mem[b]| && !Covers(q, b, i)
      ensures mem'[b][i] == mem[b][i]
    {
      if Covers(d, b, i) {
        CoversAfterDrop(q, |chunk|, b, i);
      }
      if b == q[0].block {
        NotCovered(q, b, i);
        OverwriteAt(mem[b], q[0].from, chunk, i);
      }
    }
  }

  lemma NotCovered(q: seq<Space>, b: nat, i: nat)
    requires q != [] && q[0].block == b && !Covers(q, b, i)
    ensures !(q[0].from <= i < q[0].to)
  {
  }

  lemma FilledNotCovered(q: seq<Space>, mem: Memory, n: nat, i: nat)
    requires GoodSpaces(q, mem) && q != [] && n <= q[0].to - q[0].from && i < q[0].from + n
    ensures !Covers(Drop(q, n), q[0].block, i)
  {
    hide Drop;
    DropFirst(q, n);
  }

  /** What was written to the first space is still there in the end. */
  lemma WrittenStays(q: seq<Space>, mem: Memory, chunk: seq<Byte>, mem': Memory, blocks: set<nat>)
    requires GoodSpaces(q, mem) && q != [] && |chunk| <= q[0].to - q[0].from && q[0].block in blocks
    requires OnlyInside(Drop(q, |chunk|), Put(q, mem, chunk), mem', blocks)
    ensures AreaOf(Head(q[0], |chunk|), mem') == chunk
  {
    hide Drop, Overwrite, Covers;
    FirstIsGood(q, mem);
    var b, from := q[0].block, q[0].from;
    forall i: nat | i < |chunk|
      ensures mem'[b][from + i] == chunk[i]
    {
      FilledNotCovered(q, mem, |chunk|, from + i);
      OverwriteAt(mem[b], from, chunk, from + i);
    }
  }

  // ---- Runs ----

  /** Writes to the key, and operations that touch neither its buffers nor its blocks. */
  predicate OnlyWrites(ops: seq<Op>, key: Key, sh: Sharing) {
    forall op <- ops :: (op.OpWrite? && op.key == key) || (!Touches(op, key, DataBuffer) && ActsApart(op, key, sh))
  }

  predicate IsWrite(op: Op, key: Key) {
    op.OpWrite? && op.key == key
  }

  /** The part of a write that was accepted. */
  function AcceptedPart(op: Op, reply: Reply, key: Key): seq<Byte> {
    if IsWrite(op, key) && reply.Written? && reply.count <= |op.local| then op.local[..reply.count] else []
  }

  /** Everything accepted during a run, one chunk after the other. */
  function Accepted(ops: seq<Op>, replies: seq<Reply>, key: Key): seq<Byte>
    requires |ops| == |replies|
    decreases ops
  {
    if ops == [] then [] else AcceptedPart(ops[0], replies[0], key) + Accepted(ops[1..], replies[1..], key)
  }

  /** Each write of the run is answered with what fits in the first space that is left, and stays in it. */
  predicate StaysInOne(q: seq<Space>, ops: seq<Op>, replies: seq<Reply>, key: Key)
    requires |ops| == |replies|
    decreases ops
  {
    ops == [] ||
    if IsWrite(ops[0], key) then
      var n := Accept(q, |ops[0].local|);
      replies[0] == Written(n) && StaysInOne(Drop(q, n), ops[1..], replies[1..], key)
    else StaysInOne(q, ops[1..], replies[1..], key)
  }

  /** The buffers of the key are direct, lie in its blocks, and no two share a block. */
  ghost predicate Ready(s: State, key: Key, sh: Sharing) {
    && Inv(s) && Apart(s.slots, key, sh) && key !in sh.writers
    && AllDirect(View(s.slots, key, DataBuffer))
    && GoodSpaces(Spaces(s, key), s.mem)
  }

  lemma DirectTail(v: seq<Entry>)
    requires v != [] && AllDirect(v)
    ensures v[0].data.Buff? && v[0].data.base.Direct? && AllDirect(v[1..])
  {
    assert v[0] in v;
  }

  lemma DirectCons(e: Entry, v: seq<Entry>)
    requires e.data.Buff? && e.data.base.Direct? && AllDirect(v)
    ensures AllDirect([e] + v)
  {
  }

  lemma SpacesCons(e: Entry, v: seq<Entry>)
    ensures SpacesOf([e] + v) == [SpaceOf(e)] + SpacesOf(v)
  {
  }

  lemma SpacesTail(v: seq<Entry>)
    requires v != []
    ensures SpacesOf(v)[0] == SpaceOf(v[0]) && SpacesOf(v)[1..] == SpacesOf(v[1..])
  {
  }

  /** A write of the table is a write to the first space. */
  lemma WriteFillsFirst(s: State, key: Key, local: seq<Byte>, sh: Sharing)
    requires Ready(s, key, sh)
    ensures var (t', mem', n) := CopyFromLocal(s.slots, s.mem, key, local);
      var q, s' := Spaces(s, key), State(t', mem');
      && n == Accept(q, |local|) <= |local|
      && Spaces(s', key) == Drop(q, n)
      && Ready(s', key, sh)
      && (if q == [] then mem' == s.mem else n <= q[0].to - q[0].from && mem' == Put(q, s.mem, local[..n]))
  {
    hide View, CopyFromLocal, Good, MemoryHolds, Drop, Apart, GoodSpaces, SpacesOf, Overwrite, AllDirect;
    CopyFromLocalView(s, key, local);
    WriteApart(s, key, local, key, sh);
    var v, q := View(s.slots, key, DataBuffer), Spaces(s, key);
    if v == [] {
      DropNothing();
    } else {
      DirectTail(v);
      SpacesTail(v);
      var n := Accept(q, |local|);
      FirstIsGood(q, s.mem);
      DropFirst(q, n);
      GoodAfterPut(q, s.mem, local[..n]);
      var e := Advance(Stored(v[0], local[..n]), n);
      SpacesCons(e, v[1..]);
      if n < q[0].to - q[0].from {
        DirectCons(e, v[1..]);
      }
    }
  }

  lemma DropNothing()
    ensures Drop([], 0) == []
  {
  }

  lemma FirstIsGood(q: seq<Space>, mem: Memory)
    requires GoodSpaces(q, mem) && q != []
    ensures q[0].block in mem && q[0].from < q[0].to <= |mem[q[0].block]|
  {
  }

  /** An operation on other keys leaves the spaces and what the key's blocks hold alone. */
  lemma OtherKeepsSpaces(s: State, op: Op, hooks: Hooks, key: Key, sh: Sharing)
    requires Ready(s, key, sh) && Step(s, op, hooks).Some? && !Touches(op, key, DataBuffer) && ActsApart(op, key, sh)
    ensures var s' := Step(s, op, hooks).value.0;
      && Spaces(s', key) == Spaces(s, key)
      && SameBlocks(s.mem, s'.mem, sh.blocks)
      && Ready(s', key, sh)
  {
    hide View, Step, Apart, SpacesOf, AllDirect, Good, MemoryHolds;
    StepFrame(s, op, hooks, key, DataBuffer);
    StepApart(s, op, hooks, key, sh);
    SpacesInBlocks(s, key, sh);
  }

  /** The spaces lie in the blocks of the key. */
  lemma SpacesInBlocks(s: State, key: Key, sh: Sharing)
    requires Ready(s, key, sh)
    ensures InBlocks(Spaces(s, key), sh.blocks)
  {
    hide View, Apart, GoodSpaces;
    ViewApart(s.slots, key, sh);
    var v := View(s.slots, key, DataBuffer);
    forall i | 0 <= i < |v|
      ensures SpaceOf(v[i]).block in sh.blocks
    {
      assert v[i] in v;
    }
  }

  /** What a run of writes achieves, from the spaces it starts with. */
  ghost predicate Filled(q: seq<Space>, w: seq<Byte>, q': seq<Space>, mem: Memory, mem': Memory, blocks: set<nat>) {
    && |w| <= |Area(q, mem)|
    && Area(q, mem') == w + Area(q, mem)[|w|..]
    && q' == Drop(q, |w|)
    && OnlyInside(q, mem, mem', blocks)
  }

  predicate InBlocks(q: seq<Space>, blocks: set<nat>) {
    forall i | 0 <= i < |q| :: q[i].block in blocks
  }

  lemma GoodInside(q: seq<Space>, mem: Memory, mem': Memory, blocks: set<nat>)
    requires GoodSpaces(q, mem) && OnlyInside(q, mem, mem', blocks) && InBlocks(q, blocks)
    ensures GoodSpaces(q, mem')
  {
    hide Covers;
  }

  lemma NothingFilled(q: seq<Space>, mem: Memory, blocks: set<nat>)
    ensures Filled(q, [], q, mem, mem, blocks)
  {
  }

  lemma FilledBytes(before: seq<Byte>, part: seq<Byte>, rest: seq<Byte>, after: seq<Byte>, chunk: seq<Byte>, w: seq<Byte>)
    requires before == part + rest && |part| == |chunk| && |w| <= |rest|
    requires after == chunk + (w + rest[|w|..])
    ensures |chunk + w| <= |before| && after == chunk + w + before[|chunk + w|..]
  {
    assert before[|chunk| + |w|..] == rest[|w|..];
    Assoc(chunk, w, rest[|w|..]);
  }

  /** The bytes of the spaces after a write and what follows it. */
  lemma FilledArea(q: seq<Space>, chunk: seq<Byte>, w: seq<Byte>, mem: Memory, mem': Memory, blocks: set<nat>)
    requires GoodSpaces(q, mem) && GoodSpaces(q, mem') && q != [] && |chunk| <= q[0].to - q[0].from && q[0].block in blocks
    requires OnlyInside(Drop(q, |chunk|), Put(q, mem, chunk), mem', blocks)
    requires var left := Area(Drop(q, |chunk|), Put(q, mem, chunk));
      |w| <= |left| && Area(Drop(q, |chunk|), mem') == w + left[|w|..]
    ensures |chunk + w| <= |Area(q, mem)| && Area(q, mem') == chunk + w + Area(q, mem)[|chunk + w|..]
  {
    hide Drop, Area, AreaOf, OnlyInside, GoodSpaces, Put;
    WrittenStays(q, mem, chunk, mem', blocks);
    AreaSplit(q, mem, |chunk|);
    AreaSplit(q, mem', |chunk|);
    PutKeepsTheRest(q, mem, chunk);
    FilledBytes(Area(q, mem), AreaOf(Head(q[0], |chunk|), mem), Area(Drop(q, |chunk|), mem), Area(q, mem'), chunk, w);
  }

  /** A write in front of a run. */
  lemma FilledCons(q: seq<Space>, chunk: seq<Byte>, w: seq<Byte>, q': seq<Space>, mem: Memory, mem': Memory, blocks: set<nat>)
    requires GoodSpaces(q, mem) && q != [] && |chunk| <= q[0].to - q[0].from && InBlocks(q, blocks)
    requires Filled(Drop(q, |chunk|), w, q', Put(q, mem, chunk), mem', blocks)
    ensures Filled(q, chunk + w, q', mem, mem', blocks)
  {
    hide Drop, Area, OnlyInside, GoodSpaces, Put;
    FirstIsGood(q, mem);
    OnlyInsideChain(q, mem, chunk, mem', blocks);
    GoodInside(q, mem, mem', blocks);
    FilledArea(q, chunk, w, mem, mem', blocks);
    DropDrop(q, |chunk|, |w|);
  }

  /** An operation that leaves the blocks alone, in front of a run. */
  lemma FilledAfterOther(q: seq<Space>, w: seq<Byte>, q': seq<Space>, mem: Memory, mem1: Memory, mem': Memory, blocks: set<nat>)
    requires InBlocks(q, blocks) && SameBlocks(mem, mem1, blocks) && Filled(q, w, q', mem1, mem', blocks)
    ensures Filled(q, w, q', mem, mem', blocks)
  {
    hide Drop, Covers;
    AreaSame(q, mem, mem1);
  }

  /**
   Over every run of writes to a key, interleaved with operations that touch neither its
   buffers nor their blocks, for any number of direct buffers on distinct blocks: the accepted
   chunks fill the free spaces one after the other in the order of the buffers, each chunk
   stays in one buffer, a buffer is gone exactly when it is full, and nothing else of the
   key's blocks changes.
   */
  lemma {:induction false} WritesFillTheSpaces(s: State, ops: seq<Op>, hooks: Hooks, key: Key, sh: Sharing)
    requires Ready(s, key, sh) && Run(s, ops, hooks).Some? && OnlyWrites(ops, key, sh)
    ensures var (s', replies) := Run(s, ops, hooks).value;
      && Filled(Spaces(s, key), Accepted(ops, replies, key), Spaces(s', key), s.mem, s'.mem, sh.blocks)
      && StaysInOne(Spaces(s, key), ops, replies, key)
      && Ready(s', key, sh)
    decreases ops
  {
    hide Step, Spaces, Filled, Ready, ActsApart, Drop, Put, GoodSpaces, Inv, Touches;
    if ops == [] {
      NothingFilled(Spaces(s, key), s.mem, sh.blocks);
    } else {
      var op := ops[0];
      assert op in ops;
      assert OnlyWrites(ops[1..], key, sh);
      ReadyInv(s, key, sh);
      var (s1, reply) := Step(s, op, hooks).value;
      var (s', replies) := Run(s, ops, hooks).value;
      assert replies[0] == reply && replies[1..] == Run(s1, ops[1..], hooks).value.1;
      var w := Accepted(ops[1..], replies[1..], key);
      if IsWrite(op, key) {
        WriteStep(s, op, hooks, key, sh);
        WritesFillTheSpaces(s1, ops[1..], hooks, key, sh);
        WriteInFront(s, op, hooks, key, sh, w, s');
      } else {
        OtherKeepsSpaces(s, op, hooks, key, sh);
        WritesFillTheSpaces(s1, ops[1..], hooks, key, sh);
        SpacesInBlocks(s, key, sh);
        FilledAfterOther(Spaces(s, key), w, Spaces(s', key), s.mem, s1.mem, s'.mem, sh.blocks);
        assert [] + w == w;
      }
    }
  }

  lemma ReadyInv(s: State, key: Key, sh: Sharing)
    requires Ready(s, key, sh)
    ensures Inv(s) && GoodSpaces(Spaces(s, key), s.mem)
  {
  }

  lemma WriteStep(s: State, op: Op, hooks: Hooks, key: Key, sh: Sharing)
    requires Ready(s, key, sh) && IsWrite(op, key) && Step(s, op, hooks).Some?
    ensures var (s1, reply) := Step(s, op, hooks).value;
      var q := Spaces(s, key);
      var n := Accept(q, |op.local|);
      && reply == Written(n) && n <= |op.local|
      && Spaces(s1, key) == Drop(q, n) && Ready(s1, key, sh)
  {
    hide Spaces, Ready, Drop, CopyFromLocal;
    ReadyInv(s, key, sh);
    WriteFillsFirst(s, key, op.local, sh);
  }

  lemma WriteInFront(s: State, op: Op, hooks: Hooks, key: Key, sh: Sharing, w: seq<Byte>, s': State)
    requires Ready(s, key, sh) && IsWrite(op, key) && Step(s, op, hooks).Some?
    requires var s1 := Step(s, op, hooks).value.0;
      Filled(Spaces(s1, key), w, Spaces(s', key), s1.mem, s'.mem, sh.blocks)
    ensures var reply := Step(s, op, hooks).value.1;
      Filled(Spaces(s, key), AcceptedPart(op, reply, key) + w, Spaces(s', key), s.mem, s'.mem, sh.blocks)
  {
    hide Spaces, Ready, Filled, Drop, CopyFromLocal, Put, GoodSpaces;
    ReadyInv(s, key, sh);
    WriteFillsFirst(s, key, op.local, sh);
    SpacesInBlocks(s, key, sh);
    var q := Spaces(s, key);
    var n := Accept(q, |op.local|);
    if q == [] {
      DropNothing();
      assert op.local[..0] + w == w;
    } else {
      FilledCons(q, op.local[..n], w, Spaces(s', key), s.mem, s'.mem, sh.blocks);
    }
  }
}
