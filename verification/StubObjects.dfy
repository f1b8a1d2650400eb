/**
 The object-ID allocator of the OSAL stubs (osal/src/ut-stubs/utstub-helpers.c): per object
 type, the last issued number and a bitmap of live numbers, cleared once per test reset by
 way of the stub table's call-once entries.
 */
module StubObjects {
  import opened Basics
  import opened StubEntries
  import opened StubSpec
  import opened StubViews
  import opened StubRuns
  import opened StubAnswers
  import opened ObjectIds
  import StubTable

  // ---- The bitmap of one type ----

  type Bitmap = b: seq<Byte> | |b| == MAX_VALID_PER_TYPE witness seq(MAX_VALID_PER_TYPE, i => 0)

  predicate HasBit(b: Bitmap, i: nat)
    requires i < MAX_IDS
  {
    TestBit(b[i / 8], i % 8)
  }

  lemma SameBit(i: nat, k: nat)
    ensures i / 8 == k / 8 && i % 8 == k % 8 <==> i == k
  {
  }

  lemma SetBitAt(b: Bitmap, i: nat, k: nat)
    requires i < MAX_IDS && k < MAX_IDS
    ensures HasBit(b[i / 8 := b[i / 8] | Mask(i % 8)], k) <==> k == i || HasBit(b, k)
  {
    hide Mask, TestBit;
    ByteBits(b[i / 8], i % 8, k % 8);
    SameBit(i, k);
  }

  lemma ClearBitAt(b: Bitmap, i: nat, k: nat)
    requires i < MAX_IDS && k < MAX_IDS
    ensures HasBit(b[i / 8 := b[i / 8] & !Mask(i % 8)], k) <==> k != i && HasBit(b, k)
  {
    hide Mask, TestBit;
    ByteBits(b[i / 8], i % 8, k % 8);
    SameBit(i, k);
  }

  function SetBit(b: Bitmap, i: nat): (r: Bitmap)
    requires i < MAX_IDS
    ensures forall k: nat | k < MAX_IDS :: HasBit(r, k) <==> k == i || HasBit(b, k)
  {
    hide HasBit;
    forall k: nat | k < MAX_IDS { SetBitAt(b, i, k); }
    b[i / 8 := b[i / 8] | Mask(i % 8)]
  }

  function ClearBit(b: Bitmap, i: nat): (r: Bitmap)
    requires i < MAX_IDS
    ensures forall k: nat | k < MAX_IDS :: HasBit(r, k) <==> k != i && HasBit(b, k)
  {
    hide HasBit;
    forall k: nat | k < MAX_IDS { ClearBitAt(b, i, k); }
    b[i / 8 := b[i / 8] & !Mask(i % 8)]
  }

  datatype TypeState = TypeState(lastIssueNumber: nat, validBits: Bitmap)

  const ZERO_BITMAP: Bitmap := seq(MAX_VALID_PER_TYPE, i => 0)
  const NO_OBJECTS := TypeState(0, ZERO_BITMAP)

  /** Live numbers never exceed the last one issued, and zero is never issued. */
  ghost predicate TypeGood(ts: TypeState) {
    && ts.lastIssueNumber < MAX_IDS
    && forall i: nat | i < MAX_IDS && HasBit(ts.validBits, i) :: 0 < i <= ts.lastIssueNumber
  }

  /** The number the next allocation hands out: the next one, or the last one again when they run out. */
  function NextIssue(ts: TypeState): (n: nat)
    requires TypeGood(ts)
    ensures 0 < n < MAX_IDS
  {
    if ts.lastIssueNumber < MAX_IDS - 1 then ts.lastIssueNumber + 1 else ts.lastIssueNumber
  }

  function Issue(ts: TypeState): (r: TypeState)
    requires TypeGood(ts)
    ensures TypeGood(r)
  {
    TypeState(NextIssue(ts), SetBit(ts.validBits, NextIssue(ts)))
  }

  function Retire(ts: TypeState, i: nat): (r: TypeState)
    requires TypeGood(ts) && i < MAX_IDS
    ensures TypeGood(r)
  {
    ts.(validBits := ClearBit(ts.validBits, i))
  }

  // ---- The allocator over the stub table ----

  type Objects = o: seq<TypeState> | |o| == OBJTYPE_MAX witness seq(OBJTYPE_MAX, i => NO_OBJECTS)

  datatype World = World(stubs: State, objects: Objects)

  ghost predicate WorldGood(w: World) {
    Inv(w.stubs) && ObjectsGood(w.objects)
  }

  ghost predicate ObjectsGood(o: Objects) {
    forall t | 0 <= t < OBJTYPE_MAX :: TypeGood(o[t])
  }

  function Nothing(): (o: Objects)
    ensures ObjectsGood(o)
    ensures forall t: nat, i: nat | t < OBJTYPE_MAX && i < MAX_IDS :: !IsLive(o, t, i)
  {
    forall i: nat | i < MAX_IDS
      ensures !HasBit(ZERO_BITMAP, i)
    {
      assert ZERO_BITMAP[i / 8] == 0;
    }
    seq(OBJTYPE_MAX, i => NO_OBJECTS)
  }

  predicate IsLive(o: Objects, t: nat, i: nat)
    requires t < OBJTYPE_MAX && i < MAX_IDS
  {
    HasBit(o[t].validBits, i)
  }

  datatype ObjectOp = Alloc(objType: nat) | Delete(objType: nat, objId: bv32) | Stub(op: Op)

  /** What an operation did: whether it cleared all objects first, and which object it issued or retired. */
  datatype ObjectEvent = ObjectEvent(cleared: bool, action: Action)
  datatype Action =
    | Issued(objType: nat, index: nat, overlap: bool)
    | Retired(objType: nat, index: nat, typeOk: bool, wasLive: bool)
    | StubAction

  /** The once-per-reset clearing that every allocation and deletion starts with. */
  function Prepare(w: World, clearKey: Key): (r: Option<(World, bool)>)
    requires WorldGood(w)
    ensures r.Some? ==> WorldGood(r.value.0)
  {
    var once := MarkOnce(w.stubs.slots, clearKey);
    if once.None? then None
    else
      var stubs := State(once.value.0, w.stubs.mem);
      Some((World(stubs, if once.value.1 then Nothing() else w.objects), once.value.1))
  }

  /** One operation; `None` ends the run because the test was aborted or the ID's index is out of range. */
  function ObjectStep(w: World, op: ObjectOp, clearKey: Key, hooks: Hooks): (r: Option<(World, ObjectEvent)>)
    requires WorldGood(w) && (op.Delete? ==> op.objType < OBJTYPE_MAX)
    ensures r.Some? ==> WorldGood(r.value.0)
  {
    match op
    case Stub(op) =>
      var r := Step(w.stubs, op, hooks);
      if r.None? then None else Some((World(r.value.0, w.objects), ObjectEvent(false, StubAction)))
    case Alloc(t) => AllocStep(w, t, clearKey)
    case Delete(t, id) => DeleteStep(w, t, id, clearKey)
  }

  function AllocStep(w: World, t: nat, clearKey: Key): (r: Option<(World, ObjectEvent)>)
    requires WorldGood(w)
    ensures r.Some? ==> WorldGood(r.value.0) && r.value.1.action.Issued? && r.value.1.action.index < MAX_IDS
  {
    var p := Prepare(w, clearKey);
    if p.None? || t == OBJTYPE_NONE || t >= OBJTYPE_MAX then None
    else
      var (w1, cleared) := p.value;
      var ts := w1.objects[t];
      var n := NextIssue(ts);
      Some((w1.(objects := w1.objects[t := Issue(ts)]),
            ObjectEvent(cleared, Issued(t, n, HasBit(ts.validBits, n)))))
  }

  function DeleteStep(w: World, t: nat, id: bv32, clearKey: Key): (r: Option<(World, ObjectEvent)>)
    requires WorldGood(w) && t < OBJTYPE_MAX
    ensures r.Some? ==> WorldGood(r.value.0) && r.value.1.action.Retired?
  {
    var p := Prepare(w, clearKey);
    var i := IndexOf(id);
    if p.None? || i >= MAX_IDS then None
    else
      var (w1, cleared) := p.value;
      var ts := w1.objects[t];
      Some((w1.(objects := w1.objects[t := Retire(ts, i)]),
            ObjectEvent(cleared, Retired(t, i, TypeOf(id) == t, HasBit(ts.validBits, i)))))
  }

  function ObjectRun(w: World, ops: seq<ObjectOp>, clearKey: Key, hooks: Hooks): (r: Option<(World, seq<ObjectEvent>)>)
    requires WorldGood(w) && forall op <- ops :: op.Delete? ==> op.objType < OBJTYPE_MAX
    ensures r.Some? ==> WorldGood(r.value.0)
    decreases ops
  {
    if ops == [] then Some((w, []))
    else
      assert ops[0] in ops;
      var first := ObjectStep(w, ops[0], clearKey, hooks);
      if first.None? then None
      else
        var rest := ObjectRun(first.value.0, ops[1..], clearKey, hooks);
        if rest.None? then None else Some((rest.value.0, [first.value.1] + rest.value.1))
  }

  // ---- The ledger of outstanding objects ----

  type Ledger = multiset<(nat, nat)>

  /** Bookkeeping by events alone: who was handed an ID and has not given it back since the last clear. */
  function Record(ledger: Ledger, e: ObjectEvent): (r: Ledger) {
    var l := if e.cleared then multiset{} else ledger;
    match e.action
    case Issued(t, i, _) => l + multiset{(t, i)}
    case Retired(t, i, _, _) => l - multiset{(t, i)}
    case StubAction => l
  }

  function RecordAll(ledger: Ledger, events: seq<ObjectEvent>): (r: Ledger)
    decreases events
  {
    if events == [] then ledger else RecordAll(Record(ledger, events[0]), events[1..])
  }

  /** Each live bit stands for exactly one outstanding object, and nothing else is outstanding. */
  ghost predicate LedgerMatches(o: Objects, ledger: Ledger) {
    forall t: nat, i: nat ::
      ledger[(t, i)] == if t < OBJTYPE_MAX && i < MAX_IDS && IsLive(o, t, i) then 1 else 0
  }

  predicate NoOverlap(events: seq<ObjectEvent>) {
    forall e <- events :: e.action.Issued? ==> !e.action.overlap
  }

  lemma PrepareMatches(w: World, clearKey: Key, ledger: Ledger)
    requires WorldGood(w) && Prepare(w, clearKey).Some? && LedgerMatches(w.objects, ledger)
    ensures var (w1, cleared) := Prepare(w, clearKey).value;
      LedgerMatches(w1.objects, if cleared then multiset{} else ledger)
  {
    hide MarkOnce, HasBit;
  }

  lemma IssueMatches(o: Objects, ledger: Ledger, t: nat)
    requires ObjectsGood(o) && LedgerMatches(o, ledger) && t < OBJTYPE_MAX
    requires !IsLive(o, t, NextIssue(o[t]))
    ensures LedgerMatches(o[t := Issue(o[t])], ledger + multiset{(t, NextIssue(o[t]))})
  {
    hide HasBit, NextIssue;
  }

  lemma RetireMatches(o: Objects, ledger: Ledger, t: nat, i: nat)
    requires ObjectsGood(o) && LedgerMatches(o, ledger) && t < OBJTYPE_MAX && i < MAX_IDS
    ensures LedgerMatches(o[t := Retire(o[t], i)], ledger - multiset{(t, i)})
  {
    hide HasBit;
  }

  lemma StepMatches(w: World, op: ObjectOp, clearKey: Key, hooks: Hooks, ledger: Ledger)
    requires WorldGood(w) && (op.Delete? ==> op.objType < OBJTYPE_MAX) && LedgerMatches(w.objects, ledger)
    requires ObjectStep(w, op, clearKey, hooks).Some? && NoOverlap([ObjectStep(w, op, clearKey, hooks).value.1])
    ensures var (w', e) := ObjectStep(w, op, clearKey, hooks).value;
      LedgerMatches(w'.objects, Record(ledger, e))
  {
    hide Prepare, LedgerMatches, Step, HasBit, Inv, Issue, Retire, NextIssue, IndexOf, TypeOf;
    var e := ObjectStep(w, op, clearKey, hooks).value.1;
    assert e in [e];
    if !op.Stub? {
      var (w1, cleared) := Prepare(w, clearKey).value;
      PrepareMatches(w, clearKey, ledger);
      var l := if cleared then multiset{} else ledger;
      if op.Alloc? {
        IssueMatches(w1.objects, l, op.objType);
      } else {
        RetireMatches(w1.objects, l, op.objType, IndexOf(op.objId));
      }
    }
  }

  /**
   Over every run in which no overlap was reported, the valid bits are exactly the objects
   handed out and not given back since the last clear, each of them handed out once.
   */
  lemma {:induction false} LiveObjectsAreDistinct(w: World, ops: seq<ObjectOp>, clearKey: Key, hooks: Hooks, ledger: Ledger)
    requires WorldGood(w) && LedgerMatches(w.objects, ledger) && forall op <- ops :: op.Delete? ==> op.objType < OBJTYPE_MAX
    requires ObjectRun(w, ops, clearKey, hooks).Some? && NoOverlap(ObjectRun(w, ops, clearKey, hooks).value.1)
    ensures var (w', events) := ObjectRun(w, ops, clearKey, hooks).value;
      && LedgerMatches(w'.objects, RecordAll(ledger, events))
      && forall p: (nat, nat) :: RecordAll(ledger, events)[p] <= 1
    decreases ops
  {
    hide ObjectStep, LedgerMatches, Record, WorldGood;
    if ops == [] {
      MatchedLedgerIsASet(w.objects, ledger);
    } else {
      assert ops[0] in ops;
      var (w1, e) := ObjectStep(w, ops[0], clearKey, hooks).value;
      var events := ObjectRun(w, ops, clearKey, hooks).value.1;
      assert events[0] == e && e in events && events[1..] == ObjectRun(w1, ops[1..], clearKey, hooks).value.1;
      StepMatches(w, ops[0], clearKey, hooks, ledger);
      LiveObjectsAreDistinct(w1, ops[1..], clearKey, hooks, Record(ledger, e));
    }
  }

  lemma MatchedLedgerIsASet(o: Objects, ledger: Ledger)
    requires LedgerMatches(o, ledger)
    ensures forall p: (nat, nat) :: ledger[p] <= 1
  {
    forall p: (nat, nat)
      ensures ledger[p] <= 1
    {
      assert p == (p.0, p.1);
    }
  }

  // ---- Once per reset ----

  /** How often the one-time function of `key` ran during a run. */
  function TimesRun(ops: seq<Op>, replies: seq<Reply>, key: Key): nat
    requires |ops| == |replies|
    decreases ops
  {
    if ops == [] then 0
    else
      (if ops[0] == OpOnce(key) && replies[0] == Once(true) then 1 else 0) + TimesRun(ops[1..], replies[1..], key)
  }

  lemma OnceStep(s: State, op: Op, hooks: Hooks, key: Key)
    requires Inv(s) && Step(s, op, hooks).Some? && !(op.OpReset? && (op.key == 0 || op.key == key)) && key != 0
    ensures var (s', reply) := Step(s, op, hooks).value;
      && (op == OpOnce(key) ==> reply == Once(View(s.slots, key, CallOnce) == []) && View(s'.slots, key, CallOnce) != [])
      && (View(s.slots, key, CallOnce) != [] ==> View(s'.slots, key, CallOnce) != [])
      && (op != OpOnce(key) ==> View(s'.slots, key, CallOnce) == View(s.slots, key, CallOnce))
  {
    hide View, Call;
    if op != OpOnce(key) {
      StepFrame(s, op, hooks, key, CallOnce);
    } else {
      FindIsHead(s.slots, key, CallOnce);
      if View(s.slots, key, CallOnce) == [] {
        var i := FirstFree(s.slots, 0).value;
        ViewUpdate(s.slots, key, CallOnce, i, OnceEntry(key));
      }
    }
  }

  /** Until its marker is reset, a one-time function runs at the first opportunity and never again. */
  lemma {:induction false} RunsOncePerReset(s: State, ops: seq<Op>, hooks: Hooks, key: Key)
    requires Inv(s) && key != 0 && Run(s, ops, hooks).Some?
    requires forall op <- ops :: !(op.OpReset? && (op.key == 0 || op.key == key))
    ensures var (s', replies) := Run(s, ops, hooks).value;
      && (View(s.slots, key, CallOnce) != [] ==> View(s'.slots, key, CallOnce) != [])
      && TimesRun(ops, replies, key)
           == if OpOnce(key) in ops && View(s.slots, key, CallOnce) == [] then 1 else 0
    decreases ops
  {
    hide Step, View, Inv;
    if ops != [] {
      assert ops[0] in ops;
      var (s1, reply) := Step(s, ops[0], hooks).value;
      OnceStep(s, ops[0], hooks, key);
      RunsOncePerReset(s1, ops[1..], hooks, key);
      var replies := Run(s, ops, hooks).value.1;
      assert replies[0] == reply && replies[1..] == Run(s1, ops[1..], hooks).value.1;
      assert OpOnce(key) in ops <==> ops[0] == OpOnce(key) || OpOnce(key) in ops[1..];
    }
  }

  // ---- When the objects are cleared ----

  predicate Uses(op: ObjectOp) {
    op.Alloc? || op.Delete?
  }

  /** Operations after which the marker of the clearing function is set, and after which it is not. */
  predicate Marks(op: ObjectOp, clearKey: Key) {
    Uses(op) || op == Stub(OpOnce(clearKey))
  }

  predicate Unmarks(op: ObjectOp, clearKey: Key) {
    op.Stub? && op.op.OpReset? && (op.op.key == 0 || op.op.key == clearKey)
  }

  ghost predicate HasMarker(w: World, clearKey: Key) {
    View(w.stubs.slots, clearKey, CallOnce) != []
  }

  function MarkedAfter(op: ObjectOp, clearKey: Key, marked: bool): bool {
    if Unmarks(op, clearKey) then false else Marks(op, clearKey) || marked
  }

  /** Whether the marker is set before operation `i`, from the operations alone. */
  function Marked(ops: seq<ObjectOp>, i: nat, clearKey: Key, start: bool): bool
    requires i <= |ops|
    decreases ops
  {
    if i == 0 then start else Marked(ops[1..], i - 1, clearKey, MarkedAfter(ops[0], clearKey, start))
  }

  /** Something set the marker, or it was set at the start, and no reset came after that. */
  ghost predicate MarkedSince(ops: seq<ObjectOp>, i: nat, clearKey: Key, start: bool)
    requires i <= |ops|
  {
    || (start && forall r: nat | r < i :: !Unmarks(ops[r], clearKey))
    || exists j: nat | j < i :: Marks(ops[j], clearKey) && forall r: nat | j < r < i :: !Unmarks(ops[r], clearKey)
  }

  lemma {:induction false} MarkedIsMarkedSince(ops: seq<ObjectOp>, i: nat, clearKey: Key, start: bool)
    requires i <= |ops|
    ensures Marked(ops, i, clearKey, start) <==> MarkedSince(ops, i, clearKey, start)
    decreases ops
  {
    hide Marks, Unmarks;
    if i > 0 {
      var next, tail := MarkedAfter(ops[0], clearKey, start), ops[1..];
      MarkedIsMarkedSince(tail, i - 1, clearKey, next);
      if MarkedSince(tail, i - 1, clearKey, next) {
        SinceInFront(ops, i, clearKey, start);
      }
      if MarkedSince(ops, i, clearKey, start) {
        SinceInTail(ops, i, clearKey, start);
      }
    }
  }

  lemma NotBoth(op: ObjectOp, clearKey: Key)
    ensures !(Marks(op, clearKey) && Unmarks(op, clearKey))
  {
  }

  lemma SinceInFront(ops: seq<ObjectOp>, i: nat, clearKey: Key, start: bool)
    requires 0 < i <= |ops| && MarkedSince(ops[1..], i - 1, clearKey, MarkedAfter(ops[0], clearKey, start))
    ensures MarkedSince(ops, i, clearKey, start)
  {
    hide Marks, Unmarks;
    var tail := ops[1..];
    if j: nat :| j < i - 1 && Marks(tail[j], clearKey) && forall r: nat | j < r < i - 1 :: !Unmarks(tail[r], clearKey) {
      assert Marks(ops[j + 1], clearKey);
      forall r: nat | j + 1 < r < i
        ensures !Unmarks(ops[r], clearKey)
      {
        assert ops[r] == tail[r - 1];
      }
    } else {
      forall r: nat | 0 < r < i
        ensures !Unmarks(ops[r], clearKey)
      {
        assert ops[r] == tail[r - 1];
      }
      if Marks(ops[0], clearKey) {
        assert forall r: nat | 0 < r < i :: !Unmarks(ops[r], clearKey);
      }
    }
  }

  lemma SinceInTail(ops: seq<ObjectOp>, i: nat, clearKey: Key, start: bool)
    requires 0 < i <= |ops| && MarkedSince(ops, i, clearKey, start)
    ensures MarkedSince(ops[1..], i - 1, clearKey, MarkedAfter(ops[0], clearKey, start))
  {
    hide Marks, Unmarks;
    var tail := ops[1..];
    NotBoth(ops[0], clearKey);
    if j: nat :| 0 < j < i && Marks(ops[j], clearKey) && forall r: nat | j < r < i :: !Unmarks(ops[r], clearKey) {
      assert Marks(tail[j - 1], clearKey);
    }
  }

  /** The marker and the clearing after one operation. */
  lemma MarkerStep(w: World, op: ObjectOp, clearKey: Key, hooks: Hooks)
    requires WorldGood(w) && (op.Delete? ==> op.objType < OBJTYPE_MAX) && clearKey != 0
    requires ObjectStep(w, op, clearKey, hooks).Some?
    ensures var (w', e) := ObjectStep(w, op, clearKey, hooks).value;
      && e.cleared == (Uses(op) && !HasMarker(w, clearKey))
      && HasMarker(w', clearKey) == MarkedAfter(op, clearKey, HasMarker(w, clearKey))
  {
    hide View, Issue, Retire, NextIssue, HasBit, IndexOf, TypeOf, ObjectsGood, Inv, MarkOnce, Call;
    match op
    case Stub(op) =>
      if op.OpReset? && (op.key == 0 || op.key == clearKey) {
        ResetView(w.stubs.slots, op.key, clearKey, CallOnce);
      } else {
        OnceStep(w.stubs, op, hooks, clearKey);
      }
    case Alloc(_) => OnceStep(w.stubs, OpOnce(clearKey), hooks, clearKey);
    case Delete(_, _) => OnceStep(w.stubs, OpOnce(clearKey), hooks, clearKey);
  }

  /**
   When a run clears all objects, from its operations alone: an allocation or deletion clears
   exactly when no allocation, deletion or call of the clearing function came before it since
   the last reset of everything or of the clearing function.
   */
  lemma {:induction false} ClearsOncePerReset(w: World, ops: seq<ObjectOp>, clearKey: Key, hooks: Hooks)
    requires WorldGood(w) && (forall op <- ops :: op.Delete? ==> op.objType < OBJTYPE_MAX) && clearKey != 0
    requires ObjectRun(w, ops, clearKey, hooks).Some?
    ensures var events := ObjectRun(w, ops, clearKey, hooks).value.1;
      && |events| == |ops|
      && forall i: nat | i < |ops| ::
           events[i].cleared <==> Uses(ops[i]) && !MarkedSince(ops, i, clearKey, HasMarker(w, clearKey))
    decreases ops
  {
    hide ObjectStep, HasMarker, WorldGood, MarkedSince, MarkedAfter;
    if ops != [] {
      assert ops[0] in ops;
      var (w1, e) := ObjectStep(w, ops[0], clearKey, hooks).value;
      MarkerStep(w, ops[0], clearKey, hooks);
      ClearsOncePerReset(w1, ops[1..], clearKey, hooks);
      var events := ObjectRun(w, ops, clearKey, hooks).value.1;
      assert events[0] == e && events[1..] == ObjectRun(w1, ops[1..], clearKey, hooks).value.1;
      forall i: nat | i < |ops|
        ensures events[i].cleared <==> Uses(ops[i]) && !MarkedSince(ops, i, clearKey, HasMarker(w, clearKey))
      {
        MarkedIsMarkedSince(ops, i, clearKey, HasMarker(w, clearKey));
        if i > 0 {
          MarkedIsMarkedSince(ops[1..], i - 1, clearKey, HasMarker(w1, clearKey));
          assert events[i] == events[1..][i - 1] && ops[i] == ops[1..][i - 1];
        }
      }
    }
  }

  // ---- Which indices are issued, and what is reported ----

  /** The n-th index of a type: 1, 2, 3 and so on, and 127 for ever once they run out. */
  function NthIndex(n: nat): nat {
    if n < 127 then n else 127
  }

  /** The allocations of type `t` are numbered, starting after `n` of them, and from one again after each clear. */
  predicate Numbered(events: seq<ObjectEvent>, t: nat, n: nat)
    decreases events
  {
    events == [] ||
    var m := if events[0].cleared then 0 else n;
    if events[0].action.Issued? && events[0].action.objType == t
    then events[0].action.index == NthIndex(m + 1) && Numbered(events[1..], t, m + 1)
    else Numbered(events[1..], t, m)
  }

  function IssuedAfter(e: ObjectEvent, t: nat, n: nat): nat {
    (if e.cleared then 0 else n) + if e.action.Issued? && e.action.objType == t then 1 else 0
  }

  lemma NumberStep(w: World, op: ObjectOp, clearKey: Key, hooks: Hooks, t: nat, n: nat)
    requires WorldGood(w) && (op.Delete? ==> op.objType < OBJTYPE_MAX) && t < OBJTYPE_MAX
    requires w.objects[t].lastIssueNumber == NthIndex(n) && ObjectStep(w, op, clearKey, hooks).Some?
    ensures var (w', e) := ObjectStep(w, op, clearKey, hooks).value;
      && w'.objects[t].lastIssueNumber == NthIndex(IssuedAfter(e, t, n))
      && (e.action.Issued? && e.action.objType == t ==> e.action.index == NthIndex(IssuedAfter(e, t, n)))
  {
    hide Step, MarkOnce, HasBit, SetBit, ClearBit, IndexOf, TypeOf, Inv, TypeGood;
    NothingIssued(t);
  }

  lemma NothingIssued(t: nat)
    requires t < OBJTYPE_MAX
    ensures Nothing()[t].lastIssueNumber == 0
  {
  }

  /** Over every run, each type hands out the indices 1, 2, 3 and so on since the last clear, and 127 again once they run out. */
  lemma {:induction false} IssuedInSequence(w: World, ops: seq<ObjectOp>, clearKey: Key, hooks: Hooks, t: nat, n: nat)
    requires WorldGood(w) && (forall op <- ops :: op.Delete? ==> op.objType < OBJTYPE_MAX) && t < OBJTYPE_MAX
    requires w.objects[t].lastIssueNumber == NthIndex(n) && ObjectRun(w, ops, clearKey, hooks).Some?
    ensures Numbered(ObjectRun(w, ops, clearKey, hooks).value.1, t, n)
    decreases ops
  {
    hide ObjectStep, WorldGood, NthIndex;
    if ops != [] {
      assert ops[0] in ops;
      var (w1, e) := ObjectStep(w, ops[0], clearKey, hooks).value;
      NumberStep(w, ops[0], clearKey, hooks, t, n);
      IssuedInSequence(w1, ops[1..], clearKey, hooks, t, IssuedAfter(e, t, n));
      var events := ObjectRun(w, ops, clearKey, hooks).value.1;
      assert events[0] == e && events[1..] == ObjectRun(w1, ops[1..], clearKey, hooks).value.1;
    }
  }

  /**
   What is reported, by the ledger: an overlap exactly if the issued object is still outstanding,
   a deletion of something never created exactly if it is not outstanding, and a wrong type
   exactly if the upper half of the ID is not 0x4000 plus the type.
   */
  lemma ReportsExactly(w: World, op: ObjectOp, clearKey: Key, hooks: Hooks, ledger: Ledger)
    requires WorldGood(w) && (op.Delete? ==> op.objType < OBJTYPE_MAX) && LedgerMatches(w.objects, ledger)
    requires ObjectStep(w, op, clearKey, hooks).Some?
    ensures var e := ObjectStep(w, op, clearKey, hooks).value.1;
      var l := if e.cleared then multiset{} else ledger;
      match op
      case Alloc(t) => e.action.Issued? && e.action.objType == t && (e.action.overlap <==> l[(t, e.action.index)] == 1)
      case Delete(t, id) =>
        && e.action.Retired? && e.action.objType == t && e.action.index == IndexOf(id)
        && (e.action.wasLive <==> l[(t, e.action.index)] == 1)
        && (e.action.typeOk <==> TypeOf(id) == t)
      case Stub(_) => e == ObjectEvent(false, StubAction)
  {
    hide Prepare, Step, HasBit, Inv, TypeGood, Issue, Retire, IndexOf, TypeOf;
    if !op.Stub? {
      PrepareMatches(w, clearKey, ledger);
      var w1 := Prepare(w, clearKey).value.0;
      assert IsLive(w1.objects, op.objType, ObjectStep(w, op, clearKey, hooks).value.1.action.index)
        == HasBit(w1.objects[op.objType].validBits, ObjectStep(w, op, clearKey, hooks).value.1.action.index);
    }
  }

  /** An issued ID, given back under its own type, names its own object and type. */
  lemma GivenBack(w: World, n: nat, t: nat, clearKey: Key, hooks: Hooks)
    requires WorldGood(w) && n < 128 && t < OBJTYPE_MAX && ObjectStep(w, Delete(t, MakeId(n, t)), clearKey, hooks).Some?
    ensures var e := ObjectStep(w, Delete(t, MakeId(n, t)), clearKey, hooks).value.1;
      e.action.Retired? && e.action.objType == t && e.action.index == n && e.action.typeOk
  {
    hide Prepare, HasBit, Inv, TypeGood, Retire, IndexOf, TypeOf, MakeId;
    IdParts(n, t);
  }

  /** An allocation aborts exactly for a bad type or if the marker of the clearing function finds no slot. */
  lemma AllocAborts(w: World, t: nat, clearKey: Key)
    requires WorldGood(w) && clearKey != 0
    ensures AllocStep(w, t, clearKey).None? <==>
      t == 0 || t >= 13 || (!HasMarker(w, clearKey) && !HasFree(w.stubs.slots))
  {
    hide View, HasFree, Issue, HasBit, NextIssue, ProbeFrom, TypeGood;
    FindIsHead(w.stubs.slots, clearKey, CallOnce);
    LowestFree(w.stubs.slots);
  }

  /** A deletion aborts exactly if that marker finds no slot, and is not modelled further for an index of 128 or more. */
  lemma DeleteAborts(w: World, t: nat, id: bv32, clearKey: Key)
    requires WorldGood(w) && clearKey != 0 && t < OBJTYPE_MAX
    ensures DeleteStep(w, t, id, clearKey).None? <==>
      IndexOf(id) >= 128 || (!HasMarker(w, clearKey) && !HasFree(w.stubs.slots))
  {
    hide View, HasFree, Retire, HasBit, ProbeFrom, TypeGood, IndexOf, TypeOf;
    FindIsHead(w.stubs.slots, clearKey, CallOnce);
    LowestFree(w.stubs.slots);
  }

  // ---- The allocator itself ----

  class ObjectStubs {
    const table: StubTable.StubTable
    const clearKey: Key
    var objState: array<TypeState>

    ghost predicate Valid()
      reads this, table, table.slots, objState
    {
      && table.Valid()
      && objState.Length == OBJTYPE_MAX
      && ObjectsGood(objState[..])
    }

    ghost function Contents(): (w: World)
      reads this, table, table.slots, objState
      requires Valid()
      ensures WorldGood(w)
    {
      World(State(table.Contents(), table.memory), objState[..])
    }

    constructor (table: StubTable.StubTable, clearKey: Key)
      requires table.Valid()
      ensures Valid() && this.table == table && this.clearKey == clearKey && fresh(objState)
      ensures objState[..] == Nothing()
    {
      this.table := table;
      this.clearKey := clearKey;
      objState := new TypeState[OBJTYPE_MAX](i => NO_OBJECTS);
      new;
      assert objState[..] == Nothing();
    }

    /** `UT_Stub_CallOnce(UT_ClearAllStubObjects)` */
    method PrepareObjects() returns (ok: bool, cleared: bool)
      requires Valid()
      modifies table, table.slots, objState
      ensures Valid() && table.slots == old(table.slots)
      ensures var spec := Prepare(old(Contents()), clearKey);
        ok == spec.Some? && (ok ==> (Contents(), cleared) == spec.value)
    {
      hide MarkOnce, ObjectsGood;
      var run, aborted := table.CallOnce(clearKey);
      ok, cleared := !aborted, run;
      if run {
        var i := 0;
        while i < OBJTYPE_MAX
          modifies objState
          invariant 0 <= i <= OBJTYPE_MAX
          invariant forall j | 0 <= j < i :: objState[j] == NO_OBJECTS
        {
          objState[i] := NO_OBJECTS;
          i := i + 1;
        }
        assert objState[..] == Nothing();
      }
    }

    method AllocStubObjId(objType: nat) returns (r: Option<(bv32, bool)>)
      requires Valid()
      modifies table, table.slots, objState
      ensures Valid() && table.slots == old(table.slots)
      ensures var spec := AllocStep(old(Contents()), objType, clearKey);
        && r.Some? == spec.Some?
        && (r.Some? ==>
              && Contents() == spec.value.0
              && r.value.1 == spec.value.1.action.overlap
              && objType < 16 && r.value.0 == MakeId(spec.value.1.action.index, objType)
              && TypeOf(r.value.0) == objType
              && IndexOf(r.value.0) == spec.value.1.action.index)
    {
      hide Prepare, Issue, HasBit, Inv, TypeGood, NextIssue, TypeOf, IndexOf;
      var ok, cleared := PrepareObjects();
      if !ok || objType == OBJTYPE_NONE || objType >= OBJTYPE_MAX {
        return None;
      }
      ghost var o: Objects := objState[..];
      var ts := objState[objType];
      var n := NextIssue(ts);
      var overlap := HasBit(ts.validBits, n);
      objState[objType] := Issue(ts);
      assert objState[..] == o[objType := Issue(ts)];
      IdParts(n, objType);
      r := Some((MakeId(n, objType), overlap));
    }

    /** The reports are: wrong type in the ID, and an object that was not live. `None`: aborted or index out of range. */
    method DeleteStubObjId(objType: nat, objId: bv32) returns (r: Option<(bool, bool)>)
      requires Valid() && objType < OBJTYPE_MAX
      modifies table, table.slots, objState
      ensures Valid() && table.slots == old(table.slots)
      ensures var spec := DeleteStep(old(Contents()), objType, objId, clearKey);
        && r.Some? == spec.Some?
        && (r.Some? ==>
              && Contents() == spec.value.0
              && r.value == (!spec.value.1.action.typeOk, !spec.value.1.action.wasLive))
    {
      hide Prepare, Retire, HasBit, Inv, TypeGood, TypeOf, IndexOf;
      var ok, cleared := PrepareObjects();
      var wrongType := TypeOf(objId) != objType;
      var i := IndexOf(objId);
      if !ok || i >= MAX_IDS {
        return None;
      }
      ghost var o: Objects := objState[..];
      var ts := objState[objType];
      var wasLive := HasBit(ts.validBits, i);
      objState[objType] := Retire(ts, i);
      assert objState[..] == o[objType := Retire(ts, i)];
      r := Some((wrongType, !wasLive));
    }

    /** Reports every queue that is still live, once each and in ascending order. */
    method CheckForOpenSockets() returns (open: seq<nat>)
      requires Valid()
      ensures forall i: nat :: i in open <==> i < MAX_IDS && IsLive(objState[..], 2, i)
      ensures forall a, b | 0 <= a < b < |open| :: open[a] < open[b]
    {
      open := [];
      var ts := objState[OBJTYPE_QUEUE];
      var i := 0;
      while i <= ts.lastIssueNumber
        invariant 0 <= i <= ts.lastIssueNumber + 1
        invariant forall k: nat :: k in open <==> k < i && HasBit(ts.validBits, k)
        invariant forall a | 0 <= a < |open| :: open[a] < i
        invariant forall a, b | 0 <= a < b < |open| :: open[a] < open[b]
      {
        if HasBit(ts.validBits, i) {
          open := open + [i];
        }
        i := i + 1;
      }
    }
  }
}
