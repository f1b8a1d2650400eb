/**
 The data model of the unit-test stub table (osal/ut_assert/src/utstubs.c): one slot of
 the table, the probe order of a key, and the *view* of a table, that is, the live entries
 of one key and kind listed in the order in which a search meets them.
 */
module StubEntries {
  import opened Basics

  /** A stub key is the address of the stubbed function, an unsigned integer. */
  type Key = nat

  const MAX_FUNC_STUBS: nat := 200
  const CONTEXT_MAX_SIZE: nat := 4

  datatype Kind =
    | Unused
    | Counter
    | ForceFail
    | DeferredRc
    | DataBuffer
    | CallbackHook
    | CallbackContext
    | CallOnce

  /** Where a data buffer's bytes live: in a private copy, or in a block of the test's memory. */
  datatype Base = Copied(bytes: seq<Byte>) | Direct(block: nat)

  /** The test's own memory: blocks that may be registered without copying. */
  type Memory = map<nat, seq<Byte>>

  /** A user callback: function address, user argument, and whether it takes a va_list. */
  datatype Callback = Callback(address: nat, userObj: int, isVarg: bool)

  /** What every callback computes: its return code from (callback, stub code, call count, context). */
  type Hooks = (Callback, int, nat, Option<seq<int>>) -> int

  /** The union part of a slot; `Zeroed` is the all-zero bit pattern. */
  datatype Data =
    | Zeroed
    | Rc(count: nat, rc: int)
    | Buff(position: nat, totalSize: nat, base: Base)
    | Cb(callback: Callback)
    | Context(args: seq<int>)

  datatype Entry = Entry(kind: Kind, key: Key, allocBuf: bool, data: Data)

  const ZERO_ENTRY := Entry(Unused, 0, false, Zeroed)

  type Table = t: seq<Entry> | |t| == MAX_FUNC_STUBS
    witness seq(MAX_FUNC_STUBS, i => ZERO_ENTRY)

  predicate Matches(e: Entry, key: Key, kind: Kind) {
    e.kind == kind && e.key == key
  }

  // ---- Probe order ----

  /** The slot where the search for a key starts. */
  function Home(key: Key): (h: nat)
    ensures h < MAX_FUNC_STUBS - 1
  {
    key % (MAX_FUNC_STUBS - 1)
  }

  /** The slot visited after `d` steps of a search that starts at `home`, with wrap-around. */
  function SlotAt(home: nat, d: nat): (i: nat)
    requires home < MAX_FUNC_STUBS && d < MAX_FUNC_STUBS
    ensures i < MAX_FUNC_STUBS && Distance(home, i) == d
  {
    if home + d < MAX_FUNC_STUBS then home + d else home + d - MAX_FUNC_STUBS
  }

  /** How many steps a search that starts at `home` takes to reach slot `i`. */
  function Distance(home: nat, i: nat): (d: nat)
    requires home < MAX_FUNC_STUBS && i < MAX_FUNC_STUBS
    ensures d < MAX_FUNC_STUBS
  {
    if home <= i then i - home else i + MAX_FUNC_STUBS - home
  }

  /** A search starts at the key's remainder modulo 199 and visits all 200 slots upwards, with 0 after 199. */
  lemma ProbeOrder(key: Key, d: nat)
    requires d < 199
    ensures SlotAt(Home(key), 0) == key % 199
    ensures SlotAt(Home(key), d + 1) == if SlotAt(Home(key), d) == 199 then 0 else SlotAt(Home(key), d) + 1
  {
  }

  /** The first slot at distance `d` or more from `home` that holds (key, kind). */
  function ProbeFrom(t: Table, home: nat, key: Key, kind: Kind, d: nat): (r: Option<nat>)
    requires home < MAX_FUNC_STUBS && d <= MAX_FUNC_STUBS
    ensures r.Some? ==> r.value < MAX_FUNC_STUBS && Matches(t[r.value], key, kind)
    decreases |t| - d
  {
    if d == |t| then None
    else if Matches(t[SlotAt(home, d)], key, kind) then Some(SlotAt(home, d))
    else ProbeFrom(t, home, key, kind, d + 1)
  }

  /** The unbounded search: every slot of the table, in the probe order of `key`. */
  function Find(t: Table, key: Key, kind: Kind): (r: Option<nat>) {
    ProbeFrom(t, Home(key), key, kind, 0)
  }

  /** The first free slot in the probe order of `key`. */
  function FindFree(t: Table, key: Key): (r: Option<nat>) {
    ProbeFrom(t, Home(key), 0, Unused, 0)
  }

  /** `r` is the nearest slot from `home` that holds (key, kind), or nothing holds it. */
  ghost predicate IsNearest(t: Table, home: nat, key: Key, kind: Kind, r: Option<nat>)
    requires home < MAX_FUNC_STUBS
  {
    match r
    case None => forall i | 0 <= i < MAX_FUNC_STUBS :: !Matches(t[i], key, kind)
    case Some(i) =>
      && i < MAX_FUNC_STUBS
      && Matches(t[i], key, kind)
      && forall j | 0 <= j < MAX_FUNC_STUBS && Distance(home, j) < Distance(home, i) ::
           !Matches(t[j], key, kind)
  }

  lemma {:induction false} ProbeFromIsNearest(t: Table, home: nat, key: Key, kind: Kind, d: nat)
    requires home < MAX_FUNC_STUBS && d <= MAX_FUNC_STUBS
    requires forall j | 0 <= j < MAX_FUNC_STUBS && Distance(home, j) < d :: !Matches(t[j], key, kind)
    ensures IsNearest(t, home, key, kind, ProbeFrom(t, home, key, kind, d))
    decreases |t| - d
  {
    if d < MAX_FUNC_STUBS && !Matches(t[SlotAt(home, d)], key, kind) {
      forall j | 0 <= j < MAX_FUNC_STUBS && Distance(home, j) < d + 1
        ensures !Matches(t[j], key, kind)
      {
        if Distance(home, j) == d {
          assert j == SlotAt(home, d);
        }
      }
      ProbeFromIsNearest(t, home, key, kind, d + 1);
    }
  }

  /** The recursive search returns the nearest match and nothing else is a nearest match. */
  lemma ProbeIsNearest(t: Table, home: nat, key: Key, kind: Kind, r: Option<nat>)
    requires home < MAX_FUNC_STUBS
    ensures IsNearest(t, home, key, kind, r) <==> r == ProbeFrom(t, home, key, kind, 0)
  {
    ProbeFromIsNearest(t, home, key, kind, 0);
    var p := ProbeFrom(t, home, key, kind, 0);
    if IsNearest(t, home, key, kind, r) && r.Some? && p.Some? {
      assert Distance(home, r.value) == Distance(home, p.value);
    }
  }

  // ---- Views ----

  lemma DropEmptyFront<T>(a: seq<T>, b: seq<T>, c: seq<T>)
    requires a == []
    ensures a + b + c == b + c
  {
  }

  function One(e: Entry, key: Key, kind: Kind): seq<Entry> {
    if Matches(e, key, kind) then [e] else []
  }

  /** The entries of (key, kind) at distances lo..hi from `home`, nearest first. */
  function ViewRange(t: Table, home: nat, key: Key, kind: Kind, lo: nat, hi: nat): seq<Entry>
    requires home < MAX_FUNC_STUBS && lo <= hi <= MAX_FUNC_STUBS
    decreases hi - lo
  {
    if lo == hi then []
    else One(t[SlotAt(home, lo)], key, kind) + ViewRange(t, home, key, kind, lo + 1, hi)
  }

  /** All live entries of (key, kind), in the order in which searches for `key` meet them. */
  function View(t: Table, key: Key, kind: Kind): seq<Entry> {
    ViewRange(t, Home(key), key, kind, 0, |t|)
  }

  lemma {:induction false} ViewRangeSplit(t: Table, home: nat, key: Key, kind: Kind, lo: nat, mid: nat, hi: nat)
    requires home < MAX_FUNC_STUBS && lo <= mid <= hi <= MAX_FUNC_STUBS
    ensures ViewRange(t, home, key, kind, lo, hi)
         == ViewRange(t, home, key, kind, lo, mid) + ViewRange(t, home, key, kind, mid, hi)
    decreases mid - lo
  {
    if lo < mid {
      ViewRangeSplit(t, home, key, kind, lo + 1, mid, hi);
      Assoc(One(t[SlotAt(home, lo)], key, kind),
            ViewRange(t, home, key, kind, lo + 1, mid), ViewRange(t, home, key, kind, mid, hi));
    }
  }

  /** Two tables that agree on what matches (key, kind) have the same view of it. */
  lemma {:induction false} ViewRangeCongruent(t: Table, u: Table, home: nat, key: Key, kind: Kind, lo: nat, hi: nat)
    requires home < MAX_FUNC_STUBS && lo <= hi <= MAX_FUNC_STUBS
    requires forall i | 0 <= i < MAX_FUNC_STUBS && lo <= Distance(home, i) < hi ::
               One(t[i], key, kind) == One(u[i], key, kind)
    ensures ViewRange(t, home, key, kind, lo, hi) == ViewRange(u, home, key, kind, lo, hi)
    decreases hi - lo
  {
    if lo < hi {
      assert One(t[SlotAt(home, lo)], key, kind) == One(u[SlotAt(home, lo)], key, kind);
      ViewRangeCongruent(t, u, home, key, kind, lo + 1, hi);
    }
  }

  /** A range that holds no match has an empty view; a range with a match does not. */
  lemma {:induction false} ViewRangeEmpty(t: Table, home: nat, key: Key, kind: Kind, lo: nat, hi: nat)
    requires home < MAX_FUNC_STUBS && lo <= hi <= MAX_FUNC_STUBS
    ensures ViewRange(t, home, key, kind, lo, hi) == []
       <==> forall i | 0 <= i < MAX_FUNC_STUBS && lo <= Distance(home, i) < hi :: !Matches(t[i], key, kind)
    decreases hi - lo
  {
    hide SlotAt, Distance, Matches;
    if lo < hi {
      ViewRangeEmpty(t, home, key, kind, lo + 1, hi);
      OnlySlotAt(home, lo);
      assert |One(t[SlotAt(home, lo)], key, kind)| > 0 <==> Matches(t[SlotAt(home, lo)], key, kind);
    }
  }

  lemma OnlySlotAt(home: nat, d: nat)
    requires home < MAX_FUNC_STUBS && d < MAX_FUNC_STUBS
    ensures forall i | 0 <= i < MAX_FUNC_STUBS && Distance(home, i) == d :: i == SlotAt(home, d)
  {
  }

  /** The part of a view nearer than slot `i`, and the part farther away. */
  function Before(t: Table, key: Key, kind: Kind, i: nat): seq<Entry>
    requires i < MAX_FUNC_STUBS
  {
    ViewRange(t, Home(key), key, kind, 0, Distance(Home(key), i))
  }

  function After(t: Table, key: Key, kind: Kind, i: nat): seq<Entry>
    requires i < MAX_FUNC_STUBS
  {
    ViewRange(t, Home(key), key, kind, Distance(Home(key), i) + 1, |t|)
  }

  lemma ViewRangeHead(t: Table, home: nat, key: Key, kind: Kind, lo: nat, hi: nat)
    requires home < MAX_FUNC_STUBS && lo < hi <= MAX_FUNC_STUBS
    ensures ViewRange(t, home, key, kind, lo, hi)
         == One(t[SlotAt(home, lo)], key, kind) + ViewRange(t, home, key, kind, lo + 1, hi)
  {
  }

  lemma ViewAround(t: Table, key: Key, kind: Kind, i: nat)
    requires i < MAX_FUNC_STUBS
    ensures View(t, key, kind) == Before(t, key, kind, i) + One(t[i], key, kind) + After(t, key, kind, i)
  {
    hide ViewRange;
    var h := Home(key);
    var d := Distance(h, i);
    ViewRangeSplit(t, h, key, kind, 0, d, |t|);
    ViewRangeHead(t, h, key, kind, d, |t|);
    assert SlotAt(h, d) == i;
    Assoc(Before(t, key, kind, i), One(t[i], key, kind), After(t, key, kind, i));
  }

  /** Writing one slot replaces that slot's contribution to every view and changes nothing else. */
  lemma ViewUpdate(t: Table, key: Key, kind: Kind, i: nat, e: Entry)
    requires i < MAX_FUNC_STUBS
    ensures View(t, key, kind) == Before(t, key, kind, i) + One(t[i], key, kind) + After(t, key, kind, i)
    ensures View(t[i := e], key, kind) == Before(t, key, kind, i) + One(e, key, kind) + After(t, key, kind, i)
  {
    hide ViewRange;
    var h := Home(key);
    var d := Distance(h, i);
    var u: Table := t[i := e];
    ViewAround(t, key, kind, i);
    ViewAround(u, key, kind, i);
    ViewRangeCongruent(t, u, h, key, kind, 0, d);
    ViewRangeCongruent(t, u, h, key, kind, d + 1, |t|);
  }

  /** A slot that matches neither before nor after a write does not affect the view. */
  lemma ViewFrame(t: Table, key: Key, kind: Kind, i: nat, e: Entry)
    requires i < MAX_FUNC_STUBS
    requires One(t[i], key, kind) == One(e, key, kind)
    ensures View(t[i := e], key, kind) == View(t, key, kind)
  {
    hide ViewRange;
    ViewUpdate(t, key, kind, i, e);
  }

  /** Searching a key finds the head of its view. */
  lemma FindIsHead(t: Table, key: Key, kind: Kind)
    ensures Find(t, key, kind).None? <==> View(t, key, kind) == []
    ensures Find(t, key, kind).Some? ==>
      var i := Find(t, key, kind).value;
      Before(t, key, kind, i) == [] && View(t, key, kind) == [t[i]] + After(t, key, kind, i)
  {
    hide ViewRange;
    var h := Home(key);
    ProbeIsNearest(t, h, key, kind, Find(t, key, kind));
    ViewRangeEmpty(t, h, key, kind, 0, |t|);
    if Find(t, key, kind).Some? {
      var i := Find(t, key, kind).value;
      ViewRangeEmpty(t, h, key, kind, 0, Distance(h, i));
      ViewAround(t, key, kind, i);
      DropEmptyFront(Before(t, key, kind, i), [t[i]], After(t, key, kind, i));
    }
  }

  lemma HeadUpdateAt(t: Table, key: Key, kind: Kind, i: nat, e: Entry)
    requires i < MAX_FUNC_STUBS && Matches(t[i], key, kind) && Before(t, key, kind, i) == []
    ensures View(t, key, kind) == [t[i]] + After(t, key, kind, i)
    ensures View(t[i := e], key, kind) == One(e, key, kind) + After(t, key, kind, i)
  {
    hide ViewRange;
    ViewUpdate(t, key, kind, i, e);
    DropEmptyFront(Before(t, key, kind, i), One(t[i], key, kind), After(t, key, kind, i));
    DropEmptyFront(Before(t, key, kind, i), One(e, key, kind), After(t, key, kind, i));
  }

  /** Writing the slot that a search found replaces the head of that view. */
  lemma HeadUpdate(t: Table, key: Key, kind: Kind, i: nat, e: Entry)
    requires Find(t, key, kind) == Some(i)
    ensures i < MAX_FUNC_STUBS && Matches(t[i], key, kind)
    ensures View(t, key, kind) != [] && View(t, key, kind)[0] == t[i]
    ensures View(t[i := e], key, kind) == One(e, key, kind) + View(t, key, kind)[1..]
  {
    hide ViewRange;
    FindIsHead(t, key, kind);
    HeadUpdateAt(t, key, kind, i, e);
    var v, a := View(t, key, kind), After(t, key, kind, i);
    assert v == [t[i]] + a;
    assert v[1..] == a;
  }
}
