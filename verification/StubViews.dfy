/**
 How the writes of `StubSpec` change views: an operation on one key and kind edits that one
 view and leaves every other view as it was.
 */
module StubViews {
  import opened Basics
  import opened StubEntries
  import opened StubSpec

  lemma DropEmptyMiddle<T>(a: seq<T>, b: seq<T>, c: seq<T>)
    requires b == []
    ensures a + b + c == a + c
  {
  }

  /** Claiming or rewriting the slot of a unique kind makes the new entry the head of its view. */
  lemma UpsertView(t: Table, key: Key, kind: Kind, i: nat, e: Entry)
    requires Good(t) && UniqueKind(kind) && SlotFor(t, key, kind) == Some(i) && Matches(e, key, kind)
    ensures i < MAX_FUNC_STUBS
    ensures View(t[i := e], key, kind)
         == [e] + if View(t, key, kind) == [] then [] else View(t, key, kind)[1..]
  {
    hide View, ViewRange;
    FindIsHead(t, key, kind);
    if Find(t, key, kind).Some? {
      HeadUpdate(t, key, kind, i, e);
    } else {
      ViewUpdate(t, key, kind, i, e);
      var b, a := Before(t, key, kind, i), After(t, key, kind, i);
      assert t[i].kind.Unused?;
      DropEmptyMiddle(b, One(t[i], key, kind), a);
      assert b == [] && a == [];
      DropEmptyFront(b, [e], a);
    }
  }

  /** A new entry goes between the entries nearer and the entries farther than the free slot. */
  lemma InsertView(t: Table, e: Entry, i: nat)
    requires Good(t) && !e.kind.Unused? && FindFree(t, e.key) == Some(i)
    ensures i < MAX_FUNC_STUBS && t[i].kind.Unused?
    ensures View(t, e.key, e.kind) == Before(t, e.key, e.kind, i) + After(t, e.key, e.kind, i)
    ensures View(t[i := e], e.key, e.kind) == Before(t, e.key, e.kind, i) + [e] + After(t, e.key, e.kind, i)
  {
    hide View, ViewRange;
    ViewUpdate(t, e.key, e.kind, i, e);
    DropEmptyMiddle(Before(t, e.key, e.kind, i), One(t[i], e.key, e.kind), After(t, e.key, e.kind, i));
  }

  /** A claimed slot held either nothing or the entry it is claimed for. */
  lemma UpsertFrame(t: Table, own: Key, ownKind: Kind, i: nat, e: Entry, key: Key, kind: Kind)
    requires Good(t) && UniqueKind(ownKind) && SlotFor(t, own, ownKind) == Some(i) && Matches(e, own, ownKind)
    requires !kind.Unused? && !(key == own && kind == ownKind)
    ensures i < MAX_FUNC_STUBS
    ensures View(t[i := e], key, kind) == View(t, key, kind)
  {
    hide View, ViewRange;
    SlotForIsAlone(t, own, ownKind);
    ViewFrame(t, key, kind, i, e);
  }

  lemma InsertFrame(t: Table, e: Entry, key: Key, kind: Kind)
    requires Good(t) && WellFormed(e) && !UniqueKind(e.kind) && Insert(t, e).Some?
    requires !kind.Unused? && !Matches(e, key, kind)
    ensures View(Insert(t, e).value, key, kind) == View(t, key, kind)
  {
    hide View, ViewRange;
    ViewFrame(t, key, kind, FindFree(t, e.key).value, e);
  }

  /** Rewriting or clearing an entry that a search found. */
  lemma FoundFrame(t: Table, own: Key, ownKind: Kind, i: nat, e: Entry, key: Key, kind: Kind)
    requires Find(t, own, ownKind) == Some(i) && (e == ZERO_ENTRY || Matches(e, own, ownKind))
    requires !kind.Unused? && !(key == own && kind == ownKind)
    ensures i < MAX_FUNC_STUBS
    ensures View(t[i := e], key, kind) == View(t, key, kind)
  {
    hide View, ViewRange;
    ViewFrame(t, key, kind, i, e);
  }

  lemma ClearOneFrame(t: Table, own: Key, ownKind: Kind, key: Key, kind: Kind)
    requires Good(t) && !kind.Unused? && !(key == own && kind == ownKind)
    ensures View(ClearOne(t, own, ownKind), key, kind) == View(t, key, kind)
  {
    hide View, ViewRange;
    var found := Find(t, own, ownKind);
    if found.Some? {
      FoundFrame(t, own, ownKind, found.value, ZERO_ENTRY, key, kind);
    }
  }

  lemma ClearOneView(t: Table, key: Key, kind: Kind)
    requires Good(t) && !kind.Unused?
    ensures View(ClearOne(t, key, kind), key, kind)
         == if View(t, key, kind) == [] then [] else View(t, key, kind)[1..]
  {
    hide View, ViewRange;
    FindIsHead(t, key, kind);
    var found := Find(t, key, kind);
    if found.Some? {
      HeadUpdate(t, key, kind, found.value, ZERO_ENTRY);
    }
  }

  lemma ResetView(t: Table, own: Key, key: Key, kind: Kind)
    requires !kind.Unused?
    ensures View(Reset(t, own), key, kind) == if own == 0 || own == key then [] else View(t, key, kind)
  {
    var h := Home(key);
    if own == 0 || own == key {
      ViewRangeEmpty(Reset(t, own), h, key, kind, 0, |t|);
    } else {
      ViewRangeCongruent(t, Reset(t, own), h, key, kind, 0, |t|);
    }
  }

  lemma ClearDeferredView(t: Table, own: Key, key: Key, kind: Kind)
    requires !kind.Unused?
    ensures View(ClearDeferred(t, own), key, kind)
         == if own == key && kind.DeferredRc? then [] else View(t, key, kind)
  {
    var h := Home(key);
    if own == key && kind.DeferredRc? {
      ViewRangeEmpty(ClearDeferred(t, own), h, key, kind, 0, |t|);
    } else {
      ViewRangeCongruent(t, ClearDeferred(t, own), h, key, kind, 0, |t|);
    }
  }

  // ---- Stub calls ----

  lemma CheckDeferredFrame(t: Table, own: Key, key: Key, kind: Kind)
    requires Good(t) && !kind.Unused? && !(key == own && kind.DeferredRc?)
    ensures View(CheckDeferred(t, own).0, key, kind) == View(t, key, kind)
  {
    hide View, ViewRange;
    var found := Find(t, own, DeferredRc);
    if found.Some? {
      var Rc(count, rc) := t[found.value].data;
      FoundFrame(t, own, DeferredRc, found.value,
                 if count == 1 then ZERO_ENTRY else DeferredEntry(own, count - 1, rc), key, kind);
    }
  }

  lemma CheckForceFailFrame(t: Table, own: Key, key: Key, kind: Kind)
    requires Good(t) && !kind.Unused? && !(key == own && kind.ForceFail?)
    ensures View(CheckForceFail(t, own).0, key, kind) == View(t, key, kind)
  {
    hide View, ViewRange;
    var found := Find(t, own, ForceFail);
    if found.Some? {
      var Rc(count, rc) := t[found.value].data;
      FoundFrame(t, own, ForceFail, found.value,
                 Entry(ForceFail, own, false, Rc(NextCount(count), rc)), key, kind);
    }
  }

  lemma SelectCodeFrame(t: Table, own: Key, defaultRc: int, key: Key, kind: Kind)
    requires Good(t) && !kind.Unused? && !(key == own && (kind.DeferredRc? || kind.ForceFail?))
    ensures View(SelectCode(t, own, defaultRc).0, key, kind) == View(t, key, kind)
  {
    hide View, ViewRange;
    CheckDeferredFrame(t, own, key, kind);
    CheckForceFailFrame(CheckDeferred(t, own).0, own, key, kind);
  }

  lemma CountCallFrame(t: Table, own: Key, rc: int, key: Key, kind: Kind)
    requires Good(t) && !kind.Unused? && !(key == own && kind.Counter?) && CountCall(t, own, rc).Some?
    ensures View(CountCall(t, own, rc).value.0, key, kind) == View(t, key, kind)
  {
    hide View, ViewRange;
    var i := SlotFor(t, own, Counter).value;
    SlotForIsAlone(t, own, Counter);
    var e := Entry(Counter, own, false, Rc(NextCount(CountIn(t[i].data)), rc));
    UpsertFrame(t, own, Counter, i, e, key, kind);
  }

  /** A stub call touches only its own deferred, forced, counter and context entries. */
  lemma CallFrame(t: Table, own: Key, defaultRc: int, hooks: Hooks, key: Key, kind: Kind)
    requires Good(t) && !kind.Unused? && Call(t, own, defaultRc, hooks).Some?
    requires key == own ==> kind.DataBuffer? || kind.CallbackHook? || kind.CallOnce?
    ensures View(Call(t, own, defaultRc, hooks).value.0, key, kind) == View(t, key, kind)
  {
    hide View, ViewRange;
    var (t1, rc) := SelectCode(t, own, defaultRc);
    SelectCodeFrame(t, own, defaultRc, key, kind);
    CountCallFrame(t1, own, rc, key, kind);
    ClearOneFrame(CountCall(t1, own, rc).value.0, own, CallbackContext, key, kind);
  }

  /** The deferred and forced views after a call are those after its code was selected. */
  lemma CallCodeViews(t: Table, key: Key, defaultRc: int, hooks: Hooks, kind: Kind)
    requires Good(t) && Call(t, key, defaultRc, hooks).Some? && (kind.DeferredRc? || kind.ForceFail?)
    ensures View(Call(t, key, defaultRc, hooks).value.0, key, kind)
         == View(SelectCode(t, key, defaultRc).0, key, kind)
  {
    hide View, ViewRange;
    var (t1, rc) := SelectCode(t, key, defaultRc);
    CountCallFrame(t1, key, rc, key, kind);
    ClearOneFrame(CountCall(t1, key, rc).value.0, key, CallbackContext, key, kind);
  }
}
