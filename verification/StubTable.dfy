/**
 The stub table as the program keeps it (osal/ut_assert/src/utstubs.c): an array of slots
 and the running bound that cuts every search short. Each method is proved to do exactly
 what `StubSpec` says with an unbounded search, so the bound is never observable.
 */
module StubTable {
  import opened Basics
  import opened StubEntries
  import opened StubSpec

  /** Every entry that searches look for lies within `bound` steps of its key's home slot. */
  ghost predicate WithinBound(t: Table, bound: nat) {
    forall i | 0 <= i < MAX_FUNC_STUBS && !t[i].kind.Unused? && !t[i].kind.CallOnce? ::
      Distance(Home(t[i].key), i) < bound
  }

  /** Some, perhaps not all, of the deferred codes of `key` were cleared on the way from `t0` to `t`. */
  ghost predicate PartlyCleared(t0: Table, t: Table, key: Key) {
    forall i | 0 <= i < MAX_FUNC_STUBS :: t[i] == t0[i] || t[i] == WithoutDeferred(t0[i], key)
  }

  /** Clearing the nearest deferred code makes progress; when there is none, all are cleared. */
  lemma ClearingStep(t0: Table, t: Table, key: Key)
    requires PartlyCleared(t0, t, key)
    ensures var found := Find(t, key, DeferredRc);
      if found.None? then t == ClearDeferred(t0, key)
      else
        && PartlyCleared(t0, t[found.value := ZERO_ENTRY], key)
        && |View(t[found.value := ZERO_ENTRY], key, DeferredRc)| < |View(t, key, DeferredRc)|
  {
    var found := Find(t, key, DeferredRc);
    if found.None? {
      ProbeIsNearest(t, Home(key), key, DeferredRc, None);
    } else {
      HeadUpdate(t, key, DeferredRc, found.value, ZERO_ENTRY);
    }
  }

  /** A search result that lies within a bound, else nothing. */
  ghost function NearerThan(found: Option<nat>, home: nat, bound: nat): Option<nat>
    requires home < MAX_FUNC_STUBS && (found.Some? ==> found.value < MAX_FUNC_STUBS)
  {
    if found.Some? && Distance(home, found.value) < bound then found else None
  }

  /** Stopping at the first match, or at the bound, gives the full search's result if it is within the bound. */
  lemma BoundedSearch(t: Table, home: nat, key: Key, kind: Kind, bound: nat, r: Option<nat>)
    requires home < MAX_FUNC_STUBS
    requires match r
      case None => forall j | 0 <= j < MAX_FUNC_STUBS && Distance(home, j) < bound :: !Matches(t[j], key, kind)
      case Some(i) => IsNearest(t, home, key, kind, r) && Distance(home, i) < bound
    ensures r == NearerThan(ProbeFrom(t, home, key, kind, 0), home, bound)
  {
    hide ProbeFrom, Distance;
    ProbeIsNearest(t, home, key, kind, r);
    ProbeIsNearest(t, home, key, kind, ProbeFrom(t, home, key, kind, 0));
  }

  lemma WiderBound(t: Table, bound: nat, wider: nat)
    requires WithinBound(t, bound) && bound <= wider
    ensures WithinBound(t, wider)
  {
    hide Distance;
  }

  /** What a search looks for lies within the bound, wherever slots were freed. */
  lemma FoundWithinBound(t: Table, key: Key, kind: Kind, bound: nat)
    requires WithinBound(t, bound) && !kind.Unused? && !kind.CallOnce?
    ensures NearerThan(Find(t, key, kind), Home(key), bound) == Find(t, key, kind)
  {
    hide ProbeFrom;
  }

  class StubTable {
    var slots: array<Entry>
    var maxSearchLen: nat
    var memory: Memory

    ghost predicate Valid()
      reads this, slots
    {
      && slots.Length == MAX_FUNC_STUBS
      && maxSearchLen <= MAX_FUNC_STUBS
      && Good(slots[..])
      && MemoryHolds(slots[..], memory)
      && WithinBound(slots[..], maxSearchLen)
    }

    ghost function Contents(): (t: Table)
      reads this, slots
      requires slots.Length == MAX_FUNC_STUBS
    {
      slots[..]
    }

    constructor (memory: Memory)
      ensures Valid() && fresh(slots)
      ensures Contents() == EmptyTable() && this.memory == memory
    {
      slots := new Entry[MAX_FUNC_STUBS](i => ZERO_ENTRY);
      maxSearchLen := 0;
      this.memory := memory;
    }

    /** The bounded, hashed search returns what a search of all slots in probe order returns. */
    method GetStubEntry(funcKey: Key, testMode: Kind) returns (r: Option<nat>)
      requires Valid()
      modifies this`maxSearchLen
      ensures Valid() && old(maxSearchLen) <= maxSearchLen
      ensures testMode.Unused? ==> r == FindFree(Contents(), funcKey)
      ensures testMode.Unused? && r.Some? ==> Distance(Home(funcKey), r.value) < maxSearchLen
      ensures !testMode.Unused? && !testMode.CallOnce? ==> r == Find(Contents(), funcKey, testMode)
      ensures !testMode.Unused? ==> r == NearerThan(Find(Contents(), funcKey, testMode), Home(funcKey), maxSearchLen)
      ensures !testMode.Unused? ==> maxSearchLen == old(maxSearchLen)
    {
      hide ProbeFrom, Good, MemoryHolds, WithinBound, Distance;
      var searchLimit, searchKey := maxSearchLen, funcKey;
      if testMode == Unused {
        searchLimit, searchKey := MAX_FUNC_STUBS, 0;
      }
      var searchLen;
      r, searchLen := Probe(Home(funcKey), searchKey, testMode, searchLimit);
      if !testMode.Unused? && !testMode.CallOnce? {
        FoundWithinBound(slots[..], funcKey, testMode, maxSearchLen);
      }
      if searchLen > maxSearchLen {
        WiderBound(slots[..], maxSearchLen, searchLen);
        maxSearchLen := searchLen;
      }
    }

    /** The probing loop: at most `searchLimit` slots from `home` on, with wrap-around. */
    method Probe(home: nat, searchKey: Key, testMode: Kind, searchLimit: nat) returns (r: Option<nat>, searchLen: nat)
      requires slots.Length == MAX_FUNC_STUBS && home < MAX_FUNC_STUBS && searchLimit <= MAX_FUNC_STUBS
      ensures r == NearerThan(ProbeFrom(slots[..], home, searchKey, testMode, 0), home, searchLimit)
      ensures searchLen <= searchLimit && (r.Some? ==> Distance(home, r.value) < searchLen)
    {
      hide ProbeFrom;
      var idx := home;
      searchLen := 0;
      r := None;
      while searchLen < searchLimit
        invariant 0 <= searchLen <= searchLimit && r.None?
        invariant 0 <= idx < MAX_FUNC_STUBS
        invariant searchLen < MAX_FUNC_STUBS ==> Distance(home, idx) == searchLen
        invariant forall j | 0 <= j < MAX_FUNC_STUBS && Distance(home, j) < searchLen ::
                    !Matches(slots[j], searchKey, testMode)
      {
        searchLen := searchLen + 1;
        if Matches(slots[idx], searchKey, testMode) {
          r := Some(idx);
          break;
        }
        idx := idx + 1;
        if idx >= MAX_FUNC_STUBS {
          idx := 0;
        }
      }
      BoundedSearch(slots[..], home, searchKey, testMode, searchLimit, r);
    }

    /** Stores an entry in a slot; every change to the table goes through here. */
    method Store(i: nat, e: Entry)
      requires Valid() && i < MAX_FUNC_STUBS && WellFormed(e) && EntryInMemory(e, memory)
      requires UniqueKind(e.kind) ==>
        forall j | 0 <= j < MAX_FUNC_STUBS && j != i :: !Matches(slots[j], e.key, e.kind)
      requires !e.kind.Unused? && !e.kind.CallOnce? ==> Distance(Home(e.key), i) < maxSearchLen
      modifies slots
      ensures Valid()
      ensures Contents() == old(Contents())[i := e]
    {
      GoodUpdate(slots[..], i, e);
      slots[i] := e;
      assert slots[..] == old(slots[..])[i := e];
    }

    method ResetState(funcKey: Key)
      requires Valid()
      modifies this`maxSearchLen, slots
      ensures Valid()
      ensures Contents() == Reset(old(Contents()), funcKey)
      ensures maxSearchLen == if funcKey == 0 then 0 else old(maxSearchLen)
    {
      var i := 0;
      while i < MAX_FUNC_STUBS
        invariant 0 <= i <= MAX_FUNC_STUBS && maxSearchLen == old(maxSearchLen)
        invariant forall j | 0 <= j < i :: slots[j] == ResetEntry(old(slots[j]), funcKey)
        invariant forall j | i <= j < MAX_FUNC_STUBS :: slots[j] == old(slots[j])
      {
        if funcKey == 0 || slots[i].key == funcKey {
          slots[i] := ZERO_ENTRY;
        }
        i := i + 1;
      }
      assert slots[..] == Reset(old(slots[..]), funcKey);
      if funcKey == 0 {
        maxSearchLen := 0;
      }
    }

    /** Runs nothing itself: `run` tells the caller to call the function, `aborted` that no slot was left. */
    method CallOnce(funcKey: Key) returns (run: bool, aborted: bool)
      requires Valid()
      modifies slots
      ensures Valid()
      ensures aborted <==> MarkOnce(old(Contents()), funcKey).None?
      ensures !aborted ==> MarkOnce(old(Contents()), funcKey) == Some((Contents(), run))
      ensures aborted ==> Contents() == old(Contents()) && !run
    {
      run, aborted := false, false;
      if funcKey == 0 {
        return;
      }
      var onceEnt: Option<nat> := None;
      var i := 0;
      ghost var t: Table := slots[..];
      while i < MAX_FUNC_STUBS
        invariant 0 <= i <= MAX_FUNC_STUBS && slots[..] == t
        invariant onceEnt.None? ==> forall j | 0 <= j < i :: !slots[j].kind.Unused?
        invariant onceEnt.Some? ==> onceEnt.value < i && slots[onceEnt.value].kind.Unused?
                                    && forall j | 0 <= j < onceEnt.value :: !slots[j].kind.Unused?
        invariant forall j | 0 <= j < i :: !Matches(slots[j], funcKey, Kind.CallOnce)
      {
        if slots[i].kind == Unused && onceEnt.None? {
          onceEnt := Some(i);
        } else if slots[i].kind == Kind.CallOnce && slots[i].key == funcKey {
          onceEnt := Some(i);
          break;
        }
        i := i + 1;
      }
      ProbeIsNearest(t, Home(funcKey), funcKey, Kind.CallOnce, Find(t, funcKey, Kind.CallOnce));
      if onceEnt.None? {
        aborted := true;
      } else if slots[onceEnt.value].kind == Unused {
        Store(onceEnt.value, OnceEntry(funcKey));
        run := true;
      }
    }

    // ---- Return codes ----

    method SetDeferredRetcode(funcKey: Key, count: int, retcode: int) returns (aborted: bool)
      requires Valid()
      modifies this`maxSearchLen, slots
      ensures Valid()
      ensures var r := SetDeferred(old(Contents()), funcKey, count, retcode);
        aborted == r.None? && Contents() == if aborted then old(Contents()) else r.value
    {
      aborted := false;
      if count > 0 {
        var stub := GetStubEntry(funcKey, Unused);
        if stub.None? {
          aborted := true;
        } else {
          Store(stub.value, DeferredEntry(funcKey, count, retcode));
        }
      }
    }

    method ClearDeferredRetcode(funcKey: Key)
      requires Valid()
      modifies this`maxSearchLen, slots
      ensures Valid()
      ensures Contents() == ClearDeferred(old(Contents()), funcKey)
    {
      ghost var t0 := Contents();
      while true
        invariant Valid() && PartlyCleared(t0, Contents(), funcKey)
        decreases |View(Contents(), funcKey, DeferredRc)|
      {
        ClearingStep(t0, Contents(), funcKey);
        var stub := GetStubEntry(funcKey, DeferredRc);
        if stub.None? {
          break;
        }
        Store(stub.value, ZERO_ENTRY);
      }
    }

    method CheckDeferredRetcode(funcKey: Key) returns (retcode: Option<int>)
      requires Valid()
      modifies this`maxSearchLen, slots
      ensures Valid()
      ensures (Contents(), retcode) == CheckDeferred(old(Contents()), funcKey)
      ensures maxSearchLen == old(maxSearchLen)
    {
      retcode := None;
      var stub := GetStubEntry(funcKey, DeferredRc);
      if stub.Some? {
        var Rc(count, rc) := slots[stub.value].data;
        if count > 0 {
          count := count - 1;
        }
        if count == 0 {
          retcode := Some(rc);
          Store(stub.value, ZERO_ENTRY);
        } else {
          Store(stub.value, DeferredEntry(funcKey, count, rc));
        }
      }
    }

    method SetForceFail(funcKey: Key, value: int) returns (aborted: bool)
      requires Valid()
      modifies this`maxSearchLen, slots
      ensures Valid()
      ensures var r := StubSpec.SetForceFail(old(Contents()), funcKey, value);
        aborted == r.None? && Contents() == if aborted then old(Contents()) else r.value
    {
      var stub := FindOrClaim(funcKey, ForceFail);
      aborted := stub.None?;
      if stub.Some? {
        Store(stub.value, Entry(ForceFail, funcKey, false, Rc(CountIn(slots[stub.value].data), value)));
      }
    }

    method ClearForceFail(funcKey: Key)
      requires Valid()
      modifies this`maxSearchLen, slots
      ensures Valid()
      ensures Contents() == ClearOne(old(Contents()), funcKey, ForceFail)
    {
      var stub := GetStubEntry(funcKey, ForceFail);
      if stub.Some? {
        Store(stub.value, ZERO_ENTRY);
      }
    }

    method CheckForceFail(funcKey: Key) returns (value: Option<int>)
      requires Valid()
      modifies this`maxSearchLen, slots
      ensures Valid()
      ensures (Contents(), value) == StubSpec.CheckForceFail(old(Contents()), funcKey)
      ensures maxSearchLen == old(maxSearchLen)
    {
      value := None;
      ProbeIsNearest(slots[..], Home(funcKey), funcKey, ForceFail, Find(slots[..], funcKey, ForceFail));
      var stub := GetStubEntry(funcKey, ForceFail);
      if stub.Some? {
        var Rc(count, rc) := slots[stub.value].data;
        Store(stub.value, Entry(ForceFail, funcKey, false, Rc(NextCount(count), rc)));
        value := Some(rc);
      }
    }

    /** The search for an existing entry of a unique kind, repeated for any unused slot. */
    method FindOrClaim(funcKey: Key, kind: Kind) returns (r: Option<nat>)
      requires Valid() && UniqueKind(kind) && !kind.CallOnce?
      modifies this`maxSearchLen
      ensures Valid()
      ensures r == SlotFor(Contents(), funcKey, kind)
      ensures r.Some? ==>
        && r.value < MAX_FUNC_STUBS
        && Distance(Home(funcKey), r.value) < maxSearchLen
        && (Matches(slots[r.value], funcKey, kind) || slots[r.value] == ZERO_ENTRY)
        && forall j | 0 <= j < MAX_FUNC_STUBS && j != r.value :: !Matches(slots[j], funcKey, kind)
    {
      r := GetStubEntry(funcKey, kind);
      if r.None? {
        r := GetStubEntry(funcKey, Unused);
      }
      if r.Some? {
        SlotForIsAlone(slots[..], funcKey, kind);
      }
    }

    /** The last code and the count, which is handed out as a signed 32-bit number. */
    method GetStubRetcodeAndCount(funcKey: Key) returns (r: Option<(int, int)>)
      requires Valid()
      modifies this`maxSearchLen
      ensures Valid() && maxSearchLen == old(maxSearchLen)
      ensures r.None? <==> View(Contents(), funcKey, Counter) == []
      ensures r.Some? ==>
        var e := View(Contents(), funcKey, Counter)[0];
        e.data.Rc? && r.value == (e.data.rc, Int32(e.data.count))
    {
      var stub := GetStubEntry(funcKey, Counter);
      FindIsHead(slots[..], funcKey, Counter);
      if stub.Some? {
        var Rc(count, rc) := slots[stub.value].data;
        r := Some((rc, Int32(count)));
      } else {
        r := None;
      }
    }

    // ---- Data buffers ----

    method SetDataBuffer(funcKey: Key, src: Option<Base>, size: nat) returns (aborted: bool)
      requires Valid() && SourceFits(src, size, memory)
      modifies this`maxSearchLen, slots
      ensures Valid()
      ensures var r := StubSpec.SetDataBuffer(old(Contents()), funcKey, src, size);
        aborted == r.None? && Contents() == if aborted then old(Contents()) else r.value
    {
      aborted := false;
      if src.Some? && size > 0 {
        var stub := GetStubEntry(funcKey, Unused);
        if stub.None? {
          aborted := true;
        } else {
          Store(stub.value, BufferEntry(funcKey, src.value, size));
        }
      }
    }

    method CopyToLocal(funcKey: Key, maxSize: nat) returns (local: seq<Byte>)
      requires Valid()
      modifies this`maxSearchLen, slots
      ensures Valid()
      ensures (Contents(), local) == StubSpec.CopyToLocal(old(Contents()), memory, funcKey, maxSize)
    {
      local := [];
      var stub := GetStubEntry(funcKey, DataBuffer);
      if stub.Some? {
        var e := slots[stub.value];
        var actualCopy := e.data.totalSize - e.data.position;
        if maxSize < actualCopy {
          actualCopy := maxSize;
        }
        var bytes := match e.data.base case Copied(b) => b case Direct(block) => memory[block][..e.data.totalSize];
        local := bytes[e.data.position..e.data.position + actualCopy];
        if e.data.position + actualCopy >= e.data.totalSize {
          Store(stub.value, ZERO_ENTRY);
        } else {
          Store(stub.value, e.(data := e.data.(position := e.data.position + actualCopy)));
        }
      }
    }

    method CopyFromLocal(funcKey: Key, local: seq<Byte>) returns (actualCopy: nat)
      requires Valid()
      modifies this, slots
      ensures slots == old(slots) && Valid()
      ensures (Contents(), memory, actualCopy) == StubSpec.CopyFromLocal(old(Contents()), old(memory), funcKey, local)
    {
      actualCopy := 0;
      var stub := GetStubEntry(funcKey, DataBuffer);
      if stub.Some? {
        var e := slots[stub.value];
        actualCopy := e.data.totalSize - e.data.position;
        if |local| < actualCopy {
          actualCopy := |local|;
        }
        match e.data.base {
          case Copied(bytes) =>
            e := e.(data := e.data.(base := Copied(Overwrite(bytes, e.data.position, local[..actualCopy]))));
          case Direct(block) =>
            memory := memory[block := Overwrite(memory[block], e.data.position, local[..actualCopy])];
        }
        if e.data.position + actualCopy >= e.data.totalSize {
          Store(stub.value, ZERO_ENTRY);
        } else {
          Store(stub.value, e.(data := e.data.(position := e.data.position + actualCopy)));
        }
      }
    }

    // ---- Hooks and the default stub ----

    method SetHookFunction(funcKey: Key, callback: Callback) returns (aborted: bool)
      requires Valid()
      modifies this`maxSearchLen, slots
      ensures Valid()
      ensures var r := SetHook(old(Contents()), funcKey, callback);
        aborted == r.None? && Contents() == if aborted then old(Contents()) else r.value
    {
      aborted := false;
      if callback.address == 0 {
        var stub := GetStubEntry(funcKey, CallbackHook);
        if stub.Some? {
          Store(stub.value, ZERO_ENTRY);
        }
      } else {
        var stub := FindOrClaim(funcKey, CallbackHook);
        aborted := stub.None?;
        if stub.Some? {
          Store(stub.value, Entry(CallbackHook, funcKey, false, Cb(callback)));
        }
      }
    }

    method RegisterContext(funcKey: Key, parameter: int) returns (aborted: bool)
      requires Valid()
      modifies this`maxSearchLen, slots
      ensures Valid()
      ensures var r := StubSpec.RegisterContext(old(Contents()), funcKey, parameter);
        aborted == r.None? && Contents() == if aborted then old(Contents()) else r.value
    {
      var stub := FindOrClaim(funcKey, CallbackContext);
      aborted := stub.None?;
      if stub.Some? {
        var args := ArgsIn(slots[stub.value].data);
        if |args| < CONTEXT_MAX_SIZE {
          args := args + [parameter];
        }
        Store(stub.value, Entry(CallbackContext, funcKey, false, Context(args)));
      }
    }

    /** The code of this call before hooks: a due deferred code, else a forced one, else the default. */
    method SelectRetcode(funcKey: Key, defaultRc: int) returns (retcode: int)
      requires Valid()
      modifies this`maxSearchLen, slots
      ensures Valid()
      ensures (Contents(), retcode) == SelectCode(old(Contents()), funcKey, defaultRc)
    {
      var deferred := CheckDeferredRetcode(funcKey);
      if deferred.Some? {
        return deferred.value;
      }
      var forced := CheckForceFail(funcKey);
      retcode := if forced.Some? then forced.value else defaultRc;
    }

    method IncrementCounter(funcKey: Key, retcode: int) returns (counter: Option<nat>)
      requires Valid()
      modifies this`maxSearchLen, slots
      ensures Valid()
      ensures var r := CountCall(old(Contents()), funcKey, retcode);
        counter.None? == r.None? && (counter.Some? ==> (Contents(), counter.value) == r.value)
    {
      var stub := FindOrClaim(funcKey, Counter);
      counter := None;
      if stub.Some? {
        counter := Some(CountIn(slots[stub.value].data));
        Store(stub.value, Entry(Counter, funcKey, false, Rc(NextCount(counter.value), retcode)));
      }
    }

    /** The default stub implementation; `None` means that the test was aborted. */
    method DefaultStubImpl(funcKey: Key, defaultRc: int, hooks: Hooks) returns (r: Option<int>)
      requires Valid()
      modifies this`maxSearchLen, slots
      ensures Valid()
      ensures var spec := Call(old(Contents()), funcKey, defaultRc, hooks);
        r.None? == spec.None? && (r.Some? ==> (Contents(), r.value) == spec.value)
    {
      hide SelectCode, CountCall;
      var retcode := SelectRetcode(funcKey, defaultRc);
      var counter := IncrementCounter(funcKey, retcode);
      if counter.None? {
        return None;
      }
      var context := GetStubEntry(funcKey, CallbackContext);
      var hook := GetStubEntry(funcKey, CallbackHook);
      if hook.Some? {
        var contextPtr := if context.Some? then Some(slots[context.value].data.args) else None;
        retcode := hooks(slots[hook.value].data.callback, retcode, counter.value, contextPtr);
      }
      if context.Some? {
        Store(context.value, ZERO_ENTRY);
      }
      return Some(retcode);
    }
  }
}
