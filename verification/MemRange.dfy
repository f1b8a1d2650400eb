/**
 The memory-range table of the platform support package (psp/fsw/shared/cfe_psp_memrange.c):
 a validator that works with wrapping address arithmetic, and the setter and getter of the
 table's records.
 */
module MemRange {
  import opened Basics

  const MEM_RAM: nat := 1
  const MEM_EEPROM: nat := 2
  const MEM_ANY: nat := 3
  const MEM_INVALID: nat := 4
  const ATTR_WRITE: nat := 1
  const ATTR_READ: nat := 2
  const ATTR_READWRITE: nat := 3
  const SIZE_BYTE: nat := 1
  const SIZE_WORD: nat := 2
  const SIZE_DWORD: nat := 4
  const MEM_TABLE_SIZE: nat := 10

  datatype Code =
    | Success
    | InvalidPointer
    | InvalidMemAddr
    | InvalidMemType
    | InvalidMemRange
    | InvalidMemWordSize
    | InvalidMemAttr

  datatype Record = Record(memoryType: nat, startAddr: nat, size: nat, wordSize: nat, attributes: nat)

  /** Unsigned addition and subtraction of addresses: `start + size - 1` modulo the address range. */
  function LastOf(start: nat, size: nat, addressRange: nat): (last: nat)
    requires 0 < addressRange
    ensures last < addressRange
  {
    (start + size - 1) % addressRange
  }

  /** A non-empty range that does not wrap ends where one expects; an empty one at zero spans everything. */
  lemma LastOfPlain(start: nat, size: nat, addressRange: nat)
    requires 0 < addressRange
    ensures 0 < size && start + size <= addressRange ==> LastOf(start, size, addressRange) == start + size - 1
    ensures LastOf(0, 0, addressRange) == addressRange - 1
  {
    Remainder(-1, -1, addressRange - 1, addressRange);
    if 0 < size && start + size <= addressRange {
      Remainder(start + size - 1, 0, start + size - 1, addressRange);
    }
  }

  /** What the validator asks of one record. */
  predicate Compatible(wanted: nat, inTable: nat) {
    wanted == MEM_ANY || (wanted == MEM_RAM && inTable == MEM_RAM) || (wanted == MEM_EEPROM && inTable == MEM_EEPROM)
  }

  predicate Contains(e: Record, start: nat, last: nat, addressRange: nat)
    requires 0 < addressRange
  {
    e.startAddr <= start && last <= LastOf(e.startAddr, e.size, addressRange)
  }

  /** The verdict on one record, taken alone. */
  function Verdict(e: Record, start: nat, last: nat, wanted: nat, addressRange: nat): (c: Code)
    requires 0 < addressRange && start <= last
    ensures c == Success <==> Contains(e, start, last, addressRange) && Compatible(wanted, e.memoryType)
  {
    var end := LastOf(e.startAddr, e.size, addressRange);
    if e.startAddr <= start <= end then
      if last <= end then if Compatible(wanted, e.memoryType) then Success else InvalidMemType
      else InvalidMemRange
    else InvalidMemAddr
  }

  function Active(table: seq<Record>): (s: seq<Record>)
    ensures forall e :: e in s <==> e in table && e.memoryType != MEM_INVALID
  {
    if table == [] then []
    else if table[0].memoryType != MEM_INVALID then [table[0]] + Active(table[1..])
    else Active(table[1..])
  }

  lemma {:induction false} ActiveConcat(a: seq<Record>, b: seq<Record>)
    ensures Active(a + b) == Active(a) + Active(b)
    decreases a
  {
    if a == [] {
      assert a + b == b;
    } else {
      assert (a + b)[0] == a[0] && (a + b)[1..] == a[1..] + b;
      ActiveConcat(a[1..], b);
    }
  }

  lemma ActiveOne(e: Record)
    ensures Active([e]) == if e.memoryType != MEM_INVALID then [e] else []
  {
    assert [e][1..] == [];
  }

  lemma ActiveSnoc(table: seq<Record>, i: nat)
    requires i < |table|
    ensures Active(table[..i + 1])
         == if table[i].memoryType != MEM_INVALID then Active(table[..i]) + [table[i]] else Active(table[..i])
  {
    hide Active;
    assert table[..i + 1] == table[..i] + [table[i]];
    ActiveConcat(table[..i], [table[i]]);
    ActiveOne(table[i]);
  }

  predicate KnownType(memoryType: nat) {
    memoryType == MEM_ANY || memoryType == MEM_RAM || memoryType == MEM_EEPROM
  }

  /** Some active record of a compatible type contains the whole range. */
  ghost predicate Covered(table: seq<Record>, start: nat, last: nat, memoryType: nat, addressRange: nat)
    requires 0 < addressRange
  {
    exists e <- Active(table) :: Contains(e, start, last, addressRange) && Compatible(memoryType, e.memoryType)
  }

  /**
   What the validator answers: success exactly when the type is known, the range does not
   wrap and an active record covers it; otherwise, once the parameters are in order, the
   verdict of the last active record.
   */
  ghost function Answer(table: seq<Record>, address: nat, size: nat, memoryType: nat, addressRange: nat): (code: Code)
    requires 0 < addressRange
    ensures code == Success <==>
      && KnownType(memoryType)
      && var last := LastOf(address, size, addressRange);
         address <= last && Covered(table, address, last, memoryType, addressRange)
  {
    var last := LastOf(address, size, addressRange);
    var active := Active(table);
    if !KnownType(memoryType) then InvalidMemType
    else if last < address then InvalidMemRange
    else if Covered(table, address, last, memoryType, addressRange) then Success
    else if active == [] then InvalidMemAddr
    else
      assert active[|active| - 1] in active;
      Verdict(active[|active| - 1], address, last, memoryType, addressRange)
  }

  /** The validator's state after the active records seen so far, none of which covers the range. */
  ghost predicate SoFar(seen: seq<Record>, start: nat, last: nat, memoryType: nat, addressRange: nat, code: Code)
    requires 0 < addressRange && start <= last
  {
    && (forall e <- seen :: !(Contains(e, start, last, addressRange) && Compatible(memoryType, e.memoryType)))
    && code == if seen == [] then InvalidMemAddr
               else Verdict(seen[|seen| - 1], start, last, memoryType, addressRange)
  }

  lemma SoFarStep(seen: seq<Record>, e: Record, start: nat, last: nat, memoryType: nat, addressRange: nat, code: Code)
    requires 0 < addressRange && start <= last && SoFar(seen, start, last, memoryType, addressRange, code)
    ensures var v := Verdict(e, start, last, memoryType, addressRange);
      v != Success ==> SoFar(seen + [e], start, last, memoryType, addressRange, v)
  {
    hide LastOf;
  }

  lemma ActiveNothing()
    ensures Active([]) == []
  {
  }

  class MemoryTable {
    var records: array<Record>
    const addressRange: nat

    ghost predicate Valid()
      reads this
    {
      records.Length == MEM_TABLE_SIZE && UINT32_RANGE <= addressRange
    }

    /** A table in which no record is in use. */
    constructor (addressRange: nat)
      requires UINT32_RANGE <= addressRange
      ensures Valid() && this.addressRange == addressRange && fresh(records)
      ensures Active(records[..]) == []
    {
      records := new Record[MEM_TABLE_SIZE](_ => NO_RECORD);
      this.addressRange := addressRange;
      new;
      assert records[..] == seq(MEM_TABLE_SIZE, _ => NO_RECORD);
      UnusedRecords(MEM_TABLE_SIZE);
    }

    method ValidateRange(address: nat, size: nat, memoryType: nat) returns (code: Code)
      requires Valid() && address < addressRange && size < UINT32_RANGE
      ensures code == Answer(records[..], address, size, memoryType, addressRange)
    {
      hide Active, LastOf;
      var endToTest := LastOf(address, size, addressRange);
      code := InvalidMemAddr;
      if memoryType != MEM_ANY && memoryType != MEM_RAM && memoryType != MEM_EEPROM {
        return InvalidMemType;
      }
      if endToTest < address {
        return InvalidMemRange;
      }
      var i := 0;
      ghost var t := records[..];
      assert t[..0] == [];
      ActiveNothing();
      while i < MEM_TABLE_SIZE
        invariant 0 <= i <= MEM_TABLE_SIZE && t == records[..] && code != Success
        invariant SoFar(Active(t[..i]), address, endToTest, memoryType, addressRange, code)
      {
        ActiveSnoc(t, i);
        var e := records[i];
        SoFarStep(Active(t[..i]), e, address, endToTest, memoryType, addressRange, code);
        if e.memoryType != MEM_INVALID {
          var startInTable := e.startAddr;
          var endInTable := LastOf(e.startAddr, e.size, addressRange);
          if startInTable <= address <= endInTable {
            if endToTest <= endInTable {
              if memoryType == MEM_ANY {
                code := Success;
              } else if memoryType == MEM_RAM && e.memoryType == MEM_RAM {
                code := Success;
              } else if memoryType == MEM_EEPROM && e.memoryType == MEM_EEPROM {
                code := Success;
              } else {
                code := InvalidMemType;
              }
            } else {
              code := InvalidMemRange;
            }
          } else {
            code := InvalidMemAddr;
          }
          assert code == Verdict(e, address, endToTest, memoryType, addressRange);
          if code == Success {
            assert e in Active(t);
            break;
          }
        }
        i := i + 1;
      }
      assert t[..MEM_TABLE_SIZE] == t;
    }

    method RangeSet(rangeNum: nat, memoryType: nat, startAddr: nat, size: nat, wordSize: nat, attributes: nat)
      returns (code: Code)
      requires Valid() && startAddr < addressRange && size < UINT32_RANGE
      modifies records
      ensures Valid() && code == SetCode(rangeNum, memoryType, wordSize, attributes)
      ensures records[..] == if code == Success
                             then old(records[..])[rangeNum := Record(memoryType, startAddr, size, wordSize, attributes)]
                             else old(records[..])
    {
      if rangeNum >= MEM_TABLE_SIZE {
        return InvalidMemRange;
      }
      if memoryType != MEM_RAM && memoryType != MEM_EEPROM {
        return InvalidMemType;
      }
      if wordSize != SIZE_BYTE && wordSize != SIZE_WORD && wordSize != SIZE_DWORD {
        return InvalidMemWordSize;
      }
      if attributes != ATTR_READ && attributes != ATTR_WRITE && attributes != ATTR_READWRITE {
        return InvalidMemAttr;
      }
      records[rangeNum] := Record(memoryType, startAddr, size, wordSize, attributes);
      return Success;
    }

    /** `pointersOk` says that the caller passed no null pointer; the record comes back unchanged. */
    method RangeGet(rangeNum: nat, pointersOk: bool) returns (code: Code, record: Record)
      requires Valid()
      ensures code == if !pointersOk then InvalidPointer
                      else if rangeNum >= MEM_TABLE_SIZE then InvalidMemRange else Success
      ensures code == Success ==> record == records[rangeNum]
    {
      record := Record(0, 0, 0, 0, 0);
      if !pointersOk {
        return InvalidPointer, record;
      }
      if rangeNum >= MEM_TABLE_SIZE {
        return InvalidMemRange, record;
      }
      return Success, records[rangeNum];
    }
  }

  function SetCode(rangeNum: nat, memoryType: nat, wordSize: nat, attributes: nat): (c: Code) {
    if rangeNum >= MEM_TABLE_SIZE then InvalidMemRange
    else if memoryType != MEM_RAM && memoryType != MEM_EEPROM then InvalidMemType
    else if wordSize != SIZE_BYTE && wordSize != SIZE_WORD && wordSize != SIZE_DWORD then InvalidMemWordSize
    else if attributes != ATTR_READ && attributes != ATTR_WRITE && attributes != ATTR_READWRITE then InvalidMemAttr
    else Success
  }

  // ---- What containment means for addresses ----

  ghost predicate InRange(a: nat, start: nat, size: nat) {
    start <= a < start + size
  }

  /** For plain non-empty ranges, containment is containment of every address. */
  lemma ContainsMeansAllAddresses(e: Record, address: nat, size: nat, addressRange: nat)
    requires 0 < addressRange && 0 < size && address + size <= addressRange
    requires 0 < e.size && e.startAddr + e.size <= addressRange
    ensures Contains(e, address, LastOf(address, size, addressRange), addressRange)
       <==> forall a: nat | InRange(a, address, size) :: InRange(a, e.startAddr, e.size)
  {
    LastOfPlain(address, size, addressRange);
    LastOfPlain(e.startAddr, e.size, addressRange);
    if forall a: nat | InRange(a, address, size) :: InRange(a, e.startAddr, e.size) {
      assert InRange(address, address, size) && InRange(address + size - 1, address, size);
    }
  }

  /** After a plain range was set, every non-empty part of it validates, for its own type and for any type. */
  lemma SetRangeValidates(table: seq<Record>, rangeNum: nat, r: Record, address: nat, size: nat, wanted: nat, addressRange: nat)
    requires UINT32_RANGE <= addressRange && |table| == MEM_TABLE_SIZE
    requires SetCode(rangeNum, r.memoryType, r.wordSize, r.attributes) == Success
    requires 0 < r.size && r.startAddr + r.size <= addressRange
    requires 0 < size && r.startAddr <= address && address + size <= r.startAddr + r.size
    requires wanted == r.memoryType || wanted == MEM_ANY
    ensures Answer(table[rangeNum := r], address, size, wanted, addressRange) == Success
  {
    hide LastOf, Active;
    LastOfPlain(r.startAddr, r.size, addressRange);
    LastOfPlain(address, size, addressRange);
    assert table[rangeNum := r][rangeNum] == r;
    assert r in Active(table[rangeNum := r]);
  }

  /** What is set is what is got, and no other record changes. */
  method SetThenGet(t: MemoryTable, rangeNum: nat, r: Record) returns (code: Code, got: Record)
    requires t.Valid() && r.startAddr < t.addressRange && r.size < UINT32_RANGE
    modifies t.records
    ensures t.Valid() && |t.records[..]| == |old(t.records[..])|
    ensures code == SetCode(rangeNum, r.memoryType, r.wordSize, r.attributes)
    ensures code == Success ==> got == r
    ensures forall i | 0 <= i < t.records.Length && !(code == Success && i == rangeNum) :: t.records[i] == old(t.records[i])
  {
    got := r;
    code := t.RangeSet(rangeNum, r.memoryType, r.startAddr, r.size, r.wordSize, r.attributes);
    if code == Success {
      code, got := t.RangeGet(rangeNum, true);
    }
  }

  // ---- The documented meaning of INVALID_MEM_RANGE ----

  /** The record holds the address but ends before the range does. */
  predicate TooSmall(e: Record, address: nat, last: nat, addressRange: nat)
    requires 0 < addressRange
  {
    e.startAddr <= address <= LastOf(e.startAddr, e.size, addressRange) < last
  }

  /** The header's description: "the range associated with the address is not large enough". */
  ghost predicate DocumentedTooSmall(table: seq<Record>, address: nat, last: nat, addressRange: nat)
    requires 0 < addressRange
  {
    exists e <- Active(table) :: TooSmall(e, address, last, addressRange)
  }

  /** The last active record holds the address and is too small. */
  predicate LastIsTooSmall(table: seq<Record>, address: nat, last: nat, addressRange: nat)
    requires 0 < addressRange
  {
    var active := Active(table);
    active != [] && TooSmall(active[|active| - 1], address, last, addressRange)
  }

  /**
   For a known type and a range that does not wrap and that no record covers, the code gives
   that answer if and only if the last active record is too small. So it says what the header
   documents if and only if no other record is too small, or the last one is: a later record
   with other addresses replaces the answer.
   */
  lemma TooSmallIsReportedOnlyByTheLast(table: seq<Record>, address: nat, size: nat, memoryType: nat, addressRange: nat)
    requires 0 < addressRange && KnownType(memoryType) && address <= LastOf(address, size, addressRange)
    requires !Covered(table, address, LastOf(address, size, addressRange), memoryType, addressRange)
    ensures var last := LastOf(address, size, addressRange);
      var answer := Answer(table, address, size, memoryType, addressRange);
      && (answer == InvalidMemRange <==> LastIsTooSmall(table, address, last, addressRange))
      && ((answer == InvalidMemRange <==> DocumentedTooSmall(table, address, last, addressRange))
           <==> (DocumentedTooSmall(table, address, last, addressRange) ==> LastIsTooSmall(table, address, last, addressRange)))
  {
    hide Active, LastOf;
    var active := Active(table);
    if active != [] {
      assert active[|active| - 1] in active;
    }
  }

  const NO_RECORD: Record := Record(MEM_INVALID, 0, 0, SIZE_WORD, ATTR_READWRITE)
  const SMALL: Record := Record(MEM_RAM, 0x1000, 0x10, SIZE_WORD, ATTR_READWRITE)
  const OTHER: Record := Record(MEM_RAM, 0x8000, 0x10, SIZE_WORD, ATTR_READWRITE)

  /** A full table of ten records, of which two are in use. */
  const TWO_RANGES: seq<Record> :=
    [SMALL, OTHER, NO_RECORD, NO_RECORD, NO_RECORD, NO_RECORD, NO_RECORD, NO_RECORD, NO_RECORD, NO_RECORD]

  lemma {:induction false} UnusedRecords(n: nat)
    ensures Active(seq(n, _ => NO_RECORD)) == []
    decreases n
  {
    if n > 0 {
      assert seq(n, _ => NO_RECORD)[1..] == seq(n - 1, _ => NO_RECORD);
      UnusedRecords(n - 1);
    }
  }

  lemma TwoRangesActive()
    ensures |TWO_RANGES| == MEM_TABLE_SIZE && Active(TWO_RANGES) == [SMALL, OTHER]
  {
    var rest := seq(8, _ => NO_RECORD);
    assert TWO_RANGES[1..] == [OTHER] + rest && ([OTHER] + rest)[1..] == rest;
    UnusedRecords(8);
  }

  /** In that table the first record is too small for the range, but the answer is "address not found". */
  lemma LaterRecordHidesTooSmall()
    ensures |TWO_RANGES| == MEM_TABLE_SIZE
    ensures DocumentedTooSmall(TWO_RANGES, 0x1000, LastOf(0x1000, 0x100, UINT32_RANGE), UINT32_RANGE)
    ensures Answer(TWO_RANGES, 0x1000, 0x100, MEM_RAM, UINT32_RANGE) == InvalidMemAddr
  {
    hide LastOf, Active;
    TwoRangesActive();
    LastOfPlain(0x1000, 0x10, UINT32_RANGE);
    LastOfPlain(0x8000, 0x10, UINT32_RANGE);
    LastOfPlain(0x1000, 0x100, UINT32_RANGE);
    assert SMALL in Active(TWO_RANGES);
  }

  /** From an empty table: a plain range that was set legally validates, as does every non-empty part of it. */
  method SetThenValidate(addressRange: nat, rangeNum: nat, r: Record, address: nat, size: nat) returns (done: Code, checked: Code)
    requires UINT32_RANGE <= addressRange
    requires 0 < r.size < UINT32_RANGE && r.startAddr + r.size <= addressRange
    requires 0 < size && r.startAddr <= address && address + size <= r.startAddr + r.size
    ensures done == SetCode(rangeNum, r.memoryType, r.wordSize, r.attributes)
    ensures checked == if done == Success then Success else InvalidMemAddr
  {
    var t := new MemoryTable(addressRange);
    ghost var before := t.records[..];
    done := t.RangeSet(rangeNum, r.memoryType, r.startAddr, r.size, r.wordSize, r.attributes);
    checked := t.ValidateRange(address, size, MEM_ANY);
    if done == Success {
      SetRangeValidates(before, rangeNum, r, address, size, MEM_ANY, addressRange);
    } else {
      LastOfPlain(address, size, addressRange);
    }
  }

  // ---- The answers in plain terms ----

  /** Records as they can be in the table: addresses below the range of addresses, 32-bit sizes. */
  predicate Plausible(e: Record, addressRange: nat) {
    e.startAddr < addressRange && e.size < UINT32_RANGE
  }

  /**
   The record holds every address of the range. One that wraps around holds nothing, and one that
   starts at zero with size zero counts as holding everything.
   */
  ghost predicate HoldsAll(e: Record, address: nat, size: nat, addressRange: nat) {
    || (e.startAddr == 0 && e.size == 0)
    || (e.startAddr + e.size <= addressRange && forall a: nat | InRange(a, address, size) :: InRange(a, e.startAddr, e.size))
  }

  lemma ContainsIsHoldsAll(e: Record, address: nat, size: nat, addressRange: nat)
    requires UINT32_RANGE <= addressRange && Plausible(e, addressRange) && 0 < size && address + size <= addressRange
    ensures Contains(e, address, LastOf(address, size, addressRange), addressRange) <==> HoldsAll(e, address, size, addressRange)
  {
    hide LastOf;
    LastOfPlain(address, size, addressRange);
    if 0 < e.size && e.startAddr + e.size <= addressRange {
      ContainsMeansAllAddresses(e, address, size, addressRange);
    } else {
      LastOfOdd(e.startAddr, e.size, addressRange);
      assert InRange(address, address, size);
      assert InRange(address + size - 1, address, size);
    }
  }

  /** A record that wraps ends before it starts; an empty one ends before it starts or, at zero, at the very end. */
  lemma LastOfOdd(start: nat, size: nat, addressRange: nat)
    requires UINT32_RANGE <= addressRange && start < addressRange && size < UINT32_RANGE
    ensures start + size > addressRange ==> LastOf(start, size, addressRange) == start + size - 1 - addressRange < start
    ensures size == 0 && start > 0 ==> LastOf(start, size, addressRange) == start - 1
    ensures size == 0 && start == 0 ==> LastOf(start, size, addressRange) == addressRange - 1
  {
    if start + size > addressRange {
      Remainder(start + size - 1, 1, start + size - 1 - addressRange, addressRange);
    } else if size == 0 {
      Remainder(start - 1, if start == 0 then -1 else 0, if start == 0 then addressRange - 1 else start - 1, addressRange);
    }
  }

  lemma Remainder(x: int, q: int, r: nat, m: nat)
    requires r < m && x == q * m + r
    ensures x % m == r
  {
    var d := x / m - q;
    assert d * m == r - x % m;
    SmallMultipleIsZero(d, m);
  }

  lemma SmallMultipleIsZero(d: int, m: nat)
    requires -(m as int) < d * m < m
    ensures d == 0
  {
  }

  /**
   When the validator succeeds, for a non-empty range that does not wrap: some record in use has
   exactly the wanted type, or any if any is wanted, and holds every address of the range. Types
   are 1 for RAM, 2 for EEPROM, 3 for any, 4 for a record that is not in use.
   */
  lemma SuccessExactly(table: seq<Record>, address: nat, size: nat, memoryType: nat, addressRange: nat)
    requires UINT32_RANGE <= addressRange && 0 < size && address + size <= addressRange
    requires forall i | 0 <= i < |table| :: Plausible(table[i], addressRange)
    ensures Answer(table, address, size, memoryType, addressRange) == Success <==>
      && 1 <= memoryType <= 3
      && exists i | 0 <= i < |table| ::
           && table[i].memoryType != 4 && (memoryType == 3 || table[i].memoryType == memoryType)
           && HoldsAll(table[i], address, size, addressRange)
  {
    hide LastOf, Active, Contains, HoldsAll;
    LastOfPlain(address, size, addressRange);
    forall i | 0 <= i < |table|
      ensures Contains(table[i], address, LastOf(address, size, addressRange), addressRange)
        <==> HoldsAll(table[i], address, size, addressRange)
    {
      ContainsIsHoldsAll(table[i], address, size, addressRange);
    }
    if i :| 0 <= i < |table| && table[i].memoryType != 4 && (memoryType == 3 || table[i].memoryType == memoryType)
            && HoldsAll(table[i], address, size, addressRange) {
      assert table[i] in Active(table);
    }
  }

  /** `k` is the last record in use. */
  ghost predicate IsLastInUse(table: seq<Record>, k: nat) {
    k < |table| && table[k].memoryType != 4 && forall i | k < i < |table| :: table[i].memoryType == 4
  }

  lemma {:induction false} LastActive(table: seq<Record>, k: nat)
    requires IsLastInUse(table, k)
    ensures Active(table) != [] && Active(table)[|Active(table)| - 1] == table[k]
    decreases table
  {
    if k == 0 {
      NoneActive(table[1..]);
    } else {
      LastActive(table[1..], k - 1);
    }
  }

  lemma {:induction false} NoneActive(table: seq<Record>)
    requires forall i | 0 <= i < |table| :: table[i].memoryType == 4
    ensures Active(table) == []
    decreases table
  {
    if table != [] {
      NoneActive(table[1..]);
    }
  }

  /**
   Why the validator fails, for a known type and a non-empty range that does not wrap, by the
   last record in use: wrong type if and only if it holds every address of the range, too small
   if and only if it holds the first address but not all, and address not found otherwise, or if
   no record is in use.
   */
  lemma FailureExactly(table: seq<Record>, address: nat, size: nat, memoryType: nat, addressRange: nat, k: nat)
    requires UINT32_RANGE <= addressRange && 0 < size && address + size <= addressRange && 1 <= memoryType <= 3
    requires (forall i | 0 <= i < |table| :: Plausible(table[i], addressRange)) && IsLastInUse(table, k)
    requires Answer(table, address, size, memoryType, addressRange) != Success
    ensures var answer := Answer(table, address, size, memoryType, addressRange);
      && (answer == InvalidMemType <==> HoldsAll(table[k], address, size, addressRange))
      && (answer == InvalidMemRange <==> HoldsAll(table[k], address, 1, addressRange) && !HoldsAll(table[k], address, size, addressRange))
      && (answer == InvalidMemAddr <==> !HoldsAll(table[k], address, 1, addressRange))
  {
    hide LastOf, Active, HoldsAll;
    LastOfPlain(address, size, addressRange);
    LastOfPlain(address, 1, addressRange);
    LastActive(table, k);
    ContainsIsHoldsAll(table[k], address, size, addressRange);
    ContainsIsHoldsAll(table[k], address, 1, addressRange);
    assert table[k] in Active(table);
  }

  lemma NothingInUse(table: seq<Record>, address: nat, size: nat, memoryType: nat, addressRange: nat)
    requires UINT32_RANGE <= addressRange && 0 < size && address + size <= addressRange && 1 <= memoryType <= 3
    requires forall i | 0 <= i < |table| :: table[i].memoryType == 4
    ensures Answer(table, address, size, memoryType, addressRange) == InvalidMemAddr
  {
    hide LastOf;
    NoneActive(table);
    LastOfPlain(address, size, addressRange);
  }

  /** The checks of the parameters: the type first, then whether the range wraps, which an empty one does unless it is at zero. */
  lemma ParameterChecks(table: seq<Record>, address: nat, size: nat, memoryType: nat, addressRange: nat)
    requires UINT32_RANGE <= addressRange && address < addressRange && size < UINT32_RANGE
    ensures !(1 <= memoryType <= 3) ==> Answer(table, address, size, memoryType, addressRange) == InvalidMemType
    ensures 1 <= memoryType <= 3 && (address + size > addressRange || (size == 0 && address > 0)) ==>
      Answer(table, address, size, memoryType, addressRange) == InvalidMemRange
  {
    hide LastOf;
    LastOfOdd(address, size, addressRange);
  }

  /** The legal parameters of a record, and which illegal one is reported. */
  lemma LegalParameters(rangeNum: nat, memoryType: nat, wordSize: nat, attributes: nat)
    ensures var code := SetCode(rangeNum, memoryType, wordSize, attributes);
      var typeOk, wordOk := memoryType == 1 || memoryType == 2, wordSize == 1 || wordSize == 2 || wordSize == 4;
      && (code == Success <==> rangeNum < 10 && typeOk && wordOk && 1 <= attributes <= 3)
      && (code == InvalidMemRange <==> rangeNum >= 10)
      && (code == InvalidMemType <==> rangeNum < 10 && !typeOk)
      && (code == InvalidMemWordSize <==> rangeNum < 10 && typeOk && !wordOk)
      && (code == InvalidMemAttr <==> rangeNum < 10 && typeOk && wordOk && !(1 <= attributes <= 3))
  {
  }

  const EEPROM_ONLY: Record := Record(2, 0x1000, 0x100, 4, 3)

  /** A table with EEPROM only does not validate RAM there, but does validate EEPROM and any type. */
  method WrongType() returns (ram: Code, eeprom: Code, any: Code)
    ensures ram == InvalidMemType && eeprom == Success && any == Success
  {
    var t := new MemoryTable(UINT32_RANGE);
    ghost var before := t.records[..];
    var done := t.RangeSet(3, 2, 0x1000, 0x100, 4, 3);
    ram := t.ValidateRange(0x1000, 0x10, 1);
    eeprom := t.ValidateRange(0x1000, 0x10, 2);
    any := t.ValidateRange(0x1000, 0x10, 3);
    OnlyEeprom(before, t.records[..]);
  }

  lemma OnlyEeprom(before: seq<Record>, table: seq<Record>)
    requires |before| == MEM_TABLE_SIZE && Active(before) == [] && table == before[3 := EEPROM_ONLY]
    ensures Answer(table, 0x1000, 0x10, 1, UINT32_RANGE) == InvalidMemType
    ensures Answer(table, 0x1000, 0x10, 2, UINT32_RANGE) == Success && Answer(table, 0x1000, 0x10, 3, UINT32_RANGE) == Success
  {
    hide LastOf, Active;
    assert forall i | 0 <= i < |before| :: before[i] in before && before[i].memoryType == MEM_INVALID;
    LastActive(table, 3);
    LastOfPlain(0x1000, 0x10, UINT32_RANGE);
    LastOfPlain(0x1000, 0x100, UINT32_RANGE);
    assert table[3] in table && EEPROM_ONLY in Active(table);
    assert forall e <- Active(table) :: e == EEPROM_ONLY;
  }
}
