/**
 An encoder for the structures of chapter 4 (Object Files) of the System V ABI, written from
 the order and the widths of their members alone (tools/elf2cfetbl/ELF_Structures.h), and the
 round trips through the reader: what is encoded in a file is what the converter reads there.
 */
module ElfEncode {
  import opened Basics
  import opened ElfFields
  import opened ElfReader
  import opened TableFile

  // ---- Numbers ----

  /** A number in `n` bytes, least or most significant first. */
  function Put(v: nat, n: nat, little: bool): (s: seq<Byte>)
    ensures |s| == n
  {
    if little then Bytes(v, n) else Reverse(Bytes(v, n))
  }

  lemma PutIsRead(v: nat, n: nat, little: bool)
    requires v < Power(n)
    ensures Decode(Put(v, n, little), little) == v
  {
    hide Bytes, Value, Power, Reverse;
    ValueOfBytes(v, n);
    ReverseTwice(Bytes(v, n));
  }

  lemma ByteOrders()
    ensures Decode([0x34, 0x12], true) == 0x1234 && Decode([0x12, 0x34], false) == 0x1234
    ensures Decode([0x78, 0x56, 0x34, 0x12], true) == 0x12345678 && Decode([0x12, 0x34, 0x56, 0x78], false) == 0x12345678
  {
    TwoBytes(0x34, 0x12);
    FourBytesValue(0x78, 0x56, 0x34, 0x12);
    assert Reverse([0x12, 0x34]) == [0x34, 0x12];
    assert Reverse([0x12, 0x34, 0x56, 0x78]) == [0x78, 0x56, 0x34, 0x12];
    hide Value, Reverse;
  }

  lemma TwoBytes(a: Byte, b: Byte)
    ensures Value([a, b]) == a as nat + 256 * b as nat
  {
    assert [a, b][1..] == [b] && [b][1..] == [];
    assert Value([b]) == b as nat;
  }

  lemma FourBytesValue(a: Byte, b: Byte, c: Byte, d: Byte)
    ensures Value([a, b, c, d]) == a as nat + 256 * b as nat + 65536 * c as nat + 16777216 * d as nat
  {
    assert [a, b, c, d][1..] == [b, c, d] && [b, c, d][1..] == [c, d];
    TwoBytes(c, d);
    assert Value([b, c, d]) == b as nat + 256 * Value([c, d]);
    assert Value([a, b, c, d]) == a as nat + 256 * Value([b, c, d]);
  }

  // ---- Members ----

  datatype Member = Member(value: nat, width: nat)

  predicate Small(ms: seq<Member>) {
    forall i | 0 <= i < |ms| :: ms[i].value < Power(ms[i].width)
  }

  /** Where member `k` starts. */
  function OffsetOf(ms: seq<Member>, k: nat): nat
    requires k <= |ms|
    decreases k
  {
    if k == 0 then 0 else OffsetOf(ms, k - 1) + ms[k - 1].width
  }

  /** The members one after the other. */
  function EncodeAll(ms: seq<Member>, little: bool): (s: seq<Byte>)
    ensures |s| == OffsetOf(ms, |ms|)
    decreases ms
  {
    if ms == [] then []
    else
      var m := |ms| - 1;
      OffsetsOfPrefix(ms, m, m);
      EncodeAll(ms[..m], little) + Put(ms[m].value, ms[m].width, little)
  }

  lemma {:induction false} OffsetsOfPrefix(ms: seq<Member>, m: nat, k: nat)
    requires k <= m <= |ms|
    ensures OffsetOf(ms[..m], k) == OffsetOf(ms, k)
    decreases k
  {
    if k > 0 {
      OffsetsOfPrefix(ms, m, k - 1);
    }
  }

  lemma {:induction false} OffsetsGrow(ms: seq<Member>, j: nat, k: nat)
    requires j <= k <= |ms|
    ensures OffsetOf(ms, j) <= OffsetOf(ms, k)
    decreases k
  {
    if j < k {
      OffsetsGrow(ms, j, k - 1);
    }
  }

  lemma {:induction false} MemberAt(ms: seq<Member>, k: nat, little: bool)
    requires k < |ms|
    ensures OffsetOf(ms, k) + ms[k].width <= |EncodeAll(ms, little)|
    ensures EncodeAll(ms, little)[OffsetOf(ms, k)..OffsetOf(ms, k) + ms[k].width] == Put(ms[k].value, ms[k].width, little)
    decreases ms
  {
    hide Put;
    var m := |ms| - 1;
    OffsetsGrow(ms, k + 1, |ms|);
    OffsetsOfPrefix(ms, m, k);
    OffsetsOfPrefix(ms, m, m);
    if k < m {
      MemberAt(ms[..m], k, little);
      var s := EncodeAll(ms[..m], little);
      assert EncodeAll(ms, little)[..|s|] == s;
      assert ms[..m][k] == ms[k];
    }
  }

  /** A member is read back from its place. */
  lemma MemberIsRead(ms: seq<Member>, k: nat, little: bool, lo: nat, hi: nat)
    requires k < |ms| && Small(ms) && OffsetOf(ms, k) == lo && lo + ms[k].width == hi
    ensures hi <= |EncodeAll(ms, little)| && Decode(EncodeAll(ms, little)[lo..hi], little) == ms[k].value
  {
    hide EncodeAll, OffsetOf, Decode, Put, Power;
    MemberAt(ms, k, little);
    PutIsRead(ms[k].value, ms[k].width, little);
  }

  // ---- The structures, members in the ABI's order ----

  datatype ElfHeader = ElfHeader(etype: nat, machine: nat, version: nat, entry: nat, phoff: nat, shoff: nat, flags: nat,
                           ehsize: nat, phentsize: nat, phnum: nat, shentsize: nat, shnum: nat, shstrndx: nat)

  datatype SectionHeader = SectionHeader(name: nat, kind: nat, flags: nat, addr: nat, offset: nat, size: nat, link: nat, info: nat,
                                         addralign: nat, entsize: nat)

  datatype SymbolEntry = SymbolEntry(name: nat, value: nat, size: nat, info: nat, other: nat, shndx: nat)

  /** The width of addresses and offsets. */
  function Wide(is32: bool): nat {
    if is32 then 4 else 8
  }

  function HeaderMembers(is32: bool, h: ElfHeader): (ms: seq<Member>)
    ensures |ms| == 13
  {
    [Member(h.etype, 2), Member(h.machine, 2), Member(h.version, 4), Member(h.entry, Wide(is32)), Member(h.phoff, Wide(is32)),
     Member(h.shoff, Wide(is32)), Member(h.flags, 4), Member(h.ehsize, 2), Member(h.phentsize, 2), Member(h.phnum, 2),
     Member(h.shentsize, 2), Member(h.shnum, 2), Member(h.shstrndx, 2)]
  }

  /** The identification: magic number, class, data encoding, version, and nine bytes that do not matter. */
  function Ident(is32: bool, little: bool, rest: seq<Byte>): (s: seq<Byte>) {
    [0x7F, 0x45, 0x4C, 0x46, if is32 then 1 else 2, if little then 1 else 2, 1] + rest
  }

  function SectionMembers(is32: bool, h: SectionHeader): (ms: seq<Member>)
    ensures |ms| == 10
  {
    var w := Wide(is32);
    [Member(h.name, 4), Member(h.kind, 4), Member(h.flags, w), Member(h.addr, w), Member(h.offset, w), Member(h.size, w),
     Member(h.link, 4), Member(h.info, 4), Member(h.addralign, w), Member(h.entsize, w)]
  }

  function SymbolMembers(is32: bool, h: SymbolEntry): (ms: seq<Member>)
    ensures |ms| == 6
  {
    if is32 then
      [Member(h.name, 4), Member(h.value, 4), Member(h.size, 4), Member(h.info, 1), Member(h.other, 1), Member(h.shndx, 2)]
    else
      [Member(h.name, 4), Member(h.info, 1), Member(h.other, 1), Member(h.shndx, 2), Member(h.value, 8), Member(h.size, 8)]
  }

  // ---- Which bytes the reader takes for a field ----

  lemma FieldBytes(e: Elf, off: nat, st: Struct, j: nat, lo: nat, hi: nat)
    requires e.Holds(off, st) && j < FieldCount(st) && lo <= hi <= SizeOf(st)
    requires j < |Layout(st)| && Layout(st)[j] == Field(lo, hi - lo)
    ensures e.Get(off, st, j) == Decode(e.file[off + lo..off + hi], e.little)
  {
    hide Layout, SizeOf, Decode;
    var raw := e.file[off..off + SizeOf(st)];
    assert raw[lo..hi] == e.file[off + lo..off + hi];
  }

  /** The bytes of the ELF header that the program uses, by their places in the file. */
  lemma HeaderBytes(e: Elf)
    requires HasHeader(e)
    ensures |e.file| >= (if e.is32 then 52 else 64)
    ensures HeaderField(e, E_TYPE) == Decode(e.file[16..18], e.little)
    ensures HeaderField(e, E_MACHINE) == Decode(e.file[18..20], e.little)
    ensures HeaderField(e, E_VERSION) == Decode(e.file[20..24], e.little)
    ensures HeaderField(e, E_SHOFF) == if e.is32 then Decode(e.file[32..36], e.little) else Decode(e.file[40..48], e.little)
    ensures HeaderField(e, E_SHENTSIZE) == if e.is32 then Decode(e.file[46..48], e.little) else Decode(e.file[58..60], e.little)
    ensures HeaderField(e, E_SHNUM) == if e.is32 then Decode(e.file[48..50], e.little) else Decode(e.file[60..62], e.little)
    ensures HeaderField(e, E_SHSTRNDX) == if e.is32 then Decode(e.file[50..52], e.little) else Decode(e.file[62..64], e.little)
  {
    hide Decode, GabiField, WellLaid;
    var st := Ehdr(e.is32);
    FieldBytes(e, 0, st, E_TYPE, 16, 18);
    FieldBytes(e, 0, st, E_MACHINE, 18, 20);
    FieldBytes(e, 0, st, E_VERSION, 20, 24);
    if e.is32 {
      FieldBytes(e, 0, st, E_SHOFF, 32, 36);
      FieldBytes(e, 0, st, E_SHENTSIZE, 46, 48);
      FieldBytes(e, 0, st, E_SHNUM, 48, 50);
      FieldBytes(e, 0, st, E_SHSTRNDX, 50, 52);
    } else {
      FieldBytes(e, 0, st, E_SHOFF, 40, 48);
      FieldBytes(e, 0, st, E_SHENTSIZE, 58, 60);
      FieldBytes(e, 0, st, E_SHNUM, 60, 62);
      FieldBytes(e, 0, st, E_SHSTRNDX, 62, 64);
    }
  }

  /** The bytes of section header `index`, by their places in it. */
  lemma SectionBytes(e: Elf, names: nat, index: nat)
    requires HasSection(e, index)
    ensures var s, b, little := SectionOf(e, names, index), e.file[SectionOffset(e, index)..], e.little;
      && |b| >= (if e.is32 then 40 else 64)
      && SectionField(e, index, SH_NAME) == Decode(b[0..4], little)
      && s.kind == Decode(b[4..8], little)
      && s.addr == (if e.is32 then Decode(b[12..16], little) else Decode(b[16..24], little))
      && s.offset == (if e.is32 then Decode(b[16..20], little) else Decode(b[24..32], little))
      && s.size == (if e.is32 then Decode(b[20..24], little) else Decode(b[32..40], little))
      && s.link == (if e.is32 then Decode(b[24..28], little) else Decode(b[40..44], little))
      && s.entsize == (if e.is32 then Decode(b[36..40], little) else Decode(b[56..64], little))
  {
    hide Decode, GabiField, WellLaid, NameFrom, SeekOrStay, SectionOffset;
    var st, off, b := Shdr(e.is32), SectionOffset(e, index), e.file[SectionOffset(e, index)..];
    SectionSlice(e, off, st, SH_NAME, 0, 4);
    SectionSlice(e, off, st, SH_TYPE, 4, 8);
    if e.is32 {
      SectionSlice(e, off, st, SH_ADDR, 12, 16);
      SectionSlice(e, off, st, SH_OFFSET, 16, 20);
      SectionSlice(e, off, st, SH_SIZE, 20, 24);
      SectionSlice(e, off, st, SH_LINK, 24, 28);
      SectionSlice(e, off, st, SH_ENTSIZE, 36, 40);
    } else {
      SectionSlice(e, off, st, SH_ADDR, 16, 24);
      SectionSlice(e, off, st, SH_OFFSET, 24, 32);
      SectionSlice(e, off, st, SH_SIZE, 32, 40);
      SectionSlice(e, off, st, SH_LINK, 40, 44);
      SectionSlice(e, off, st, SH_ENTSIZE, 56, 64);
    }
  }

  lemma SectionSlice(e: Elf, off: nat, st: Struct, j: nat, lo: nat, hi: nat)
    requires e.Holds(off, st) && j < FieldCount(st) && lo <= hi <= SizeOf(st)
    requires j < |Layout(st)| && Layout(st)[j] == Field(lo, hi - lo)
    ensures e.Get(off, st, j) == Decode(e.file[off..][lo..hi], e.little)
  {
    FieldBytes(e, off, st, j, lo, hi);
    hide Layout, SizeOf, Decode;
    assert e.file[off..][lo..hi] == e.file[off + lo..off + hi];
  }

  /** The bytes of the symbol that the loop calls number `index`, by their places in the entry. */
  lemma SymbolBytes(e: Elf, t: Tables, index: nat)
    requires Readable(t.symtab, index, e.is32, |e.file|)
    ensures var s, b, little := SymbolAt(e, t, index), e.file[SymbolOffset(t.symtab, index)..], e.little;
      && |b| >= (if e.is32 then 16 else 24)
      && e.Get(SymbolOffset(t.symtab, index), Sym(e.is32), ST_NAME) == Decode(b[0..4], little)
      && s.value == (if e.is32 then Decode(b[4..8], little) else Decode(b[8..16], little))
      && s.size == (if e.is32 then Decode(b[8..12], little) else Decode(b[16..24], little))
      && s.shndx == (if e.is32 then Decode(b[14..16], little) else Decode(b[6..8], little))
  {
    hide Decode, GabiField, WellLaid, NameFrom, SeekOrStay, SymbolOffset;
    var st, off := Sym(e.is32), SymbolOffset(t.symtab, index);
    SectionSlice(e, off, st, ST_NAME, 0, 4);
    if e.is32 {
      SectionSlice(e, off, st, ST_VALUE, 4, 8);
      SectionSlice(e, off, st, ST_SIZE, 8, 12);
      SectionSlice(e, off, st, ST_SHNDX, 14, 16);
    } else {
      SectionSlice(e, off, st, ST_VALUE, 8, 16);
      SectionSlice(e, off, st, ST_SIZE, 16, 24);
      SectionSlice(e, off, st, ST_SHNDX, 6, 8);
    }
  }

  /** The accepted files, by their bytes. */
  lemma AcceptedBytes(file: seq<Byte>, knownMachine: nat -> bool)
    ensures Accepted(file, knownMachine) <==>
      && |file| >= 52
      && file[0] == 0x7F && file[1] == 0x45 && file[2] == 0x4C && file[3] == 0x46
      && (file[4] == 1 || (file[4] == 2 && |file| >= 64)) && (file[5] == 1 || file[5] == 2) && file[6] == 1
      && Decode(file[16..18], file[5] == 1) <= 4
      && knownMachine(Decode(file[18..20], file[5] == 1))
      && Decode(file[20..24], file[5] == 1) == 1
  {
    hide Decode, GabiField, WellLaid, Layout;
    if |file| >= 52 && (file[4] == 1 || (file[4] == 2 && |file| >= 64)) {
      var e := Elf(file, file[4] == 1, file[5] == 1);
      HeaderBytes(e);
    }
  }

  // ---- Round trips ----

  /** The bytes from `off` on are these members. */
  ghost predicate EncodedAt(file: seq<Byte>, off: nat, ms: seq<Member>, little: bool) {
    && Small(ms)
    && off + OffsetOf(ms, |ms|) <= |file|
    && file[off..off + OffsetOf(ms, |ms|)] == EncodeAll(ms, little)
  }

  lemma EncodedIsRead(file: seq<Byte>, off: nat, ms: seq<Member>, little: bool, k: nat, lo: nat, hi: nat)
    requires EncodedAt(file, off, ms, little) && k < |ms| && OffsetOf(ms, k) == lo && lo + ms[k].width == hi
    ensures off + hi <= |file| && Decode(file[off + lo..off + hi], little) == ms[k].value
    ensures file[off..][lo..hi] == file[off + lo..off + hi]
  {
    hide EncodeAll, OffsetOf, Decode, Small;
    MemberIsRead(ms, k, little, lo, hi);
    InnerSlice(file, off, off + OffsetOf(ms, |ms|), lo, hi);
  }

  lemma InnerSlice(file: seq<Byte>, off: nat, end: nat, lo: nat, hi: nat)
    requires off <= end <= |file| && lo <= hi && off + hi <= end
    ensures file[off..end][lo..hi] == file[off + lo..off + hi] && file[off..][lo..hi] == file[off + lo..off + hi]
  {
    var x, y, z := file[off..end][lo..hi], file[off + lo..off + hi], file[off..][lo..hi];
    forall k | 0 <= k < hi - lo
      ensures x[k] == y[k] && z[k] == y[k]
    {
      assert file[off..end][lo + k] == file[off + (lo + k)] && file[off..][lo + k] == file[off + (lo + k)];
    }
  }

  lemma HeaderOffsets(is32: bool, h: ElfHeader)
    ensures var ms := HeaderMembers(is32, h);
      && OffsetOf(ms, 0) == 0 && OffsetOf(ms, 1) == 2 && OffsetOf(ms, 2) == 4 && OffsetOf(ms, 3) == 8
      && OffsetOf(ms, 5) == (if is32 then 16 else 24) && OffsetOf(ms, 10) == (if is32 then 30 else 42)
      && OffsetOf(ms, 11) == (if is32 then 32 else 44) && OffsetOf(ms, 12) == (if is32 then 34 else 46)
      && OffsetOf(ms, 13) == (if is32 then 36 else 48)
  {
    var ms := HeaderMembers(is32, h);
    assert OffsetOf(ms, 3) == 8;
    assert OffsetOf(ms, 5) == 8 + 2 * Wide(is32);
    assert OffsetOf(ms, 7) == 12 + 3 * Wide(is32);
    assert OffsetOf(ms, 9) == OffsetOf(ms, 7) + 4;
    assert OffsetOf(ms, 11) == OffsetOf(ms, 9) + 4;
  }

  /** A file that starts with an encoded ELF header. */
  ghost predicate StartsWith(file: seq<Byte>, is32: bool, little: bool, h: ElfHeader) {
    && |file| >= 16
    && file[..7] == Ident(is32, little, [])
    && EncodedAt(file, 16, HeaderMembers(is32, h), little)
  }

  lemma HeaderRoundTrip(file: seq<Byte>, is32: bool, little: bool, h: ElfHeader)
    requires StartsWith(file, is32, little, h)
    ensures var e := Elf(file, is32, little);
      && HasHeader(e)
      && HeaderField(e, E_TYPE) == h.etype && HeaderField(e, E_MACHINE) == h.machine && HeaderField(e, E_VERSION) == h.version
      && HeaderField(e, E_SHOFF) == h.shoff && HeaderField(e, E_SHENTSIZE) == h.shentsize
      && HeaderField(e, E_SHNUM) == h.shnum && HeaderField(e, E_SHSTRNDX) == h.shstrndx
  {
    hide EncodeAll, Decode, Small, HeaderField, EncodedAt, GabiField;
    var e, ms := Elf(file, is32, little), HeaderMembers(is32, h);
    HeaderOffsets(is32, h);
    hide OffsetOf;
    HeaderFits(file, is32, little, h);
    HeaderBytes(e);
    EncodedIsRead(file, 16, ms, little, 0, 0, 2);
    EncodedIsRead(file, 16, ms, little, 1, 2, 4);
    EncodedIsRead(file, 16, ms, little, 2, 4, 8);
    if is32 {
      EncodedIsRead(file, 16, ms, little, 5, 16, 20);
      EncodedIsRead(file, 16, ms, little, 10, 30, 32);
      EncodedIsRead(file, 16, ms, little, 11, 32, 34);
      EncodedIsRead(file, 16, ms, little, 12, 34, 36);
    } else {
      EncodedIsRead(file, 16, ms, little, 5, 24, 32);
      EncodedIsRead(file, 16, ms, little, 10, 42, 44);
      EncodedIsRead(file, 16, ms, little, 11, 44, 46);
      EncodedIsRead(file, 16, ms, little, 12, 46, 48);
    }
  }

  lemma HeaderFits(file: seq<Byte>, is32: bool, little: bool, h: ElfHeader)
    requires StartsWith(file, is32, little, h)
    ensures HasHeader(Elf(file, is32, little))
  {
    hide EncodeAll, Small;
    HeaderOffsets(is32, h);
  }

  /** The program accepts exactly such files, with a type up to 4, a known machine and version 1. */
  lemma EncodedHeaderIsAccepted(file: seq<Byte>, is32: bool, little: bool, h: ElfHeader, knownMachine: nat -> bool)
    requires StartsWith(file, is32, little, h)
    ensures Accepted(file, knownMachine) <==> h.etype <= 4 && knownMachine(h.machine) && h.version == 1
    ensures file[4] == (if is32 then 1 else 2) && file[5] == (if little then 1 else 2)
  {
    hide EncodedAt, HeaderField, Decode;
    var id := Ident(is32, little, []);
    assert forall i | 0 <= i < 7 :: file[i] == file[..7][i] == id[i];
    HeaderRoundTrip(file, is32, little, h);
    HeaderBytes(Elf(file, is32, little));
    AcceptedBytes(file, knownMachine);
  }

  lemma SectionOffsets(is32: bool, h: SectionHeader)
    ensures var ms := SectionMembers(is32, h);
      && OffsetOf(ms, 0) == 0 && OffsetOf(ms, 1) == 4 && OffsetOf(ms, 3) == (if is32 then 12 else 16)
      && OffsetOf(ms, 4) == (if is32 then 16 else 24) && OffsetOf(ms, 5) == (if is32 then 20 else 32)
      && OffsetOf(ms, 6) == (if is32 then 24 else 40) && OffsetOf(ms, 9) == (if is32 then 36 else 56)
      && OffsetOf(ms, 10) == (if is32 then 40 else 64)
  {
    var ms := SectionMembers(is32, h);
    assert OffsetOf(ms, 3) == 8 + Wide(is32);
    assert OffsetOf(ms, 5) == 8 + 3 * Wide(is32);
    assert OffsetOf(ms, 7) == 12 + 4 * Wide(is32);
    assert OffsetOf(ms, 9) == 16 + 5 * Wide(is32);
  }

  /** An encoded section header is read with the values that were encoded. */
  lemma SectionRoundTrip(e: Elf, names: nat, index: nat, h: SectionHeader)
    requires HasSection(e, index) && EncodedAt(e.file, SectionOffset(e, index), SectionMembers(e.is32, h), e.little)
    ensures SectionField(e, index, SH_NAME) == h.name
    ensures var s := SectionOf(e, names, index);
      s.kind == h.kind && s.addr == h.addr && s.offset == h.offset && s.size == h.size && s.link == h.link && s.entsize == h.entsize
  {
    hide EncodeAll, Decode, Small, EncodedAt, SectionOf, SectionField, HasHeader, SectionOffset;
    var off, ms := SectionOffset(e, index), SectionMembers(e.is32, h);
    SectionOffsets(e.is32, h);
    hide OffsetOf;
    SectionBytes(e, names, index);
    EncodedIsRead(e.file, off, ms, e.little, 0, 0, 4);
    EncodedIsRead(e.file, off, ms, e.little, 1, 4, 8);
    if e.is32 {
      EncodedIsRead(e.file, off, ms, e.little, 3, 12, 16);
      EncodedIsRead(e.file, off, ms, e.little, 4, 16, 20);
      EncodedIsRead(e.file, off, ms, e.little, 5, 20, 24);
      EncodedIsRead(e.file, off, ms, e.little, 6, 24, 28);
      EncodedIsRead(e.file, off, ms, e.little, 9, 36, 40);
    } else {
      EncodedIsRead(e.file, off, ms, e.little, 3, 16, 24);
      EncodedIsRead(e.file, off, ms, e.little, 4, 24, 32);
      EncodedIsRead(e.file, off, ms, e.little, 5, 32, 40);
      EncodedIsRead(e.file, off, ms, e.little, 6, 40, 44);
      EncodedIsRead(e.file, off, ms, e.little, 9, 56, 64);
    }
  }

  lemma SymbolOffsets(is32: bool, h: SymbolEntry)
    ensures var ms := SymbolMembers(is32, h);
      && OffsetOf(ms, 0) == 0 && OffsetOf(ms, 6) == (if is32 then 16 else 24)
      && (is32 ==> OffsetOf(ms, 1) == 4 && OffsetOf(ms, 2) == 8 && OffsetOf(ms, 5) == 14)
      && (!is32 ==> OffsetOf(ms, 3) == 6 && OffsetOf(ms, 4) == 8 && OffsetOf(ms, 5) == 16)
  {
    var ms := SymbolMembers(is32, h);
    assert OffsetOf(ms, 3) == if is32 then 12 else 6;
    assert OffsetOf(ms, 5) == if is32 then 14 else 16;
  }

  /** An encoded symbol is read with the values that were encoded. */
  lemma SymbolRoundTrip(e: Elf, t: Tables, index: nat, h: SymbolEntry)
    requires Readable(t.symtab, index, e.is32, |e.file|)
    requires EncodedAt(e.file, SymbolOffset(t.symtab, index), SymbolMembers(e.is32, h), e.little)
    ensures e.Get(SymbolOffset(t.symtab, index), Sym(e.is32), ST_NAME) == h.name
    ensures var s := SymbolAt(e, t, index); s.value == h.value && s.size == h.size && s.shndx == h.shndx
  {
    hide EncodeAll, Decode, Small, EncodedAt, SymbolAt, SymbolOffset, GabiField;
    var off, ms := SymbolOffset(t.symtab, index), SymbolMembers(e.is32, h);
    SymbolOffsets(e.is32, h);
    hide OffsetOf;
    SymbolBytes(e, t, index);
    EncodedIsRead(e.file, off, ms, e.little, 0, 0, 4);
    if e.is32 {
      EncodedIsRead(e.file, off, ms, e.little, 1, 4, 8);
      EncodedIsRead(e.file, off, ms, e.little, 2, 8, 12);
      EncodedIsRead(e.file, off, ms, e.little, 5, 14, 16);
    } else {
      EncodedIsRead(e.file, off, ms, e.little, 4, 8, 16);
      EncodedIsRead(e.file, off, ms, e.little, 5, 16, 24);
      EncodedIsRead(e.file, off, ms, e.little, 3, 6, 8);
    }
  }
}
