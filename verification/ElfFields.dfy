/**
 Byte order of ELF structures (tools/elf2cfetbl/elf2cfetbl.c with ELF_Structures.h): the
 in-place swaps of the header, section-header and symbol fields, and the proof that after a
 conditional swap the host reads every field as chapter 4 of the System V ABI encodes it.
 */
module ElfFields {
  import opened Basics

  // ---- Field values ----

  function Reverse(s: seq<Byte>): (r: seq<Byte>)
    ensures |r| == |s|
    ensures forall i | 0 <= i < |s| :: r[i] == s[|s| - 1 - i]
  {
    seq(|s|, i requires 0 <= i < |s| => s[|s| - 1 - i])
  }

  lemma ReverseTwice(s: seq<Byte>)
    ensures Reverse(Reverse(s)) == s
  {
  }

  /** The value of bytes whose least significant one comes first. */
  function Value(s: seq<Byte>): nat
    decreases s
  {
    if s == [] then 0 else s[0] as nat + 256 * Value(s[1..])
  }

  /** The value of a field in the given byte order: data encoding ELFDATA2LSB or ELFDATA2MSB. */
  function Decode(s: seq<Byte>, little: bool): nat {
    if little then Value(s) else Value(Reverse(s))
  }

  /** Reading reversed bytes in one order is reading the bytes in the other order. */
  lemma DecodeReversed(s: seq<Byte>, little: bool)
    ensures Decode(Reverse(s), little) == Decode(s, !little)
  {
    ReverseTwice(s);
  }

  // ---- Layouts ----

  datatype Field = Field(off: nat, size: nat)

  predicate Inside(f: Field, i: int) {
    f.off <= i < f.off + f.size
  }

  predicate Apart(f: Field, g: Field) {
    f.off + f.size <= g.off || g.off + g.size <= f.off
  }

  /** Fields that lie in a structure of `n` bytes and do not overlap. */
  predicate WellLaid(fs: seq<Field>, n: nat) {
    && Fits(fs, n)
    && forall i, j | 0 <= i < j < |fs| :: Apart(fs[i], fs[j])
  }

  function Slice(b: seq<Byte>, f: Field): (s: seq<Byte>)
    requires f.off + f.size <= |b|
    ensures |s| == f.size
  {
    b[f.off..f.off + f.size]
  }

  /** The structure with the bytes of one field in opposite order. */
  function SwapField(b: seq<Byte>, f: Field): (r: seq<Byte>)
    requires f.off + f.size <= |b|
    ensures |r| == |b|
  {
    b[..f.off] + Reverse(Slice(b, f)) + b[f.off + f.size..]
  }

  /** The position opposite to `i` within a field. */
  function Mirror(f: Field, i: nat): (m: nat)
    requires Inside(f, i)
    ensures Inside(f, m) && 2 * f.off + f.size - 1 - m == i
  {
    2 * f.off + f.size - 1 - i
  }

  lemma SwapFieldAt(b: seq<Byte>, f: Field, i: nat)
    requires f.off + f.size <= |b| && i < |b|
    ensures SwapField(b, f)[i] == if Inside(f, i) then b[Mirror(f, i)] else b[i]
  {
    hide Reverse;
    if Inside(f, i) {
      var s := Slice(b, f);
      assert SwapField(b, f)[i] == Reverse(s)[i - f.off];
      assert s[f.size - 1 - (i - f.off)] == b[Mirror(f, i)];
    }
  }

  /** A structure is the swapped one if each of its bytes is. */
  lemma SwapFieldIs(b: seq<Byte>, f: Field, r: seq<Byte>)
    requires f.off + f.size <= |b| == |r|
    requires forall i: nat | i < |b| :: r[i] == if Inside(f, i) then b[Mirror(f, i)] else b[i]
    ensures r == SwapField(b, f)
  {
    hide SwapField;
    forall i: nat | i < |b|
      ensures r[i] == SwapField(b, f)[i]
    {
      SwapFieldAt(b, f, i);
    }
  }

  /** All fields swapped, one after the other. */
  function SwapAll(b: seq<Byte>, fs: seq<Field>): (r: seq<Byte>)
    requires Fits(fs, |b|)
    ensures |r| == |b|
    decreases fs
  {
    if fs == [] then b else SwapField(SwapAll(b, fs[..|fs| - 1]), fs[|fs| - 1])
  }

  lemma SwapAllNext(b: seq<Byte>, fs: seq<Field>, k: nat)
    requires k < |fs| && Fits(fs, |b|)
    ensures SwapAll(b, fs[..k + 1]) == SwapField(SwapAll(b, fs[..k]), fs[k])
  {
    hide SwapField;
    assert fs[..k + 1][..k] == fs[..k];
  }

  predicate Fits(fs: seq<Field>, n: nat) {
    forall i | 0 <= i < |fs| :: fs[i].off + fs[i].size <= n
  }

  /** A byte outside all fields is not touched. */
  lemma {:induction false} SwapAllOutside(b: seq<Byte>, fs: seq<Field>, i: nat)
    requires Fits(fs, |b|) && i < |b| && forall j | 0 <= j < |fs| :: !Inside(fs[j], i)
    ensures SwapAll(b, fs)[i] == b[i]
    decreases fs
  {
    hide SwapField;
    if fs != [] {
      var m := |fs| - 1;
      assert !Inside(fs[m], i);
      SwapFieldAt(SwapAll(b, fs[..m]), fs[m], i);
      SwapAllOutside(b, fs[..m], i);
    }
  }

  /** A byte inside a field is mirrored within it, exactly once. */
  lemma {:induction false} SwapAllInside(b: seq<Byte>, fs: seq<Field>, j: nat, i: nat)
    requires WellLaid(fs, |b|) && j < |fs| && i < |b| && Inside(fs[j], i)
    ensures Mirror(fs[j], i) < |b| && SwapAll(b, fs)[i] == b[Mirror(fs[j], i)]
    decreases fs
  {
    hide SwapField, Mirror;
    var m := |fs| - 1;
    SwapFieldAt(SwapAll(b, fs[..m]), fs[m], i);
    if j == m {
      MirrorIsOutside(fs, m, Mirror(fs[m], i));
      SwapAllOutside(b, fs[..m], Mirror(fs[m], i));
    } else {
      MirrorIsOutside(fs, m, i);
      SwapAllInside(b, fs[..m], j, i);
    }
  }

  /** What is inside the last field is outside the ones before it, and conversely. */
  lemma MirrorIsOutside(fs: seq<Field>, m: nat, i: nat)
    requires |fs| == m + 1 && forall j, k | 0 <= j < k < |fs| :: Apart(fs[j], fs[k])
    ensures Inside(fs[m], i) ==> forall j | 0 <= j < m :: !Inside(fs[..m][j], i)
    ensures forall j | 0 <= j < m && Inside(fs[j], i) :: !Inside(fs[m], i)
  {
    forall j | 0 <= j < m
      ensures !(Inside(fs[j], i) && Inside(fs[m], i))
    {
      assert Apart(fs[j], fs[m]);
    }
  }

  lemma FieldFits(fs: seq<Field>, n: nat, j: nat)
    requires Fits(fs, n) && j < |fs|
    ensures fs[j].off + fs[j].size <= n
  {
  }

  lemma MirroredIsReversed(b: seq<Byte>, r: seq<Byte>, f: Field, i: nat)
    requires f.off + f.size <= |b| == |r| && i < f.size
    requires Inside(f, f.off + i) && r[f.off + i] == b[Mirror(f, f.off + i)]
    ensures Slice(r, f)[i] == Reverse(Slice(b, f))[i]
  {
    hide Reverse;
    assert Slice(b, f)[f.size - 1 - i] == b[Mirror(f, f.off + i)];
  }

  lemma SwapAllFieldAt(b: seq<Byte>, fs: seq<Field>, j: nat, i: nat)
    requires WellLaid(fs, |b|) && j < |fs| && i < fs[j].size
    ensures Slice(SwapAll(b, fs), fs[j])[i] == Reverse(Slice(b, fs[j]))[i]
  {
    hide SwapAll, Reverse, Fits, Slice, Mirror;
    FieldFits(fs, |b|, j);
    SwapAllInside(b, fs, j, fs[j].off + i);
    MirroredIsReversed(b, SwapAll(b, fs), fs[j], i);
  }

  /** Every field of a well-laid structure comes out reversed exactly once. */
  lemma SwapAllField(b: seq<Byte>, fs: seq<Field>, j: nat)
    requires WellLaid(fs, |b|) && j < |fs|
    ensures Slice(SwapAll(b, fs), fs[j]) == Reverse(Slice(b, fs[j]))
  {
    var x, y := Slice(SwapAll(b, fs), fs[j]), Reverse(Slice(b, fs[j]));
    hide *;
    forall i | 0 <= i < |x|
      ensures x[i] == y[i]
    {
      SwapAllFieldAt(b, fs, j, i);
    }
  }

  /** Swapping twice restores the structure. */
  lemma SwapAllInvolutive(b: seq<Byte>, fs: seq<Field>)
    requires WellLaid(fs, |b|)
    ensures SwapAll(SwapAll(b, fs), fs) == b
  {
    hide SwapAll;
    var r := SwapAll(b, fs);
    forall i: nat | i < |b|
      ensures SwapAll(r, fs)[i] == b[i]
    {
      if j :| 0 <= j < |fs| && Inside(fs[j], i) {
        SwapAllInside(r, fs, j, i);
        SwapAllInside(b, fs, j, Mirror(fs[j], i));
      } else {
        SwapAllOutside(r, fs, i);
        SwapAllOutside(b, fs, i);
      }
    }
  }

  // ---- In-place swaps ----

  function Exchanged(s: seq<Byte>, i: nat, j: nat): (r: seq<Byte>)
    requires i < |s| && j < |s|
    ensures |r| == |s|
  {
    s[i := s[j]][j := s[i]]
  }

  lemma Exchanges2(s: seq<Byte>, off: nat)
    requires off + 2 <= |s|
    ensures Exchanged(s, off + 1, off)
         == SwapField(s, Field(off, 2))
  {
    SwapFieldIs(s, Field(off, 2), Exchanged(s, off + 1, off));
  }

  lemma Exchanges4(s: seq<Byte>, off: nat)
    requires off + 4 <= |s|
    ensures Exchanged(Exchanged(s, off + 3, off), off + 2, off + 1)
         == SwapField(s, Field(off, 4))
  {
    SwapFieldIs(s, Field(off, 4), Exchanged(Exchanged(s, off + 3, off), off + 2, off + 1));
  }

  lemma Exchanges8(s: seq<Byte>, off: nat)
    requires off + 8 <= |s|
    ensures Exchanged(Exchanged(Exchanged(Exchanged(s, off + 7, off), off + 6, off + 1), off + 5, off + 2), off + 4, off + 3)
         == SwapField(s, Field(off, 8))
  {
    var half := Exchanged(Exchanged(s, off + 7, off), off + 6, off + 1);
    SwapFieldIs(s, Field(off, 8), Exchanged(Exchanged(half, off + 5, off + 2), off + 4, off + 3));
  }

  /** Exchanges two bytes through a temporary. */
  method Exchange(b: array<Byte>, i: nat, j: nat)
    requires i < b.Length && j < b.Length
    modifies b
    ensures b[..] == Exchanged(old(b[..]), i, j)
  {
    var temp := b[i];
    b[i] := b[j];
    b[j] := temp;
  }

  /** The first `k` fields of the layout have been swapped. */
  ghost predicate Swapped(b: seq<Byte>, was: seq<Byte>, fs: seq<Field>, k: nat) {
    && |was| == |b| && Fits(fs, |was|)
    && k <= |fs| && b == SwapAll(was, fs[..k])
  }

  lemma NoneSwapped(b: seq<Byte>, fs: seq<Field>)
    requires Fits(fs, |b|)
    ensures Swapped(b, b, fs, 0)
  {
  }

  lemma EachSwapped(b: seq<Byte>, was: seq<Byte>, fs: seq<Field>)
    requires Swapped(b, was, fs, |fs|)
    ensures |was| == |b| && Fits(fs, |was|) && b == SwapAll(was, fs)
  {
    assert fs[..|fs|] == fs;
  }

  /**
   Swaps the bytes of a field in place. The ghost arguments say which field of which layout
   this is, so that a sequence of such calls is seen to swap the whole layout.
   */
  method SwapUInt16(b: array<Byte>, off: nat, ghost was: seq<Byte>, ghost fs: seq<Field>, ghost k: nat)
    requires Swapped(b[..], was, fs, k) && k < |fs| && fs[k] == Field(off, 2)
    modifies b
    ensures Swapped(b[..], was, fs, k + 1)
  {
    hide SwapAll;
    Exchanges2(b[..], off);
    Exchange(b, off + 1, off);
    SwapAllNext(was, fs, k);
  }

  method SwapUInt32(b: array<Byte>, off: nat, ghost was: seq<Byte>, ghost fs: seq<Field>, ghost k: nat)
    requires Swapped(b[..], was, fs, k) && k < |fs| && fs[k] == Field(off, 4)
    modifies b
    ensures Swapped(b[..], was, fs, k + 1)
  {
    hide SwapAll;
    Exchanges4(b[..], off);
    Exchange(b, off + 3, off);
    Exchange(b, off + 2, off + 1);
    SwapAllNext(was, fs, k);
  }

  method SwapUInt64(b: array<Byte>, off: nat, ghost was: seq<Byte>, ghost fs: seq<Field>, ghost k: nat)
    requires Swapped(b[..], was, fs, k) && k < |fs| && fs[k] == Field(off, 8)
    modifies b
    ensures Swapped(b[..], was, fs, k + 1)
  {
    hide SwapAll;
    Exchanges8(b[..], off);
    Exchange(b, off + 7, off);
    Exchange(b, off + 6, off + 1);
    Exchange(b, off + 5, off + 2);
    Exchange(b, off + 4, off + 3);
    SwapAllNext(was, fs, k);
  }
}
