/**
 The table file that tools/elf2cfetbl/elf2cfetbl.c writes: a big-endian file header and
 table header followed by the object's bytes. The format has its own reader here, and the
 written file is related to the CRC tool, which skips a header of fixed length.
 */
module TableFile {
  import opened Basics
  import opened ElfFields
  import Crc

  type Word = w: nat | w < UINT32_RANGE

  // ---- Words ----

  function Power(k: nat): (p: nat)
    ensures p > 0
    decreases k
  {
    if k == 0 then 1 else 256 * Power(k - 1)
  }

  lemma FourBytes()
    ensures Power(4) == UINT32_RANGE
  {
    assert Power(2) == 0x1_0000;
  }

  /** The byte with a given value, reached by counting up. */
  function ByteOf(n: nat): (b: Byte)
    requires n < 256
    ensures b as nat == n
  {
    if n == 0 then 0 else
      var b := ByteOf(n - 1);
      NextByte(b);
      b + 1
  }

  lemma NextByte(b: Byte)
    requires b < 255
    ensures (b + 1) as nat == b as nat + 1
  {
  }

  /** The `k` lowest bytes of a number, least significant first. */
  function Bytes(v: nat, k: nat): (s: seq<Byte>)
    ensures |s| == k
    decreases k
  {
    if k == 0 then [] else [ByteOf(v % 256)] + Bytes(v / 256, k - 1)
  }

  lemma {:induction false} ValueOfBytes(v: nat, k: nat)
    requires v < Power(k)
    ensures Value(Bytes(v, k)) == v
    decreases k
  {
    hide ByteOf;
    if k > 0 {
      ValueOfBytes(v / 256, k - 1);
      var s := Bytes(v, k);
      assert s[1..] == Bytes(v / 256, k - 1);
    }
  }

  /** A word as it lies in the memory of a host. */
  function InMemory(v: Word, hostLittle: bool): (s: seq<Byte>)
    ensures |s| == 4
  {
    if hostLittle then Bytes(v, 4) else Reverse(Bytes(v, 4))
  }

  /** A word in the byte order of the file. */
  function BigEndian(v: Word): (s: seq<Byte>)
    ensures |s| == 4
  {
    Reverse(Bytes(v, 4))
  }

  lemma BigEndianValue(v: Word)
    ensures Decode(BigEndian(v), false) == v
  {
    hide Value, Bytes, Reverse;
    FourBytes();
    ReverseTwice(Bytes(v, 4));
    ValueOfBytes(v, 4);
  }

  function Words(ws: seq<Word>): (s: seq<Byte>)
    ensures |s| == 4 * |ws|
    decreases ws
  {
    if ws == [] then [] else Words(ws[..|ws| - 1]) + BigEndian(ws[|ws| - 1])
  }

  lemma WordsNext(ws: seq<Word>, k: nat)
    requires k < |ws|
    ensures Words(ws[..k + 1]) == Words(ws[..k]) + BigEndian(ws[k])
  {
    hide BigEndian;
    assert ws[..k + 1][..k] == ws[..k];
  }

  lemma {:induction false} WordAt(ws: seq<Word>, k: nat)
    requires k < |ws|
    ensures Words(ws)[4 * k..4 * k + 4] == BigEndian(ws[k])
    decreases ws
  {
    hide BigEndian;
    var m := |ws| - 1;
    if k < m {
      WordAt(ws[..m], k);
      assert Words(ws)[4 * k..4 * k + 4] == Words(ws[..m])[4 * k..4 * k + 4];
    }
  }

  // ---- Text fields ----

  function Zeros(n: nat): (s: seq<Byte>)
    ensures |s| == n && forall i | 0 <= i < n :: s[i] == 0
  {
    seq(n, _ => 0)
  }

  /** The number of padding bytes after a field of `n` bytes. */
  function Pad(n: nat, align: bool): (p: nat) {
    if align && n % 4 != 0 then 4 - n % 4 else 0
  }

  /** With alignment a field takes the least multiple of four that holds it; without, its own length. */
  lemma PaddingRoundsUp(n: nat)
    ensures (n + Pad(n, true)) % 4 == 0
    ensures forall m: nat | n <= m && m % 4 == 0 :: n + Pad(n, true) <= m
    ensures Pad(n, false) == 0
  {
  }

  function TextField(text: seq<Byte>, n: nat, align: bool): (s: seq<Byte>)
    requires |text| <= n
    ensures |s| == n + Pad(n, align) && forall i | 0 <= i < |s| :: s[i] == if i < |text| then text[i] else 0
  {
    text + Zeros(n - |text|) + Zeros(Pad(n, align))
  }

  /** What a reader takes from a text field: the characters before the first zero. */
  function TextOf(s: seq<Byte>): (t: seq<Byte>)
    ensures |t| <= |s| && 0 !in t
    decreases s
  {
    if s == [] || s[0] == 0 then [] else [s[0]] + TextOf(s[1..])
  }

  lemma {:induction false} TextOfPadded(text: seq<Byte>, rest: seq<Byte>)
    requires 0 !in text && (rest != [] ==> rest[0] == 0)
    ensures TextOf(text + rest) == text
    decreases text
  {
    if text == [] {
      assert text + rest == rest;
    } else {
      assert text[0] in text;
      assert (text + rest)[0] == text[0] && (text + rest)[1..] == text[1..] + rest;
      TextOfPadded(text[1..], rest);
    }
  }

  lemma TextOfField(text: seq<Byte>, n: nat, align: bool)
    requires |text| < n && 0 !in text
    ensures TextOf(TextField(text, n, align)) == text
  {
    hide TextOf;
    var rest := Zeros(n - |text|) + Zeros(Pad(n, align));
    assert TextField(text, n, align) == text + rest;
    TextOfPadded(text, rest);
  }

  // ---- The file ----

  /** Capacities of the two text fields, and whether headers are padded to a multiple of four bytes. */
  datatype Format = Format(descLen: nat, nameLen: nat, align: bool)

  const DEFAULT_FORMAT: Format := Format(32, 38, true)

  /** What a table file says. */
  datatype Image = Image(fileWords: seq<Word>, description: seq<Byte>,
                         tableWords: seq<Word>, tableName: seq<Byte>, payload: seq<Byte>)

  predicate Fitting(im: Image, fmt: Format) {
    && |im.fileWords| == 8 && |im.tableWords| == 3
    && |im.description| < fmt.descLen && 0 !in im.description
    && |im.tableName| < fmt.nameLen && 0 !in im.tableName
  }

  function DescriptionSize(fmt: Format): nat {
    fmt.descLen + Pad(fmt.descLen, fmt.align)
  }

  function NameSize(fmt: Format): nat {
    fmt.nameLen + Pad(fmt.nameLen, fmt.align)
  }

  function HeaderSize(fmt: Format): nat {
    32 + DescriptionSize(fmt) + 12 + NameSize(fmt)
  }

  function Header(im: Image, fmt: Format): (s: seq<Byte>)
    requires Fitting(im, fmt)
    ensures |s| == HeaderSize(fmt)
  {
    Words(im.fileWords) + TextField(im.description, fmt.descLen, fmt.align)
      + Words(im.tableWords) + TextField(im.tableName, fmt.nameLen, fmt.align)
  }

  function Encode(im: Image, fmt: Format): (s: seq<Byte>)
    requires Fitting(im, fmt)
    ensures |s| == HeaderSize(fmt) + |im.payload|
  {
    Header(im, fmt) + im.payload
  }

  /** The big-endian value of `k` words from an offset. */
  function WordsFrom(b: seq<Byte>, off: nat, k: nat): (ws: seq<nat>)
    requires off + 4 * k <= |b|
    ensures |ws| == k && forall i | 0 <= i < k :: ws[i] == Decode(b[off + 4 * i..off + 4 * i + 4], false)
  {
    seq(k, i requires 0 <= i < k => Decode(b[off + 4 * i..off + 4 * i + 4], false))
  }

  /** A reader of table files: offsets from the format alone. */
  datatype Parsed = TooShort | Parsed(fileWords: seq<nat>, description: seq<Byte>,
                                      tableWords: seq<nat>, tableName: seq<Byte>, payload: seq<Byte>)

  function Parse(b: seq<Byte>, fmt: Format): (p: Parsed) {
    if |b| < HeaderSize(fmt) then TooShort
    else
      var d := 32 + DescriptionSize(fmt);
      var h := HeaderSize(fmt);
      Parsed(WordsFrom(b, 0, 8), TextOf(b[32..d]), WordsFrom(b, d, 3), TextOf(b[d + 12..h]), b[h..])
  }

  lemma SliceOfSlice(b: seq<Byte>, lo: nat, hi: nat, j: nat)
    requires lo + j + 4 <= hi <= |b|
    ensures b[lo..hi][j..j + 4] == b[lo + j..lo + j + 4]
  {
    var x, y := b[lo..hi][j..j + 4], b[lo + j..lo + j + 4];
    forall k | 0 <= k < 4
      ensures x[k] == y[k]
    {
      assert b[lo..hi][j + k] == b[lo + (j + k)];
    }
  }

  lemma WordFromWords(b: seq<Byte>, off: nat, ws: seq<Word>, i: nat)
    requires i < |ws| && off + 4 * |ws| <= |b| && b[off..off + 4 * |ws|] == Words(ws)
    ensures Decode(b[off + 4 * i..off + 4 * i + 4], false) == ws[i]
  {
    hide *;
    WordAt(ws, i);
    SliceOfSlice(b, off, off + 4 * |ws|, 4 * i);
    BigEndianValue(ws[i]);
  }

  lemma WordsFromWords(b: seq<Byte>, off: nat, ws: seq<Word>)
    requires off + 4 * |ws| <= |b| && b[off..off + 4 * |ws|] == Words(ws)
    ensures WordsFrom(b, off, |ws|) == ws
  {
    hide Words, Decode, BigEndian;
    forall i | 0 <= i < |ws|
      ensures WordsFrom(b, off, |ws|)[i] == ws[i]
    {
      WordFromWords(b, off, ws, i);
    }
  }

  /** The parts of an encoded file lie where the format puts them. */
  lemma PartsOf(im: Image, fmt: Format)
    requires Fitting(im, fmt)
    ensures var b := Encode(im, fmt); var d := 32 + DescriptionSize(fmt); var h := HeaderSize(fmt);
      && b[0..32] == Words(im.fileWords)
      && b[32..d] == TextField(im.description, fmt.descLen, fmt.align)
      && b[d..d + 12] == Words(im.tableWords)
      && b[d + 12..h] == TextField(im.tableName, fmt.nameLen, fmt.align)
      && b[h..] == im.payload
  {
    hide Words, TextField, Pad;
    var u, v := Words(im.fileWords), TextField(im.description, fmt.descLen, fmt.align);
    var x, y := Words(im.tableWords), TextField(im.tableName, fmt.nameLen, fmt.align);
    FivePieces(u, v, x, y, im.payload);
  }

  lemma FivePieces(u: seq<Byte>, v: seq<Byte>, x: seq<Byte>, y: seq<Byte>, z: seq<Byte>)
    ensures var b := u + v + x + y + z;
      && b[0..|u|] == u
      && b[|u|..|u| + |v|] == v
      && b[|u| + |v|..|u| + |v| + |x|] == x
      && b[|u| + |v| + |x|..|u| + |v| + |x| + |y|] == y
      && b[|u| + |v| + |x| + |y|..] == z
  {
  }

  /** Reading back a written file gives everything that was written. */
  lemma ParseEncode(im: Image, fmt: Format)
    requires Fitting(im, fmt)
    ensures Parse(Encode(im, fmt), fmt)
         == Parsed(im.fileWords, im.description, im.tableWords, im.tableName, im.payload)
  {
    hide Words, TextField, TextOf, WordsFrom, Encode, Pad;
    var b, d := Encode(im, fmt), 32 + DescriptionSize(fmt);
    PartsOf(im, fmt);
    WordsFromWords(b, 0, im.fileWords);
    WordsFromWords(b, d, im.tableWords);
    TextOfField(im.description, fmt.descLen, fmt.align);
    TextOfField(im.tableName, fmt.nameLen, fmt.align);
  }

  // ---- The CRC tool on a written file ----

  /**
   The tool looks at exactly the payload if and only if the headers take 116 bytes, as they do
   with the default format. Otherwise it misses payload bytes or includes header bytes.
   */
  lemma ToolSeesThePayload(im: Image, fmt: Format)
    requires Fitting(im, fmt) && im.payload != []
    ensures Crc.Payload(Encode(im, fmt)) == im.payload <==> HeaderSize(fmt) == Crc.HEADER_SIZE
  {
    hide HeaderSize, Header;
    var b := Encode(im, fmt);
    if HeaderSize(fmt) == Crc.HEADER_SIZE {
      ToolSeesEveryPayload(im, fmt);
    } else {
      assert |Crc.Payload(b)| != |im.payload|;
    }
  }

  lemma PadOf(n: nat, words: nat, rest: nat)
    requires n == 4 * words + rest && rest < 4
    ensures Pad(n, true) == (if rest == 0 then 0 else 4 - rest) && Pad(n, false) == 0
  {
    assert n % 4 == rest;
  }

  lemma DefaultHeaderSize()
    ensures HeaderSize(DEFAULT_FORMAT) == Crc.HEADER_SIZE
    ensures HeaderSize(Format(32, 40, true)) == HeaderSize(Format(32, 40, false)) == Crc.HEADER_SIZE
    ensures HeaderSize(Format(32, 38, false)) == Crc.HEADER_SIZE - 2
  {
    hide Pad;
    PadOf(32, 8, 0);
    PadOf(38, 9, 2);
    PadOf(40, 10, 0);
    assert HeaderSize(DEFAULT_FORMAT) == Crc.HEADER_SIZE;
    assert HeaderSize(Format(32, 40, true)) == Crc.HEADER_SIZE;
    assert HeaderSize(Format(32, 40, false)) == Crc.HEADER_SIZE;
  }

  /** With headers of that size the tool sees every payload, the empty one included. */
  lemma ToolSeesEveryPayload(im: Image, fmt: Format)
    requires Fitting(im, fmt) && HeaderSize(fmt) == Crc.HEADER_SIZE
    ensures Crc.Payload(Encode(im, fmt)) == im.payload
  {
    hide HeaderSize, Header;
    assert Encode(im, fmt)[HeaderSize(fmt)..] == im.payload;
  }

  /** The places of the parts with a 32-byte description and a name of 38 or 40 bytes. */
  lemma DefaultPlaces(b: seq<Byte>, nameLen: nat)
    requires |b| >= 116 && (nameLen == 38 || nameLen == 40)
    ensures Parse(b, Format(32, nameLen, true))
         == Parsed(WordsFrom(b, 0, 8), TextOf(b[32..64]), WordsFrom(b, 64, 3), TextOf(b[76..116]), b[116..])
  {
    hide Pad, WordsFrom, TextOf;
    PadOf(32, 8, 0);
    PadOf(38, 9, 2);
    PadOf(40, 10, 0);
  }

  // ---- Writing ----

  /** Appends one header word: stored by the host, swapped on a little-endian host, written. */
  method PutWord(out: seq<Byte>, v: Word, hostLittle: bool, ghost base: seq<Byte>, ghost ws: seq<Word>, ghost k: nat)
    returns (r: seq<Byte>)
    requires k < |ws| && ws[k] == v && out == base + Words(ws[..k])
    ensures r == base + Words(ws[..k + 1])
  {
    hide SwapAll, Bytes, Reverse, Words;
    var word := InMemory(v, hostLittle);
    if hostLittle {
      var b := new Byte[4](i requires 0 <= i < 4 => word[i]);
      assert b[..] == word;
      ghost var fs := [Field(0, 4)];
      NoneSwapped(word, fs);
      SwapUInt32(b, 0, word, fs, 0);
      WholeWordSwapped(word, b[..], fs);
      word := b[..];
    }
    assert word == BigEndian(v);
    WordsNext(ws, k);
    r := out + word;
  }

  lemma WholeWordSwapped(word: seq<Byte>, b: seq<Byte>, fs: seq<Field>)
    requires |word| == 4 && fs == [Field(0, 4)] && Swapped(b, word, fs, 1)
    ensures b == Reverse(word)
  {
    hide Reverse;
    assert fs[..1] == fs;
    SwapAllField(word, fs, 0);
    assert Slice(b, fs[0]) == b && Slice(word, fs[0]) == word;
  }

  /** Appends a text field: the zero-filled buffer holding the text, then the padding bytes. */
  method PutText(out: seq<Byte>, text: seq<Byte>, n: nat, align: bool) returns (r: seq<Byte>)
    requires |text| <= n
    ensures r == out + TextField(text, n, align)
  {
    hide TextField;
    r := out + (text + Zeros(n - |text|));
    ghost var filled := r;
    if align && n % 4 != 0 {
      var i := 0;
      while i < 4 - n % 4
        invariant 0 <= i <= 4 - n % 4 && r == filled + Zeros(i)
      {
        assert Zeros(i) + [0] == Zeros(i + 1);
        r := r + [0];
        i := i + 1;
      }
    }
    TextFieldIs(out, text, n, align, r);
  }

  lemma TextFieldIs(out: seq<Byte>, text: seq<Byte>, n: nat, align: bool, r: seq<Byte>)
    requires |text| <= n
    requires r == out + (text + Zeros(n - |text|)) + Zeros(Pad(n, align))
      || (Pad(n, align) == 0 && r == out + (text + Zeros(n - |text|)))
    ensures r == out + TextField(text, n, align)
  {
  }
}
