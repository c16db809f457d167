/** A ustar writer, and the proof that reading inverts it. */
module ArchiveWriter {
  import opened Wrappers
  import opened Text
  import opened Archive

  /** A regular file or a directory, with its path split into the prefix and name fields. */
  datatype Item = Item(prefix: string, name: string, directory: bool, data: Bytes)

  function PathOf(item: Item): string {
    if item.prefix == "" then item.name else item.prefix + "/" + item.name
  }

  function Zeros(n: nat): (zeros: Bytes)
    ensures |zeros| == n && AllZero(zeros)
  {
    seq(n, _ => '\0')
  }

  /** A text in a field of fixed length, padded with NUL. */
  function PadTo(text: string, length: nat): (field: Bytes)
    requires |text| <= length
    ensures |field| == length
  {
    text + Zeros(length - |text|)
  }

  function OctalDigit(d: nat): (c: char)
    requires d < 8
    ensures IsOctalDigit(c) && c as int - '0' as int == d
  {
    ('0' as int + d) as char
  }

  /** The lowest `digits` octal digits of a number. */
  function Octal(n: nat, digits: nat): (text: string)
    ensures |text| == digits && AllOctal(text)
  {
    if digits == 0 then "" else Octal(n / 8, digits - 1) + [OctalDigit(n % 8)]
  }

  function Pow8(n: nat): nat {
    if n == 0 then 1 else 8 * Pow8(n - 1)
  }

  lemma {:induction false} OctalRoundTrip(n: nat, digits: nat)
    requires n < Pow8(digits)
    ensures OctalValue(Octal(n, digits)) == n
  {
    if digits > 0 {
      OctalRoundTrip(n / 8, digits - 1);
      var text := Octal(n, digits);
      assert text[..|text| - 1] == Octal(n / 8, digits - 1);
    }
  }

  /** The fields before the checksum: name, mode and owners, size, and time. */
  function Front(item: Item): Bytes
    requires |item.name| <= 100 && |item.data| < Pow8(11)
  {
    PadTo(item.name, 100) + PadTo("0000644", 24) + PadTo(Octal(|item.data|, 11), 12) + PadTo("00000000000", 12)
  }

  /** The fields after the checksum: type, link, magic, names and devices, and prefix. */
  function Back(item: Item): Bytes
    requires |item.prefix| <= 155
  {
    [if item.directory then '5' else '0'] + PadTo("", 100) + PadTo("ustar", 88) + PadTo(item.prefix, 155) + Zeros(12)
  }

  /** The entries the format can hold: both path fields fit, in ASCII without NUL, and the size has eleven octal digits. */
  predicate Fits(item: Item) {
    && |item.name| <= 100 && |item.prefix| <= 155 && |item.data| < Pow8(11)
    && AsciiText(item.name) && AsciiText(item.prefix)
    && item.name != "" && item.name[0] != '\0'
  }

  predicate AsciiText(text: string) {
    forall i | 0 <= i < |text| :: '\0' < text[i] < 128 as char
  }

  function Header(item: Item): Bytes
    requires Fits(item)
  {
    var sum := Sum(Front(item)) + 8 * 32 + Sum(Back(item));
    Front(item) + (Octal(sum, 6) + "\0 ") + Back(item)
  }

  function Entry(item: Item): Bytes
    requires Fits(item)
  {
    Header(item) + item.data + Zeros(Padded(|item.data|) - |item.data|)
  }

  function Entries(items: seq<Item>): Bytes
    requires forall item <- items :: Fits(item)
  {
    if items == [] then "" else Entry(items[0]) + Entries(items[1..])
  }

  /** All entries and the two zero blocks at the end. */
  function Write(items: seq<Item>): Bytes
    requires forall item <- items :: Fits(item)
  {
    Entries(items) + Zeros(1024)
  }

  /** The files an archive of these items holds. */
  function FilesOf(items: seq<Item>, files: map<string, Bytes>): map<string, Bytes> {
    if items == [] then files
    else
      FilesOf(items[1..], Added(items[0], files))
  }

  function RelativePath(item: Item): string {
    var path := PathOf(item);
    if |path| >= |ROOT| then path[|ROOT|..] else ""
  }

  /** An item below `package/` with a safe path. */
  predicate PackableItem(item: Item) {
    && Fits(item) && ROOT <= PathOf(item)
    && (if item.directory then
          WithoutTrailingSlash(RelativePath(item)) == "" || SafePath(WithoutTrailingSlash(RelativePath(item)))
        else SafePath(RelativePath(item)))
  }

  /** Packable items with no file twice. */
  predicate Packable(items: seq<Item>) {
    && (forall i | 0 <= i < |items| :: PackableItem(items[i]))
    && forall i, j | 0 <= i < j < |items| && !items[i].directory && !items[j].directory ::
         RelativePath(items[i]) != RelativePath(items[j])
  }

  // ----- field lemmas -----

  lemma {:induction false} BeforeNulOfPadded(text: string, rest: Bytes)
    requires (forall i | 0 <= i < |text| :: text[i] != '\0') && (rest == "" || rest[0] == '\0')
    ensures BeforeNul(text + rest) == text
  {
    if text == "" {
      assert text + rest == rest;
    } else {
      BeforeNulOfPadded(text[1..], rest);
      assert (text + rest)[1..] == text[1..] + rest;
    }
  }

  lemma PaddedField(text: string, length: nat)
    requires |text| <= length && forall i | 0 <= i < |text| :: text[i] != '\0'
    ensures BeforeNul(PadTo(text, length)) == text
  {
    BeforeNulOfPadded(text, Zeros(length - |text|));
  }

  lemma {:induction false} TrimOfOctal(text: string)
    requires IsOctal(text)
    ensures Trim(text) == text && OctalPrefix(text) == text && ParseOctal(text) == Some(OctalValue(text))
  {
    OctalPrefixOfOctal(text);
  }

  lemma {:induction false} OctalPrefixOfOctal(text: string)
    requires AllOctal(text)
    ensures OctalPrefix(text) == text
  {
    if text != "" {
      OctalPrefixOfOctal(text[1..]);
    }
  }

  lemma {:induction false} SumBound(bytes: Bytes)
    requires forall i | 0 <= i < |bytes| :: bytes[i] < 256 as char
    ensures Sum(bytes) <= 255 * |bytes|
  {
    if bytes != "" {
      SumBound(bytes[1..]);
    }
  }

  lemma FrontFields(item: Item)
    requires Fits(item)
    ensures |Front(item)| == CHECKSUM_START
    ensures Front(item)[0..100] == PadTo(item.name, 100)
    ensures Front(item)[124..136] == PadTo(Octal(|item.data|, 11), 12)
    ensures forall i | 0 <= i < |Front(item)| :: Front(item)[i] < 256 as char
  {
  }

  lemma BackFields(item: Item)
    requires Fits(item)
    ensures |Back(item)| == HEADER - CHECKSUM_END
    ensures Back(item)[0..1] == [if item.directory then '5' else '0']
    ensures Back(item)[189..344] == PadTo(item.prefix, 155)
    ensures forall i | 0 <= i < |Back(item)| :: Back(item)[i] < 256 as char
  {
  }

  lemma HeaderFields(item: Item)
    requires Fits(item)
    ensures |Header(item)| == HEADER
    ensures Field(Header(item), 0, 100) == item.name
    ensures Field(Header(item), 124, 12) == Octal(|item.data|, 11)
    ensures Field(Header(item), 156, 1) == if item.directory then "5" else "0"
    ensures Field(Header(item), 345, 155) == item.prefix
    ensures Header(item)[..CHECKSUM_START] == Front(item) && Header(item)[CHECKSUM_END..] == Back(item)
    ensures Header(item)[148..156] == Octal(Sum(Front(item)) + 8 * 32 + Sum(Back(item)), 6) + "\0 "
  {
    FrontFields(item);
    BackFields(item);
    var header := Header(item);
    assert header[0..100] == PadTo(item.name, 100);
    assert header[124..136] == PadTo(Octal(|item.data|, 11), 12);
    assert header[156..157] == [if item.directory then '5' else '0'];
    assert header[345..500] == PadTo(item.prefix, 155);
    PaddedField(item.name, 100);
    PaddedField(Octal(|item.data|, 11), 12);
    PaddedField(item.prefix, 155);
    BeforeNulOfPadded([if item.directory then '5' else '0'], "");
  }

  lemma ChecksumRoundTrip(item: Item)
    requires Fits(item)
    ensures |Header(item)| == HEADER
    ensures ParseOctal(Trim(Field(Header(item), 148, 8))) == Some(Checksum(Header(item)))
  {
    hide Front, Back, Header, Octal, OctalValue, Sum, BeforeNul, TrimStart, TrimEnd;
    var sum := Sum(Front(item)) + 8 * 32 + Sum(Back(item));
    HeaderFields(item);
    FrontFields(item);
    BackFields(item);
    SumBound(Front(item));
    SumBound(Back(item));
    assert Pow8(6) == 262144;
    OctalRoundTrip(sum, 6);
    BeforeNulOfPadded(Octal(sum, 6), "\0 ");
    TrimOfOctal(Octal(sum, 6));
  }

  /** A written header passes its checksum and parses to the item's path, kind and size. */
  lemma HeaderRoundTrip(item: Item)
    requires Fits(item)
    ensures |Header(item)| == HEADER && !AllZero(Header(item))
    ensures ParseHeader(Header(item)) == Ok(Head(PathOf(item), if item.directory then "5" else "0", |item.data|))
  {
    hide Header, Field, Trim, ParseOctal, Checksum, OctalValue, Octal;
    var header := Header(item);
    var size := Octal(|item.data|, 11);
    HeaderFields(item);
    ChecksumRoundTrip(item);
    TrimOfOctal(size);
    OctalRoundTrip(|item.data|, 11);
    FirstByte(item);
    assert "" + item.name == item.name;
  }

  lemma FirstByte(item: Item)
    requires Fits(item)
    ensures |Header(item)| == HEADER && !AllZero(Header(item))
  {
    HeaderFields(item);
    FrontFields(item);
    assert Header(item)[0] == Front(item)[0..100][0] == item.name[0];
  }

  // ----- the round trip -----

  /** What one packed item adds to the files. */
  function Added(item: Item, files: map<string, Bytes>): map<string, Bytes> {
    if item.directory then files else files[RelativePath(item) := item.data]
  }

  /** Reading at the start of a written entry reads exactly that entry. */
  lemma {:induction false} EntryRoundTrip(before: Bytes, item: Item, after: Bytes, files: map<string, Bytes>)
    requires PackableItem(item) && (item.directory || RelativePath(item) !in files)
    ensures ReadEntry(before + Entry(item) + after, |before|, files) == Ok(Archive.Entry(Added(item, files), |item.data|))
    ensures |Entry(item)| == HEADER + Padded(|item.data|)
  {
    hide ParseHeader, Header, Fits, SafePath, PathOf, AllZero;
    var tar := before + Entry(item) + after;
    HeaderRoundTrip(item);
    var start := |before|;
    assert tar[start..start + HEADER] == Header(item);
    assert tar[start + HEADER..start + HEADER + |item.data|] == item.data;
  }

  lemma ZerosEndArchive(before: Bytes, files: map<string, Bytes>)
    ensures ReadEntry(before + Zeros(1024), |before|, files) == Ok(Finished)
  {
    var tar := before + Zeros(1024);
    assert tar[|before|..|before| + HEADER] == Zeros(HEADER);
  }

  /** Reading on from the start of written entries returns the files so far and theirs. */
  lemma {:induction false} EntriesRoundTrip(before: Bytes, items: seq<Item>, files: map<string, Bytes>)
    requires Packable(items)
    requires forall i | 0 <= i < |items| && !items[i].directory :: RelativePath(items[i]) !in files
    ensures ReadEntries(before + Entries(items) + Zeros(1024), |before|, files) == Ok(FilesOf(items, files))
    decreases |items|
  {
    hide ReadEntry, Entry, Fits, SafePath, RelativePath;
    var tar := before + Entries(items) + Zeros(1024);
    if items == [] {
      ZerosEndArchive(before, files);
      assert tar == before + Zeros(1024);
    } else {
      var item, rest := items[0], items[1..];
      var after := Entries(rest) + Zeros(1024);
      assert tar == before + Entry(item) + after;
      EntryRoundTrip(before, item, after, files);
      EntriesRoundTrip(before + Entry(item), rest, Added(item, files));
      assert tar == (before + Entry(item)) + Entries(rest) + Zeros(1024);
    }
  }

  /** Reading inverts writing: any items with at least one file come back as the same files. */
  lemma ReadInvertsWrite(items: seq<Item>)
    requires Packable(items)
    ensures ReadEntries(Write(items), 0, map[]) == Ok(FilesOf(items, map[]))
  {
    EntriesRoundTrip("", items, map[]);
    assert "" + Entries(items) + Zeros(1024) == Write(items);
  }

  /** The files of packable items: each file's path holds its own data and nothing else is there. */
  lemma {:induction false} FilesOfItems(items: seq<Item>, files: map<string, Bytes>)
    requires Packable(items)
    ensures forall path :: path in FilesOf(items, files) <==>
              path in files || exists i | 0 <= i < |items| :: !items[i].directory && RelativePath(items[i]) == path
    ensures forall i | 0 <= i < |items| && !items[i].directory ::
              FilesOf(items, files)[RelativePath(items[i])] == items[i].data
    ensures forall path <- files | forall i | 0 <= i < |items| && !items[i].directory :: RelativePath(items[i]) != path ::
              FilesOf(items, files)[path] == files[path]
  {
    hide PackableItem, RelativePath;
    if items != [] {
      var item, rest := items[0], items[1..];
      FilesOfItems(rest, Added(item, files));
      assert items == [item] + rest;
    }
  }
}
