/**
 * Reading an npm archive: the ustar Interchange Format of the pax utility in IEEE Std 1003.1, without links or extended
 * headers. A byte is a character with a code below 256.
 */
module Archive {
  import opened Wrappers
  import opened Text

  type Bytes = string

  datatype ArchiveError =
    | BadChecksum | BadSize | Truncated | BadRoot | UnsafePath | Duplicate | BadType | Empty

  /** A relative path without empty, `.` or `..` parts, backslashes, NUL or a drive letter. */
  predicate SafePath(path: string) {
    && path != "" && '\\' !in path && '\0' !in path && path[0] != '/'
    && (var parts := Split(path, '/'); forall i | 0 <= i < |parts| :: parts[i] != "" && parts[i] != "." && parts[i] != "..")
    && !(|path| >= 2 && IsLetter(path[0]) && path[1] == ':')
  }

  predicate IsLetter(c: char) {
    'a' <= c <= 'z' || 'A' <= c <= 'Z'
  }

  // ----- header fields -----

  /** The text before the first NUL. */
  function BeforeNul(bytes: Bytes): string {
    if bytes == "" || bytes[0] == '\0' then "" else [bytes[0]] + BeforeNul(bytes[1..])
  }

  function Field(header: Bytes, start: nat, length: nat): string
    requires start + length <= |header|
  {
    BeforeNul(header[start..start + length])
  }

  predicate IsAsciiSpace(c: char) {
    c == ' ' || 9 as char <= c <= 13 as char
  }

  function TrimStart(text: string): string {
    if text != "" && IsAsciiSpace(text[0]) then TrimStart(text[1..]) else text
  }

  function TrimEnd(text: string): string {
    if text != "" && IsAsciiSpace(text[|text| - 1]) then TrimEnd(text[..|text| - 1]) else text
  }

  function Trim(text: string): string {
    TrimEnd(TrimStart(text))
  }

  predicate IsOctalDigit(c: char) {
    '0' <= c <= '7'
  }

  predicate AllOctal(text: string) {
    forall i | 0 <= i < |text| :: IsOctalDigit(text[i])
  }

  predicate IsOctal(text: string) {
    text != "" && AllOctal(text)
  }

  function OctalValue(text: string): nat
    requires AllOctal(text)
  {
    if text == "" then 0 else 8 * OctalValue(text[..|text| - 1]) + (text[|text| - 1] as nat - '0' as nat)
  }

  function OctalPrefix(text: string): (prefix: string)
    ensures prefix <= text && AllOctal(prefix)
  {
    if text != "" && IsOctalDigit(text[0]) then [text[0]] + OctalPrefix(text[1..]) else ""
  }

  /** `Number.parseInt(text, 8)` of trimmed text: an optional sign and the longest run of octal digits, or NaN. */
  function ParseOctal(text: string): Option<int> {
    var signed := text != "" && (text[0] == '-' || text[0] == '+');
    var digits := OctalPrefix(if signed then text[1..] else text);
    if digits == "" then None
    else Some(if signed && text[0] == '-' then 0 - OctalValue(digits) else OctalValue(digits) as int)
  }

  function Sum(bytes: Bytes): nat {
    if bytes == "" then 0 else bytes[0] as nat + Sum(bytes[1..])
  }

  const HEADER: nat := 512
  const CHECKSUM_START: nat := 148
  const CHECKSUM_END: nat := 156

  /** The sum of all header bytes with the checksum field itself read as spaces. */
  function Checksum(header: Bytes): nat
    requires |header| == HEADER
  {
    Sum(header[..CHECKSUM_START]) + 8 * 32 + Sum(header[CHECKSUM_END..])
  }

  datatype Head = Head(path: string, kind: string, size: nat)

  function ParseHeader(header: Bytes): Result<Head, ArchiveError>
    requires |header| == HEADER
  {
    var checksum := ParseOctal(Trim(Field(header, 148, 8)));
    :- Need(checksum == Some(Checksum(header)), BadChecksum);
    var prefix := Field(header, 345, 155);
    var path := (if prefix == "" then "" else prefix + "/") + Field(header, 0, 100);
    var sizeText := Trim(Field(header, 124, 12));
    :- Need(IsOctal(sizeText), BadSize);
    Ok(Head(path, Field(header, 156, 1), OctalValue(sizeText)))
  }

  const ROOT := "package/"

  function WithoutTrailingSlash(path: string): string {
    if path != "" && path[|path| - 1] == '/' then path[..|path| - 1] else path
  }

  /** What one entry adds to the files read so far. */
  function AddEntry(files: map<string, Bytes>, head: Head, data: Bytes): Result<map<string, Bytes>, ArchiveError> {
    var below := ROOT <= head.path;
    :- Need(below, BadRoot);
    var path := head.path[|ROOT|..];
    if head.kind == "5" then
      var directory := WithoutTrailingSlash(path);
      :- Need(directory == "" || SafePath(directory), UnsafePath);
      Ok(files)
    else
      :- Need(head.kind == "0" || head.kind == "", BadType);
      :- Need(SafePath(path), UnsafePath);
      :- Need(path !in files, Duplicate);
      Ok(files[path := data])
  }

  function Blocks(size: nat): (blocks: nat)
    ensures size <= 512 * blocks < size + 512
  {
    (size + 511) / 512
  }

  function Padded(size: nat): nat {
    512 * Blocks(size)
  }

  predicate AllZero(bytes: Bytes) {
    forall i | 0 <= i < |bytes| :: bytes[i] == '\0'
  }

  datatype Progress = Finished | Entry(files: map<string, Bytes>, size: nat)

  /** Reads the entry at an offset. A zero block ends the archive, and so does less than a whole block. */
  function ReadEntry(tar: Bytes, offset: nat, files: map<string, Bytes>): Result<Progress, ArchiveError> {
    if offset + HEADER > |tar| || AllZero(tar[offset..offset + HEADER]) then Ok(Finished)
    else
      var head :- ParseHeader(tar[offset..offset + HEADER]);
      :- Need(offset + HEADER + head.size <= |tar|, Truncated);
      var grown :- AddEntry(files, head, tar[offset + HEADER..offset + HEADER + head.size]);
      Ok(Entry(grown, head.size))
  }

  /** Reads the entries from an offset on. The next header starts at the next whole block after the data. */
  function ReadEntries(tar: Bytes, offset: nat, files: map<string, Bytes>): Result<map<string, Bytes>, ArchiveError>
    decreases if offset <= |tar| then |tar| - offset else 0
  {
    var step :- ReadEntry(tar, offset, files);
    if step.Finished? then Ok(files)
    else ReadEntries(tar, offset + HEADER + Padded(step.size), step.files)
  }

  // ----- the reader -----

  method ComputeChecksum(header: Bytes) returns (sum: nat)
    requires |header| == HEADER
    ensures sum == Checksum(header)
  {
    sum := 0;
    assert header[HEADER..] == "";
    for index := HEADER downto 0
      invariant index >= CHECKSUM_END ==> sum == Sum(header[index..])
      invariant CHECKSUM_START <= index < CHECKSUM_END ==>
                  sum == (CHECKSUM_END - index) * 32 + Sum(header[CHECKSUM_END..])
      invariant index < CHECKSUM_START ==>
                  sum == Sum(header[index..CHECKSUM_START]) + 8 * 32 + Sum(header[CHECKSUM_END..])
    {
      sum := sum + if CHECKSUM_START <= index < CHECKSUM_END then 32 else header[index] as nat;
      if index >= CHECKSUM_END {
        assert header[index..][1..] == header[index + 1..];
      } else if index < CHECKSUM_START {
        assert header[index..CHECKSUM_START][1..] == header[index + 1..CHECKSUM_START];
        assert index + 1 == CHECKSUM_START ==> header[index + 1..CHECKSUM_START] == "";
      }
    }
    assert header[0..CHECKSUM_START] == header[..CHECKSUM_START];
  }

  method ReadHeader(header: Bytes) returns (r: Result<Head, ArchiveError>)
    requires |header| == HEADER
    ensures r == ParseHeader(header)
  {
    var checksum := ParseOctal(Trim(Field(header, 148, 8)));
    var computed := ComputeChecksum(header);
    if checksum != Some(computed) {
      return Err(BadChecksum);
    }
    var path := Field(header, 345, 155);
    if path != "" {
      path := path + "/";
    }
    path := path + Field(header, 0, 100);
    var sizeText := Trim(Field(header, 124, 12));
    if !IsOctal(sizeText) {
      return Err(BadSize);
    }
    return Ok(Head(path, Field(header, 156, 1), OctalValue(sizeText)));
  }

  lemma {:induction false} SumOfConcat(a: Bytes, b: Bytes)
    ensures Sum(a + b) == Sum(a) + Sum(b)
  {
    if a == "" {
      assert a + b == b;
    } else {
      SumOfConcat(a[1..], b);
      assert (a + b)[1..] == a[1..] + b;
    }
  }

  lemma SumOfUpdate(bytes: Bytes, at: nat, byte: char)
    requires at < |bytes|
    ensures Sum(bytes[at := byte]) == Sum(bytes) - bytes[at] as nat + byte as nat
  {
    assert bytes == bytes[..at] + ([bytes[at]] + bytes[at + 1..]);
    assert bytes[at := byte] == bytes[..at] + ([byte] + bytes[at + 1..]);
    SumOfConcat(bytes[..at], [bytes[at]] + bytes[at + 1..]);
    SumOfConcat(bytes[..at], [byte] + bytes[at + 1..]);
  }

  /** The checksum covers every byte outside its own field: changing one of an accepted header refuses it. */
  lemma {:induction false} ChecksumCovers(header: Bytes, at: nat, byte: char)
    requires |header| == HEADER && ParseHeader(header).Ok?
    requires at < HEADER && !(CHECKSUM_START <= at < CHECKSUM_END) && byte != header[at]
    ensures ParseHeader(header[at := byte]) == Err(BadChecksum)
  {
    hide ParseOctal, Trim, BeforeNul, Sum, IsOctal, OctalValue;
    var changed := header[at := byte];
    assert changed[148..156] == header[148..156];
    if at < CHECKSUM_START {
      SumOfUpdate(header[..CHECKSUM_START], at, byte);
      assert changed[..CHECKSUM_START] == header[..CHECKSUM_START][at := byte];
      assert changed[CHECKSUM_END..] == header[CHECKSUM_END..];
    } else {
      SumOfUpdate(header[CHECKSUM_END..], at - CHECKSUM_END, byte);
      assert changed[CHECKSUM_END..] == header[CHECKSUM_END..][at - CHECKSUM_END := byte];
      assert changed[..CHECKSUM_START] == header[..CHECKSUM_START];
    }
  }

  /** Reads the entry at an offset of the archive, with every slice inside it. */
  method ReadEntryAt(tar: Bytes, offset: nat, files: map<string, Bytes>) returns (r: Result<Progress, ArchiveError>)
    requires offset + HEADER <= |tar|
    ensures r == ReadEntry(tar, offset, files)
  {
    hide ParseHeader, AddEntry;
    var header := tar[offset..offset + HEADER];
    if AllZero(header) {
      return Ok(Finished);
    }
    var head := ReadHeader(header);
    if head.Err? {
      return Err(head.error);
    }
    var size := head.value.size;
    if offset + HEADER + size > |tar| {
      return Err(Truncated);
    }
    var grown := AddEntry(files, head.value, tar[offset + HEADER..offset + HEADER + size]);
    if grown.Err? {
      return Err(grown.error);
    }
    return Ok(Entry(grown.value, size));
  }

  lemma {:induction false} EndOfArchive(tar: Bytes, offset: nat, files: map<string, Bytes>)
    requires offset + HEADER > |tar|
    ensures ReadEntries(tar, offset, files) == Ok(files)
  {
  }

  /** Reads an uncompressed archive: the offset is always a whole number of blocks and strictly grows. */
  method ReadNpmTarball(tar: Bytes) returns (r: Result<map<string, Bytes>, ArchiveError>)
    ensures match ReadEntries(tar, 0, map[])
            case Ok(files) => r == if files == map[] then Err(Empty) else Ok(files)
            case Err(e) => r == Err(e)
  {
    hide ReadEntry;
    var files: map<string, Bytes> := map[];
    var offset := 0;
    ghost var blocks: nat := 0;
    while offset + HEADER <= |tar|
      invariant offset == HEADER * blocks
      invariant ReadEntries(tar, offset, files) == ReadEntries(tar, 0, map[])
      decreases |tar| - offset
    {
      var step := ReadEntryAt(tar, offset, files);
      if step.Err? {
        return Err(step.error);
      }
      if step.value.Finished? {
        break;
      }
      files := step.value.files;
      blocks := blocks + 1 + Blocks(step.value.size);
      offset := offset + HEADER + Padded(step.value.size);
    }
    if offset + HEADER > |tar| {
      EndOfArchive(tar, offset, files);
    }
    return if files == map[] then Err(Empty) else Ok(files);
  }
}
