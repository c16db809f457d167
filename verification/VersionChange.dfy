/** Whether a commit changes only what a version pull request writes. */
module VersionChange {
  import opened Wrappers
  import opened Text
  import Versions

  const MANIFEST := "projects/sdk/package.json"
  const CHANGELOG := "projects/sdk/CHANGELOG.md"
  const CHANGESETS := "projects/.changeset/"
  const PRE_STATE := "projects/.changeset/pre.json"
  const REGULAR := "100644"

  datatype Entry = Entry(
    status: char, srcMode: string, dstMode: string, srcBlob: string, dstBlob: string, path: string)

  datatype Thrown = NotRawDiff | NotJson

  // ---------------------------------------------------------------- the raw change list

  predicate IsMode(text: string) {
    |text| == 6 && forall i | 0 <= i < 6 :: IsDigit(text[i])
  }

  predicate IsHexDigit(c: char) {
    IsDigit(c) || 'a' <= c <= 'f'
  }

  predicate IsBlob(text: string) {
    40 <= |text| <= 64 && forall i | 0 <= i < |text| :: IsHexDigit(text[i])
  }

  /** An entry that git can write: every field in its form, and no NUL in the path. */
  predicate IsWritable(entry: Entry) {
    && IsMode(entry.srcMode) && IsMode(entry.dstMode) && IsBlob(entry.srcBlob) && IsBlob(entry.dstBlob)
    && 'A' <= entry.status <= 'Z' && '\0' !in entry.path
  }

  function HeaderFields(entry: Entry): seq<string> {
    [":" + entry.srcMode, entry.dstMode, entry.srcBlob, entry.dstBlob, [entry.status]]
  }

  function PrintHeader(entry: Entry): string {
    Join(HeaderFields(entry), ' ')
  }

  /** `git diff --raw -z --no-renames --no-abbrev` */
  function PrintRaw(entries: seq<Entry>): string {
    Terminated(Records(entries), '\0')
  }

  function Records(entries: seq<Entry>): seq<string> {
    if entries == [] then [] else [PrintHeader(entries[0]), entries[0].path] + Records(entries[1..])
  }

  function ParseEntry(header: string, path: string): Option<Entry> {
    var parts := Split(header, ' ');
    if |parts| != 5 || parts[0] == "" || parts[0][0] != ':' || |parts[4]| != 1 then None
    else
      var entry := Entry(parts[4][0], parts[0][1..], parts[1], parts[2], parts[3], path);
      if IsMode(entry.srcMode) && IsMode(entry.dstMode) && IsBlob(entry.srcBlob) && IsBlob(entry.dstBlob)
         && 'A' <= entry.status <= 'Z'
      then Some(entry)
      else None
  }

  function ParseRecords(fields: seq<string>): Result<seq<Entry>, Thrown> {
    if fields == [] then Ok([])
    else if |fields| == 1 then Err(NotRawDiff)
    else
      var entry := ParseEntry(fields[0], fields[1]);
      if entry.None? then Err(NotRawDiff)
      else
        var rest :- ParseRecords(fields[2..]);
        Ok([entry.value] + rest)
  }

  function Fields(raw: string): seq<string> {
    var fields := Split(raw, '\0');
    if fields[|fields| - 1] == "" then fields[..|fields| - 1] else fields
  }

  method ParseRawDiff(raw: string) returns (result: Result<seq<Entry>, Thrown>)
    ensures result == ParseRecords(Fields(raw))
  {
    hide ParseEntry;
    var fields := Fields(raw);
    var entries: seq<Entry> := [];
    var index := 0;
    assert fields[0..] == fields;
    assert forall found: seq<Entry> :: [] + found == found;
    while index < |fields|
      invariant 0 <= index <= |fields|
      invariant var rest := ParseRecords(fields[index..]);
        ParseRecords(fields) == if rest.Ok? then Ok(entries + rest.value) else rest
    {
      var rest := fields[index..];
      if index + 1 >= |fields| {
        return Err(NotRawDiff);
      }
      var entry := ParseEntry(fields[index], fields[index + 1]);
      assert rest[2..] == fields[index + 2..];
      if entry.None? {
        return Err(NotRawDiff);
      }
      ghost var tail := ParseRecords(fields[index + 2..]);
      assert tail.Ok? ==> entries + ([entry.value] + tail.value) == entries + [entry.value] + tail.value;
      entries := entries + [entry.value];
      index := index + 2;
    }
    assert entries + [] == entries;
    return Ok(entries);
  }

  lemma {:induction false} HeaderRoundTrip(entry: Entry)
    requires IsWritable(entry)
    ensures ParseEntry(PrintHeader(entry), entry.path) == Some(entry)
    ensures '\0' !in PrintHeader(entry)
  {
    var fields := HeaderFields(entry);
    forall field <- fields ensures ' ' !in field && '\0' !in field {}
    SplitJoin(fields, ' ');
    JoinHolds(fields, ' ', '\0');
    assert (":" + entry.srcMode)[1..] == entry.srcMode;
  }

  lemma {:induction false} JoinHolds(parts: seq<string>, separator: char, c: char)
    requires c != separator && forall part <- parts :: c !in part
    ensures c !in Join(parts, separator)
  {
    if |parts| > 1 {
      JoinHolds(parts[1..], separator, c);
    }
  }

  /** Reading what git writes gives back the entries. */
  lemma {:induction false} RawRoundTrip(entries: seq<Entry>)
    requires forall entry <- entries :: IsWritable(entry)
    ensures ParseRecords(Fields(PrintRaw(entries))) == Ok(entries)
  {
    var records := Records(entries);
    RecordsRoundTrip(entries);
    SplitTerminated(records, '\0');
    assert (records + [""])[..|records|] == records;
  }

  lemma {:induction false} RecordsRoundTrip(entries: seq<Entry>)
    requires forall entry <- entries :: IsWritable(entry)
    ensures ParseRecords(Records(entries)) == Ok(entries)
    ensures forall part <- Records(entries) :: '\0' !in part
  {
    if entries != [] {
      HeaderRoundTrip(entries[0]);
      RecordsRoundTrip(entries[1..]);
      assert Records(entries)[2..] == Records(entries[1..]);
      assert entries == [entries[0]] + entries[1..];
    }
  }

  lemma {:induction false} JoinTerminated(parts: seq<string>)
    ensures Join(parts + [""], '\0') == Terminated(parts, '\0')
    ensures parts != [] ==> Join(parts, '\0') + ['\0'] == Terminated(parts, '\0')
  {
    if parts != [] {
      JoinTerminated(parts[1..]);
      assert (parts + [""])[1..] == parts[1..] + [""];
      if |parts| > 1 {
        assert Join(parts, '\0') + ['\0'] == parts[0] + ['\0'] + (Join(parts[1..], '\0') + ['\0']);
      } else {
        assert Terminated(parts, '\0') == parts[0] + ['\0'] + "";
      }
    }
  }

  lemma {:induction false} EntryText(header: string, path: string)
    requires ParseEntry(header, path).Some? && '\0' !in path
    ensures PrintHeader(ParseEntry(header, path).value) == header && IsWritable(ParseEntry(header, path).value)
  {
    var parts, entry := Split(header, ' '), ParseEntry(header, path).value;
    JoinSplit(header, ' ');
    assert parts[0] == ":" + entry.srcMode;
    assert parts[4] == [entry.status];
    assert HeaderFields(entry) == parts;
  }

  lemma {:induction false} RecordsText(fields: seq<string>)
    requires ParseRecords(fields).Ok? && forall field <- fields :: '\0' !in field
    ensures Records(ParseRecords(fields).value) == fields
    ensures forall entry <- ParseRecords(fields).value :: IsWritable(entry)
  {
    if fields != [] {
      EntryText(fields[0], fields[1]);
      RecordsText(fields[2..]);
      assert fields == [fields[0], fields[1]] + fields[2..];
      assert ParseRecords(fields).value[1..] == ParseRecords(fields[2..]).value;
    }
  }

  /** Nothing else reads as a change list: accepted text is what git writes, or that text without its last NUL. */
  lemma {:induction false} RawText(raw: string)
    requires ParseRecords(Fields(raw)).Ok?
    ensures var entries := ParseRecords(Fields(raw)).value;
      && (forall entry <- entries :: IsWritable(entry))
      && (raw == PrintRaw(entries) || raw + ['\0'] == PrintRaw(entries))
  {
    hide ParseRecords, Terminated, Join, Split, Records;
    var all, fields := Split(raw, '\0'), Fields(raw);
    JoinSplit(raw, '\0');
    assert forall i | 0 <= i < |fields| :: fields[i] == all[i];
    RecordsText(fields);
    JoinTerminated(fields);
    if all[|all| - 1] == "" {
      assert all == fields + [""];
    }
  }

  // ---------------------------------------------------------------- the manifest

  /** `^(\s*)"version": "([^"]+)"(,?)$` */
  datatype VersionLine = VersionLine(indent: string, version: string, comma: bool)

  const VERSION_KEY := "\"version\": \""

  predicate IsVersionLine(line: VersionLine) {
    (forall c <- line.indent :: IsSpace(c)) && line.version != "" && '"' !in line.version
  }

  function PrintLine(line: VersionLine): string {
    line.indent + VERSION_KEY + line.version + (if line.comma then "\"," else "\"")
  }

  function UpToQuote(text: string): (start: string)
    ensures start <= text && '"' !in start
    ensures |start| < |text| ==> text[|start|] == '"'
  {
    if text == "" || text[0] == '"' then "" else [text[0]] + UpToQuote(text[1..])
  }

  function ReadVersionLine(text: string): (line: Option<VersionLine>)
    ensures line.Some? ==> IsVersionLine(line.value)
  {
    var indent := LeadingSpace(text);
    var rest := text[|indent|..];
    if !(VERSION_KEY <= rest) then None
    else
      var body := rest[|VERSION_KEY|..];
      var version := UpToQuote(body);
      var after := body[|version|..];
      if version == "" || (after != "\"" && after != "\",") then None
      else Some(VersionLine(indent, version, after == "\","))
  }

  lemma {:induction false} LineText(text: string)
    requires ReadVersionLine(text).Some?
    ensures PrintLine(ReadVersionLine(text).value) == text
  {
    var line := ReadVersionLine(text).value;
    var rest := text[|line.indent|..];
    var body := rest[|VERSION_KEY|..];
    hide LeadingSpace, UpToQuote, IsVersionLine;
    var after := body[|line.version|..];
    assert text == line.indent + rest;
    assert rest == VERSION_KEY + body;
    assert body == line.version + after;
    Regroup(line.indent, VERSION_KEY, line.version, after);
    assert after == if line.comma then "\"," else "\"";
  }

  lemma Regroup(a: string, b: string, c: string, d: string)
    ensures a + (b + (c + d)) == a + b + c + d
  {}

  lemma {:induction false} UpToQuoteOf(start: string, rest: string)
    requires '"' !in start && rest != "" && rest[0] == '"'
    ensures UpToQuote(start + rest) == start
  {
    if start == "" {
      assert start + rest == rest;
    } else {
      UpToQuoteOf(start[1..], rest);
      assert (start + rest)[1..] == start[1..] + rest;
    }
  }

  lemma {:induction false} LineRoundTrip(line: VersionLine)
    requires IsVersionLine(line)
    ensures ReadVersionLine(PrintLine(line)) == Some(line)
  {
    var close := if line.comma then "\"," else "\"";
    var body := line.version + close;
    var rest := VERSION_KEY + body;
    assert PrintLine(line) == line.indent + rest;
    LeadingSpaceOf(line.indent, rest);
    assert (line.indent + rest)[|line.indent|..] == rest;
    assert rest[|VERSION_KEY|..] == body;
    UpToQuoteOf(line.version, close);
    assert body[|line.version|..] == close;
  }

  /** The indices at which two lists of one length differ. */
  function Differing(was: seq<string>, lines: seq<string>, from: nat): (changed: seq<nat>)
    requires |was| == |lines| && from <= |was|
    ensures forall i | 0 <= i < |changed| :: from <= changed[i] < |was| && was[changed[i]] != lines[changed[i]]
    ensures forall i | from <= i < |was| && was[i] != lines[i] :: i in changed
    decreases |was| - from
  {
    if from == |was| then []
    else
      var rest := Differing(was, lines, from + 1);
      if was[from] == lines[from] then rest else [from] + rest
  }

  /** The indices hold one number exactly when the lists differ there and nowhere else. */
  lemma {:induction false} OneDifference(was: seq<string>, lines: seq<string>, from: nat, k: nat)
    requires |was| == |lines| && from <= k < |was|
    ensures Differing(was, lines, from) == [k]
      <==> (was[k] != lines[k] && forall i | from <= i < |was| && i != k :: was[i] == lines[i])
    decreases |was| - from
  {
    var all, rest := Differing(was, lines, from), Differing(was, lines, from + 1);
    if from < k {
      OneDifference(was, lines, from + 1, k);
      if was[from] != lines[from] {
        assert all[0] == from;
      }
    } else {
      NoDifference(was, lines, from + 1);
      if was[from] != lines[from] {
        assert all == [from] + rest;
        assert |rest| == 0 ==> rest == [];
      }
    }
  }

  lemma {:induction false} NoDifference(was: seq<string>, lines: seq<string>, from: nat)
    requires |was| == |lines| && from <= |was|
    ensures Differing(was, lines, from) == [] <==> forall i | from <= i < |was| :: was[i] == lines[i]
    decreases |was| - from
  {
    if from < |was| {
      NoDifference(was, lines, from + 1);
    }
  }

  /** `JSON.parse(text).version`, which throws on text that is not JSON. */
  type VersionReader = string -> Result<Option<string>, Thrown>

  predicate IsHigher(version: string, than: string) {
    var order := Versions.CompareVersions(version, than);
    order.Ok? && order.value > 0
  }

  function ManifestVersions(before: string, after: string, versionOf: VersionReader)
    : Result<Option<(string, string)>, Thrown>
  {
    var was, lines := Split(before, '\n'), Split(after, '\n');
    if |was| != |lines| then Ok(None)
    else
      var changed := Differing(was, lines, 0);
      if |changed| != 1 then Ok(None)
      else
        var from, to := ReadVersionLine(was[changed[0]]), ReadVersionLine(lines[changed[0]]);
        if from.None? || to.None? || from.value.indent != to.value.indent || from.value.comma != to.value.comma then
          Ok(None)
        else
          var first :- versionOf(before);
          if first != Some(from.value.version) then Ok(None)
          else
            var second :- versionOf(after);
            if second != Some(to.value.version) then Ok(None)
            else if !IsHigher(to.value.version, from.value.version) then Ok(None)
            else Ok(Some((from.value.version, to.value.version)))
  }

  /** The two manifests are one text around one version line, which moves from one version to a higher one. */
  ghost predicate IsVersionBump(
      before: string, after: string, from: string, to: string, versionOf: VersionReader,
      head: seq<string>, tail: seq<string>, line: VersionLine)
  {
    && IsVersionLine(line) && line.version == from && to != "" && '"' !in to
    && Split(before, '\n') == head + [PrintLine(line)] + tail
    && Split(after, '\n') == head + [PrintLine(line.(version := to))] + tail
    && versionOf(before) == Ok(Some(from)) && versionOf(after) == Ok(Some(to))
    && IsHigher(to, from)
  }

  lemma {:induction false} BumpIsFound(
      before: string, after: string, from: string, to: string, versionOf: VersionReader,
      head: seq<string>, tail: seq<string>, line: VersionLine)
    requires IsVersionBump(before, after, from, to, versionOf, head, tail, line)
    ensures ManifestVersions(before, after, versionOf) == Ok(Some((from, to)))
  {
    hide Split, PrintLine, ReadVersionLine, IsHigher, Differing;
    var was, lines := Split(before, '\n'), Split(after, '\n');
    LineRoundTrip(line);
    LineRoundTrip(line.(version := to));
    Irreflexive(from);
    var k := |head|;
    assert was[k] == PrintLine(line) && lines[k] == PrintLine(line.(version := to));
    OneDifference(was, lines, 0, k);
  }

  lemma Irreflexive(version: string)
    ensures !IsHigher(version, version)
  {
    if Versions.ParseVersion(version).Ok? {
      Versions.Trichotomy(Versions.ParseVersion(version).value, Versions.ParseVersion(version).value);
    }
  }

  /** Manifest versions are found exactly when the manifest's only change is a higher top-level version. */
  lemma {:induction false} FoundIsBump(before: string, after: string, versionOf: VersionReader)
    returns (head: seq<string>, tail: seq<string>, line: VersionLine)
    requires ManifestVersions(before, after, versionOf).Ok? && ManifestVersions(before, after, versionOf).value.Some?
    ensures var (from, to) := ManifestVersions(before, after, versionOf).value.value;
      IsVersionBump(before, after, from, to, versionOf, head, tail, line)
  {
    hide Split, PrintLine, ReadVersionLine, IsHigher, Differing;
    var was, lines := Split(before, '\n'), Split(after, '\n');
    var k := Differing(was, lines, 0)[0];
    assert Differing(was, lines, 0) == [k];
    OneDifference(was, lines, 0, k);
    head, tail, line := was[..k], was[k + 1..], ReadVersionLine(was[k]).value;
    LineText(was[k]);
    LineText(lines[k]);
    assert was == head + [was[k]] + tail;
    assert lines == head + [lines[k]] + tail;
  }

  // ---------------------------------------------------------------- the changelog

  predicate IsHeading(line: string) {
    "## " <= line
  }

  /** The first line from an index on that a test accepts. */
  function Find(lines: seq<string>, test: string -> bool, from: nat): (found: Option<nat>)
    requires from <= |lines|
    ensures found.Some? ==> from <= found.value < |lines| && test(lines[found.value])
    ensures forall i | from <= i < (if found.Some? then found.value else |lines|) :: !test(lines[i])
    decreases |lines| - from
  {
    if from == |lines| then None else if test(lines[from]) then Some(from) else Find(lines, test, from + 1)
  }

  function Is(text: string): string -> bool {
    line => line == text
  }

  function HeadingOf(version: string): string {
    "## " + version
  }

  function AddsOnlySection(before: string, after: string, version: string): bool {
    var heading := HeadingOf(version);
    var lines := Split(after, '\n');
    var start := Find(lines, Is(heading), 0);
    if start.None? || Find(lines, Is(heading), start.value + 1).Some? || heading in Split(before, '\n') then
      false
    else
      var next := Find(lines, IsHeading, start.value + 1);
      Join(lines[..start.value] + lines[if next.None? then |lines| else next.value..], '\n') == before
  }

  /** The new changelog is the old one with one section put in: its heading, and lines up to the next heading. */
  ghost predicate IsSectionAdded(
      before: string, after: string, version: string, head: seq<string>, section: seq<string>, tail: seq<string>)
  {
    && Split(after, '\n') == head + [HeadingOf(version)] + section + tail
    && HeadingOf(version) !in head + section + tail
    && (forall line <- section :: !IsHeading(line))
    && (tail == [] || IsHeading(tail[0]))
    && before == Join(head + tail, '\n')
    && HeadingOf(version) !in Split(before, '\n')
  }

  lemma {:induction false} PartsAt(
      lines: seq<string>, heading: string, head: seq<string>, section: seq<string>, tail: seq<string>)
    requires lines == head + [heading] + section + tail
    ensures var k, end := |head|, |head| + 1 + |section|;
      && end + |tail| == |lines| && lines[..k] == head && lines[k] == heading && lines[end..] == tail
      && (forall i | 0 <= i < k :: lines[i] in head)
      && (forall i | k < i < end :: lines[i] in section)
      && (forall i | end <= i < |lines| :: lines[i] in tail)
      && (tail != [] ==> lines[end] == tail[0])
  {
    var k, end := |head|, |head| + 1 + |section|;
    assert forall i | 0 <= i < k :: lines[i] == head[i];
    assert forall i | k < i < end :: lines[i] == section[i - k - 1];
    assert forall i | end <= i < |lines| :: lines[i] == tail[i - end];
  }

  /** Where the heading and the end of its section are found, in lines put together from the three parts. */
  lemma {:induction false} PartsAreFound(
      lines: seq<string>, heading: string, head: seq<string>, section: seq<string>, tail: seq<string>)
    requires lines == head + [heading] + section + tail
    requires heading !in head && heading !in section && heading !in tail
    requires (forall line <- section :: !IsHeading(line)) && (tail == [] || IsHeading(tail[0]))
    ensures lines[..|head|] == head
    ensures Find(lines, Is(heading), 0) == Some(|head|)
    ensures Find(lines, Is(heading), |head| + 1) == None
    ensures var next := Find(lines, IsHeading, |head| + 1);
      lines[if next.None? then |lines| else next.value..] == tail
  {
    hide IsHeading;
    PartsAt(lines, heading, head, section, tail);
    var k, end := |head|, |head| + 1 + |section|;
    var start, second := Find(lines, Is(heading), 0), Find(lines, Is(heading), k + 1);
    assert Is(heading)(lines[k]);
    var next := Find(lines, IsHeading, k + 1);
    assert tail == [] ==> end == |lines|;
    assert tail != [] ==> IsHeading(lines[end]);
  }

  lemma {:induction false} SectionIsFound(
      before: string, after: string, version: string, head: seq<string>, section: seq<string>, tail: seq<string>)
    requires IsSectionAdded(before, after, version, head, section, tail)
    ensures AddsOnlySection(before, after, version)
  {
    hide Split, Join, HeadingOf, Find, Is;
    PartsAreFound(Split(after, '\n'), HeadingOf(version), head, section, tail);
  }

  lemma {:induction false} FoundIsSection(before: string, after: string, version: string)
    returns (head: seq<string>, section: seq<string>, tail: seq<string>)
    requires AddsOnlySection(before, after, version)
    ensures IsSectionAdded(before, after, version, head, section, tail)
  {
    hide Split, Join, HeadingOf, Find, IsHeading;
    var heading, lines := HeadingOf(version), Split(after, '\n');
    var start := Find(lines, Is(heading), 0).value;
    var next := Find(lines, IsHeading, start + 1);
    var end := if next.None? then |lines| else next.value;
    head, section, tail := lines[..start], lines[start + 1..end], lines[end..];
    PartsOf(lines, start, end);
    assert forall i | start < i < |lines| :: !Is(heading)(lines[i]);
    assert forall i | 0 <= i < start :: !Is(heading)(lines[i]);
    assert forall line <- section :: !IsHeading(line);
  }

  lemma PartsOf(lines: seq<string>, start: nat, end: nat)
    requires start < end <= |lines|
    ensures lines == lines[..start] + [lines[start]] + lines[start + 1..end] + lines[end..]
  {}

  // ---------------------------------------------------------------- the whole change

  datatype Change = VersionOnly(from: string, to: string) | NotVersionOnly(reason: Reason)

  datatype Reason =
    | NotRegular(path: string) | WasNotRegular(path: string) | NotANote(path: string) | NotMovedUnchanged(path: string)
    | NotAReleaseFile(path: string) | NoManifest | NoChangelog | ManifestChangesMore | ChangelogChangesMore

  datatype Note = Note(inPre: bool, name: string)

  /** `^(pre\/)?([^/]+\.md)$`, but for the folder's own README. */
  function NoteAt(path: string): (note: Option<Note>)
    ensures note.Some? ==>
      && CHANGESETS <= path && path == CHANGESETS + (if note.value.inPre then "pre/" else "") + note.value.name
      && path[|path| - 1] == 'd'
  {
    if !(CHANGESETS <= path) then None
    else
      var name := path[|CHANGESETS|..];
      assert path == CHANGESETS + name;
      var inPre := "pre/" <= name;
      var note := if inPre then name[4..] else name;
      assert inPre ==> name == "pre/" + note;
      if '/' in note || |note| <= 3 || note[|note| - 3..] != ".md" || note == "README.md" then None
      else
        assert path[|path| - 1] == note[|note| - 3..][2];
        Some(Note(inPre, note))
  }

  predicate IsRegularChange(entry: Entry) {
    (entry.status == 'D' || entry.dstMode == REGULAR) && (entry.status == 'A' || entry.srcMode == REGULAR)
  }

  predicate IsModified(entry: Entry, path: string) {
    entry.path == path && entry.status == 'M'
  }

  predicate IsStateChange(entry: Entry) {
    entry.path == PRE_STATE && entry.status in {'A', 'M', 'D'}
  }

  /** The blob of the last deleted regular file at a path. */
  function DeletedBlob(entries: seq<Entry>, path: string): (blob: Option<string>)
    ensures blob.Some? ==>
      exists entry <- entries :: entry.status == 'D' && entry.srcMode == REGULAR && entry.path == path
                              && entry.srcBlob == blob.value
  {
    if entries == [] then None
    else
      var last := entries[|entries| - 1];
      if last.status == 'D' && last.srcMode == REGULAR && last.path == path then Some(last.srcBlob)
      else DeletedBlob(entries[..|entries| - 1], path)
  }

  /** A note added under pre/ that was deleted beside it with the same content, and is not added twice. */
  predicate IsMovedNote(entries: seq<Entry>, i: nat)
    requires i < |entries|
  {
    var entry, note := entries[i], NoteAt(entries[i].path);
    && entry.status == 'A' && note.Some? && note.value.inPre
    && DeletedBlob(entries, CHANGESETS + note.value.name) == Some(entry.dstBlob)
    && forall j | 0 <= j < i :: entries[j].path != entry.path || entries[j].status != 'A'
  }

  predicate IsReleaseChange(entries: seq<Entry>, i: nat)
    requires i < |entries|
  {
    var entry := entries[i];
    && IsRegularChange(entry)
    && (|| IsModified(entry, MANIFEST)
        || IsModified(entry, CHANGELOG)
        || IsStateChange(entry)
        || (entry.status == 'D' && NoteAt(entry.path).Some?)
        || IsMovedNote(entries, i))
  }

  /** The last entry that modifies a path. */
  function LastModified(entries: seq<Entry>, path: string): (entry: Option<Entry>)
    ensures entry.Some? ==> entry.value in entries && IsModified(entry.value, path)
    ensures entry.None? ==> forall other <- entries :: !IsModified(other, path)
  {
    if entries == [] then None
    else
      var last := entries[|entries| - 1];
      if IsModified(last, path) then Some(last) else LastModified(entries[..|entries| - 1], path)
  }

  type BlobReader = string -> string

  /** What the contents of the manifest and the changelog decide. */
  function Contents(manifest: Entry, changelog: Entry, blob: BlobReader, versionOf: VersionReader)
    : Result<Change, Thrown>
  {
    var versions :- ManifestVersions(blob(manifest.srcBlob), blob(manifest.dstBlob), versionOf);
    if versions.None? then Ok(NotVersionOnly(ManifestChangesMore))
    else if !AddsOnlySection(blob(changelog.srcBlob), blob(changelog.dstBlob), versions.value.1) then
      Ok(NotVersionOnly(ChangelogChangesMore))
    else Ok(VersionOnly(versions.value.0, versions.value.1))
  }

  ghost predicate AreReleaseChanges(entries: seq<Entry>, count: nat)
    requires count <= |entries|
  {
    forall i: nat | i < count :: IsReleaseChange(entries, i)
  }

  predicate IsMoveOf(entries: seq<Entry>, i: nat, source: string)
    requires i < |entries|
  {
    IsMovedNote(entries, i) && CHANGESETS + NoteAt(entries[i].path).value.name == source
  }

  /** The method's `moved` set: the notes that an earlier entry was moved from. */
  ghost predicate AreMoved(moved: set<string>, entries: seq<Entry>, count: nat)
    requires count <= |entries|
  {
    forall source :: source in moved <==> exists i: nat | i < count :: IsMoveOf(entries, i, source)
  }

  /** A change is version-only by its entries and contents, and by nothing else. */
  method ClassifyVersionChange(entries: seq<Entry>, blob: BlobReader, versionOf: VersionReader)
    returns (result: Result<Change, Thrown>)
    ensures var manifest, changelog := LastModified(entries, MANIFEST), LastModified(entries, CHANGELOG);
      if !AreReleaseChanges(entries, |entries|) then result.Ok? && result.value.NotVersionOnly?
      else if manifest.None? then result == Ok(NotVersionOnly(NoManifest))
      else if changelog.None? then result == Ok(NotVersionOnly(NoChangelog))
      else result == Contents(manifest.value, changelog.value, blob, versionOf)
  {
    hide IsReleaseChange, IsMovedNote, Contents, NoteAt, DeletedBlob, LastModified, AreMoved;
    var moved: set<string> := {};
    var manifest: Option<Entry> := None;
    var changelog: Option<Entry> := None;
    NothingMoved(entries);
    var i := 0;
    while i < |entries|
      invariant 0 <= i <= |entries|
      invariant manifest == LastModified(entries[..i], MANIFEST) && changelog == LastModified(entries[..i], CHANGELOG)
      invariant AreReleaseChanges(entries, i) && AreMoved(moved, entries, i)
    {
      var entry := entries[i];
      OneEntryMore(entries, i, MANIFEST);
      OneEntryMore(entries, i, CHANGELOG);
      var verdict := JudgeEntry(entries, i, moved);
      if verdict.Some? {
        return Ok(NotVersionOnly(verdict.value));
      }
      if IsModified(entry, MANIFEST) {
        manifest := Some(entry);
      } else if IsModified(entry, CHANGELOG) {
        changelog := Some(entry);
      }
      MovedAfter(moved, entries, i);
      var note := NoteAt(entry.path);
      if entry.status == 'A' && note.Some? && note.value.inPre {
        moved := moved + {CHANGESETS + note.value.name};
      }
      i := i + 1;
    }
    assert entries[..i] == entries;
    if manifest.None? {
      return Ok(NotVersionOnly(NoManifest));
    }
    if changelog.None? {
      return Ok(NotVersionOnly(NoChangelog));
    }
    return Contents(manifest.value, changelog.value, blob, versionOf);
  }

  /** Why one entry is no release change, given the notes moved before it. */
  method JudgeEntry(entries: seq<Entry>, i: nat, moved: set<string>) returns (reason: Option<Reason>)
    requires i < |entries| && AreReleaseChanges(entries, i) && AreMoved(moved, entries, i)
    ensures reason.None? <==> IsReleaseChange(entries, i)
  {
    hide NoteAt, DeletedBlob, AreMoved, AreReleaseChanges;
    var entry, path := entries[i], entries[i].path;
    if entry.status != 'D' && entry.dstMode != REGULAR {
      return Some(NotRegular(path));
    }
    if entry.status != 'A' && entry.srcMode != REGULAR {
      return Some(WasNotRegular(path));
    }
    if IsModified(entry, MANIFEST) || IsModified(entry, CHANGELOG) || IsStateChange(entry) {
      return None;
    }
    if CHANGESETS <= path {
      var note := NoteAt(path);
      if note.None? {
        return Some(NotANote(path));
      }
      if entry.status == 'D' {
        return None;
      }
      var source := CHANGESETS + note.value.name;
      SourceIsMoved(moved, entries, i, source);
      if entry.status != 'A' || !note.value.inPre || DeletedBlob(entries, source) != Some(entry.dstBlob)
         || source in moved {
        return Some(NotMovedUnchanged(path));
      }
      return None;
    }
    return Some(NotAReleaseFile(path));
  }

  lemma NothingMoved(entries: seq<Entry>)
    ensures AreMoved({}, entries, 0)
    ensures LastModified(entries[..0], MANIFEST) == None && LastModified(entries[..0], CHANGELOG) == None
  {}

  lemma OneEntryMore(entries: seq<Entry>, i: nat, path: string)
    requires i < |entries|
    ensures LastModified(entries[..i + 1], path)
         == if IsModified(entries[i], path) then Some(entries[i]) else LastModified(entries[..i], path)
  {
    assert entries[..i + 1][..i] == entries[..i];
  }

  /** A note's place under pre/ names its source, and the source the place. */
  lemma SourceNamesNote(entries: seq<Entry>, i: nat, j: nat)
    requires i < |entries| && j < |entries|
    requires NoteAt(entries[i].path).Some? && NoteAt(entries[j].path).Some?
    requires NoteAt(entries[i].path).value.inPre && NoteAt(entries[j].path).value.inPre
    requires CHANGESETS + NoteAt(entries[i].path).value.name == CHANGESETS + NoteAt(entries[j].path).value.name
    ensures entries[i].path == entries[j].path
  {
    hide NoteAt;
    var one, other := NoteAt(entries[i].path).value.name, NoteAt(entries[j].path).value.name;
    assert (CHANGESETS + one)[|CHANGESETS|..] == one && (CHANGESETS + other)[|CHANGESETS|..] == other;
  }

  lemma NoteIsNoOther(path: string)
    requires NoteAt(path).Some?
    ensures path != MANIFEST && path != CHANGELOG && path != PRE_STATE
  {
    assert CHANGELOG[9] != CHANGESETS[9] && MANIFEST[9] != CHANGESETS[9];
    assert PRE_STATE[|PRE_STATE| - 1] == 'n';
  }

  lemma {:induction false} SourceIsMoved(moved: set<string>, entries: seq<Entry>, i: nat, source: string)
    requires i < |entries| && AreReleaseChanges(entries, i) && AreMoved(moved, entries, i)
    requires NoteAt(entries[i].path).Some? && source == CHANGESETS + NoteAt(entries[i].path).value.name
    ensures NoteAt(entries[i].path).value.inPre ==>
      (source in moved <==> exists j: nat | j < i :: entries[j].path == entries[i].path && entries[j].status == 'A')
  {
    hide NoteAt, DeletedBlob;
    if NoteAt(entries[i].path).value.inPre {
      if source in moved {
        var j: nat :| j < i && IsMoveOf(entries, j, source);
        SourceNamesNote(entries, i, j);
      }
      if j: nat :| j < i && entries[j].path == entries[i].path && entries[j].status == 'A' {
        assert IsReleaseChange(entries, j);
        NoteIsNoOther(entries[j].path);
        assert IsMoveOf(entries, j, source);
      }
    }
  }

  lemma {:induction false} MovedAfter(moved: set<string>, entries: seq<Entry>, i: nat)
    requires i < |entries| && AreReleaseChanges(entries, i) && AreMoved(moved, entries, i)
    requires IsReleaseChange(entries, i)
    ensures var note := NoteAt(entries[i].path);
      AreMoved(
        if entries[i].status == 'A' && note.Some? && note.value.inPre then moved + {CHANGESETS + note.value.name}
        else moved,
        entries, i + 1)
  {
    hide NoteAt, DeletedBlob;
    var note := NoteAt(entries[i].path);
    if entries[i].status == 'A' && note.Some? && note.value.inPre {
      NoteIsNoOther(entries[i].path);
      assert IsMoveOf(entries, i, CHANGESETS + note.value.name);
    }
    forall source
      ensures (exists j: nat | j < i + 1 :: IsMoveOf(entries, j, source))
        <==> (exists j: nat | j < i :: IsMoveOf(entries, j, source)) || IsMoveOf(entries, i, source)
    {}
  }
}
