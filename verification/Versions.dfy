/** Release versions: parsing, printing and precedence. */
module Versions {
  import opened Wrappers
  import opened Text

  /** The largest integer a JavaScript number holds exactly together with its neighbours. */
  const MAX_SAFE: nat := 9007199254740991

  datatype Channel = Canary | Nightly | Rc | Stable

  /** The numeric prerelease identifiers follow the channel name: none for Stable, a run number, or a date and a run number. */
  datatype Version = Version(major: nat, minor: nat, patch: nat, channel: Channel, identifiers: seq<nat>)

  datatype ParseError = NotReleaseVersion | DateOutsideNightly | NotCalendarDate | UnsafeInteger

  function ChannelName(channel: Channel): string {
    match channel
    case Canary => "canary"
    case Nightly => "nightly"
    case Rc => "rc"
    case Stable => "stable"
  }

  function ChannelNamed(name: string): Option<Channel> {
    if name == "canary" then Some(Canary)
    else if name == "nightly" then Some(Nightly)
    else if name == "rc" then Some(Rc)
    else None
  }

  function DaysIn(year: nat, month: nat): nat {
    if month == 2 then
      if year % 4 == 0 && (year % 100 != 0 || year % 400 == 0) then 29 else 28
    else if month in {4, 6, 9, 11} then 30
    else 31
  }

  /** A real calendar date written as the eight digits YYYYMMDD, from year 1000 on. */
  predicate IsDate(date: nat) {
    var year, month, day := date / 10000, date / 100 % 100, date % 100;
    1000 <= year <= 9999 && 1 <= month <= 12 && 1 <= day <= DaysIn(year, month)
  }

  /** The versions `parseVersion` returns. */
  predicate Valid(v: Version) {
    && v.major <= MAX_SAFE && v.minor <= MAX_SAFE && v.patch <= MAX_SAFE
    && (forall n <- v.identifiers :: n <= MAX_SAFE)
    && (if v.channel.Stable? then v.identifiers == []
        else |v.identifiers| == 1 || (|v.identifiers| == 2 && v.channel.Nightly? && IsDate(v.identifiers[0])))
  }

  predicate Dated(v: Version) {
    |v.identifiers| == 2
  }

  /** The run number: the last identifier. */
  function Number(v: Version): Option<nat> {
    if v.identifiers == [] then None else Some(v.identifiers[|v.identifiers| - 1])
  }

  function Core(v: Version): (nat, nat, nat) {
    (v.major, v.minor, v.patch)
  }

  function Line(v: Version): (nat, nat) {
    (v.major, v.minor)
  }

  /** The Stable version of a core. */
  function StableOf(v: Version): Version {
    Version(v.major, v.minor, v.patch, Stable, [])
  }

  // ----- text -----

  function Numerals(numbers: seq<nat>): (texts: seq<string>)
    ensures |texts| == |numbers|
    ensures forall i | 0 <= i < |numbers| :: texts[i] == Decimal(numbers[i])
  {
    seq(|numbers|, i requires 0 <= i < |numbers| => Decimal(numbers[i]))
  }

  predicate AllNumerals(texts: seq<string>) {
    forall i | 0 <= i < |texts| :: IsNumeral(texts[i])
  }

  function NumeralValues(texts: seq<string>): (numbers: seq<nat>)
    requires AllNumerals(texts)
    ensures |numbers| == |texts|
    ensures forall i | 0 <= i < |texts| :: numbers[i] == NumeralValue(texts[i])
  {
    seq(|texts|, i requires 0 <= i < |texts| => NumeralValue(texts[i]))
  }

  function PrintCore(v: Version): string {
    Join(Numerals([v.major, v.minor, v.patch]), '.')
  }

  function PrintSuffix(v: Version): string {
    Join([ChannelName(v.channel)] + Numerals(v.identifiers), '.')
  }

  function Print(v: Version): string {
    if v.channel.Stable? then PrintCore(v) else PrintCore(v) + "-" + PrintSuffix(v)
  }

  /** The three numerals before the first dash. */
  function ParseCore(text: string): Result<seq<nat>, ParseError> {
    var parts := Split(text, '.');
    :- Need(|parts| == 3 && AllNumerals(parts), NotReleaseVersion);
    Ok(NumeralValues(parts))
  }

  /** The channel name and one or two numerals after the dash. */
  function ParseSuffix(text: string): Result<(Channel, seq<nat>), ParseError> {
    var parts := Split(text, '.');
    var channel := ChannelNamed(parts[0]);
    :- Need(2 <= |parts| <= 3 && channel.Some? && AllNumerals(parts[1..]), NotReleaseVersion);
    Ok((channel.value, NumeralValues(parts[1..])))
  }

  function ParseVersion(text: string): Result<Version, ParseError> {
    var halves := Split(text, '-');
    :- Need(|halves| <= 2, NotReleaseVersion);
    var core :- ParseCore(halves[0]);
    var (channel, identifiers) :- if |halves| == 1 then Ok((Stable, [])) else ParseSuffix(halves[1]);
    :- Need(|identifiers| > 1 ==> channel.Nightly?, DateOutsideNightly);
    :- Need(|identifiers| > 1 ==> IsDate(identifiers[0]), NotCalendarDate);
    :- Need(forall n <- core + identifiers :: n <= MAX_SAFE, UnsafeInteger);
    Ok(Version(core[0], core[1], core[2], channel, identifiers))
  }

  lemma {:induction false} JoinHasNoDash(parts: seq<string>)
    requires forall part <- parts :: '-' !in part
    ensures '-' !in Join(parts, '.')
  {
    if |parts| > 1 {
      JoinHasNoDash(parts[1..]);
    }
  }

  lemma ValuesOfNumerals(numbers: seq<nat>)
    ensures AllNumerals(Numerals(numbers)) && NumeralValues(Numerals(numbers)) == numbers
    ensures forall part <- Numerals(numbers) :: '.' !in part && '-' !in part
  {
    forall i | 0 <= i < |numbers| ensures NumeralValue(Decimal(numbers[i])) == numbers[i] {
      ValueOfDecimal(numbers[i]);
    }
  }

  lemma NumeralsOfValues(texts: seq<string>)
    requires AllNumerals(texts)
    ensures Numerals(NumeralValues(texts)) == texts
  {
    forall i | 0 <= i < |texts| ensures Decimal(NumeralValue(texts[i])) == texts[i] {
      DecimalOfValue(texts[i]);
    }
  }

  lemma CoreRoundTrip(v: Version)
    ensures ParseCore(PrintCore(v)) == Ok([v.major, v.minor, v.patch])
    ensures '-' !in PrintCore(v)
  {
    var numbers := [v.major, v.minor, v.patch];
    ValuesOfNumerals(numbers);
    SplitJoin(Numerals(numbers), '.');
    JoinHasNoDash(Numerals(numbers));
  }

  lemma SuffixRoundTrip(v: Version)
    requires !v.channel.Stable? && 1 <= |v.identifiers| <= 2
    ensures ParseSuffix(PrintSuffix(v)) == Ok((v.channel, v.identifiers))
    ensures '-' !in PrintSuffix(v)
  {
    var parts := [ChannelName(v.channel)] + Numerals(v.identifiers);
    ValuesOfNumerals(v.identifiers);
    assert parts[1..] == Numerals(v.identifiers);
    SplitJoin(parts, '.');
    JoinHasNoDash(parts);
  }

  /** Printing a version and parsing it back returns the same version. */
  lemma ParsePrint(v: Version)
    requires Valid(v)
    ensures ParseVersion(Print(v)) == Ok(v)
  {
    CoreRoundTrip(v);
    if v.channel.Stable? {
      SplitJoin([PrintCore(v)], '-');
    } else {
      SuffixRoundTrip(v);
      var halves := [PrintCore(v), PrintSuffix(v)];
      assert Join(halves, '-') == Print(v) by {
        assert Join(halves[1..], '-') == halves[1];
      }
      SplitJoin(halves, '-');
    }
  }

  lemma CoreText(text: string)
    requires ParseCore(text).Ok?
    ensures |ParseCore(text).value| == 3 && Join(Numerals(ParseCore(text).value), '.') == text
  {
    JoinSplit(text, '.');
    NumeralsOfValues(Split(text, '.'));
  }

  lemma SuffixText(text: string)
    requires ParseSuffix(text).Ok?
    ensures var (channel, identifiers) := ParseSuffix(text).value;
            && !channel.Stable? && 1 <= |identifiers| <= 2
            && Join([ChannelName(channel)] + Numerals(identifiers), '.') == text
  {
    var parts := Split(text, '.');
    JoinSplit(text, '.');
    NumeralsOfValues(parts[1..]);
    assert parts == [parts[0]] + parts[1..];
  }

  /** Every accepted text is the text its version prints, and the parsed version is valid. */
  lemma PrintParse(text: string)
    requires ParseVersion(text).Ok?
    ensures Valid(ParseVersion(text).value)
    ensures Print(ParseVersion(text).value) == text
  {
    var v := ParseVersion(text).value;
    var halves := Split(text, '-');
    JoinSplit(text, '-');
    CoreText(halves[0]);
    var core := ParseCore(halves[0]).value;
    assert core == [v.major, v.minor, v.patch];
    assert forall n <- core + v.identifiers :: n <= MAX_SAFE;
    assert core[0] in core + v.identifiers && core[1] in core + v.identifiers && core[2] in core + v.identifiers;
    assert forall n <- v.identifiers :: n in core + v.identifiers;
    if |halves| == 2 {
      SuffixText(halves[1]);
      assert Join(halves, '-') == halves[0] + "-" + halves[1] by {
        assert Join(halves[1..], '-') == halves[1];
      }
    }
  }

  // ----- precedence -----

  function Rank(channel: Channel): nat {
    match channel
    case Canary => 0
    case Nightly => 1
    case Rc => 2
    case Stable => 3
  }

  function CompareIdentifiers(a: seq<nat>, b: seq<nat>): int {
    if a == [] || b == [] then |a| - |b|
    else if a[0] != b[0] then a[0] - b[0]
    else CompareIdentifiers(a[1..], b[1..])
  }

  /** Negative, zero or positive, as a JavaScript sort comparator. */
  function Compare(a: Version, b: Version): int {
    if a.major != b.major then a.major - b.major
    else if a.minor != b.minor then a.minor - b.minor
    else if a.patch != b.patch then a.patch - b.patch
    else if a.channel != b.channel then Rank(a.channel) - Rank(b.channel)
    else CompareIdentifiers(a.identifiers, b.identifiers)
  }

  predicate Below(a: Version, b: Version) {
    Compare(a, b) < 0
  }

  /** The original compares version texts and throws on a text that does not parse. */
  function CompareVersions(a: string, b: string): Result<int, ParseError> {
    var left :- ParseVersion(a);
    var right :- ParseVersion(b);
    Ok(Compare(left, right))
  }

  lemma {:induction false} IdentifiersAntisymmetric(a: seq<nat>, b: seq<nat>)
    ensures CompareIdentifiers(a, b) == -CompareIdentifiers(b, a)
    ensures CompareIdentifiers(a, b) == 0 <==> a == b
  {
    if a != [] && b != [] && a[0] == b[0] {
      IdentifiersAntisymmetric(a[1..], b[1..]);
      assert a == [a[0]] + a[1..] && b == [b[0]] + b[1..];
    }
  }

  lemma {:induction false} IdentifiersTransitive(a: seq<nat>, b: seq<nat>, c: seq<nat>)
    requires CompareIdentifiers(a, b) < 0 && CompareIdentifiers(b, c) < 0
    ensures CompareIdentifiers(a, c) < 0
  {
    if a != [] && b != [] && c != [] && a[0] == b[0] == c[0] {
      IdentifiersTransitive(a[1..], b[1..], c[1..]);
    }
  }

  /** Precedence is a strict total order on versions. */
  lemma Trichotomy(a: Version, b: Version)
    ensures Compare(a, b) == -Compare(b, a)
    ensures Compare(a, b) == 0 <==> a == b
  {
    IdentifiersAntisymmetric(a.identifiers, b.identifiers);
  }

  lemma Transitive(a: Version, b: Version, c: Version)
    requires Below(a, b) && Below(b, c)
    ensures Below(a, c)
  {
    if Core(a) == Core(b) == Core(c) && a.channel == b.channel == c.channel {
      IdentifiersTransitive(a.identifiers, b.identifiers, c.identifiers);
    }
  }

  /** Two accepted texts compare equal only when they are the same text. */
  lemma EqualPrecedenceIsEqualText(a: string, b: string)
    requires ParseVersion(a).Ok? && ParseVersion(b).Ok?
    ensures CompareVersions(a, b) == Ok(0) <==> a == b
  {
    PrintParse(a);
    PrintParse(b);
    Trichotomy(ParseVersion(a).value, ParseVersion(b).value);
  }

  // ----- Semantic Versioning 2.0.0, item 11, on texts -----

  datatype Identifier = Numeric(n: nat) | Alphanumeric(name: string)

  /** Item 11.4: an identifier of digits only is compared as a number, any other as text. */
  function IdentifierOf(part: string): Identifier {
    if part != "" && (forall c <- part :: IsDigit(c)) then Numeric(NumeralValue(part)) else Alphanumeric(part)
  }

  function IdentifiersOf(parts: seq<string>): seq<Identifier> {
    if parts == [] then [] else [IdentifierOf(parts[0])] + IdentifiersOf(parts[1..])
  }

  /** The text before the first hyphen. */
  function BeforeHyphen(text: string): (core: string)
    ensures core <= text && '-' !in core && (core != text ==> text[|core|] == '-')
  {
    if text == "" || text[0] == '-' then "" else [text[0]] + BeforeHyphen(text[1..])
  }

  function CoreIdentifiers(text: string): seq<Identifier> {
    IdentifiersOf(Split(BeforeHyphen(text), '.'))
  }

  /** Item 9: the dot-separated identifiers after the first hyphen. */
  function PrereleaseIdentifiers(text: string): seq<Identifier> {
    var core := BeforeHyphen(text);
    if core == text then [] else IdentifiersOf(Split(text[|core| + 1..], '.'))
  }

  /** ASCII sort order of two identifiers, item 11.4.2. */
  function CompareText(a: string, b: string): int {
    if a == "" || b == "" then |a| - |b|
    else if a[0] != b[0] then a[0] as int - b[0] as int
    else CompareText(a[1..], b[1..])
  }

  /** Items 11.4.1 to 11.4.3. */
  function CompareIdentifier(a: Identifier, b: Identifier): int {
    match (a, b)
    case (Numeric(m), Numeric(n)) => m - n
    case (Numeric(_), Alphanumeric(_)) => -1
    case (Alphanumeric(_), Numeric(_)) => 1
    case (Alphanumeric(s), Alphanumeric(t)) => CompareText(s, t)
  }

  /** Items 11.2 and 11.4: identifiers from left to right, then the longer list is higher. */
  function CompareLists(a: seq<Identifier>, b: seq<Identifier>): int {
    if a == [] || b == [] then |a| - |b|
    else if CompareIdentifier(a[0], b[0]) != 0 then CompareIdentifier(a[0], b[0])
    else CompareLists(a[1..], b[1..])
  }

  /** The cores decide, then a text without a prerelease part is higher, item 11.3, then the prerelease parts. */
  function SemVerPrecedence(a: string, b: string): int {
    var core := CompareLists(CoreIdentifiers(a), CoreIdentifiers(b));
    var left, right := PrereleaseIdentifiers(a), PrereleaseIdentifiers(b);
    if core != 0 then core
    else if left == [] || right == [] then |right| - |left|
    else CompareLists(left, right)
  }

  function NumericIdentifiers(numbers: seq<nat>): seq<Identifier> {
    if numbers == [] then [] else [Numeric(numbers[0])] + NumericIdentifiers(numbers[1..])
  }

  lemma {:induction false} NumeralsAreNumeric(numbers: seq<nat>)
    ensures IdentifiersOf(Numerals(numbers)) == NumericIdentifiers(numbers)
  {
    if numbers != [] {
      ValueOfDecimal(numbers[0]);
      NumeralsAreNumeric(numbers[1..]);
      assert Numerals(numbers)[1..] == Numerals(numbers[1..]);
    }
  }

  lemma {:induction false} BeforeFirstHyphen(core: string, rest: string)
    requires '-' !in core
    ensures BeforeHyphen(core) == core
    ensures BeforeHyphen(core + "-" + rest) == core
  {
    if core == "" {
      assert core + "-" + rest == "-" + rest;
    } else {
      BeforeFirstHyphen(core[1..], rest);
      assert (core + "-" + rest)[1..] == core[1..] + "-" + rest;
    }
  }

  /** What item 11 sees in a printed version. */
  lemma IdentifiersOfPrint(v: Version)
    requires Valid(v)
    ensures CoreIdentifiers(Print(v)) == NumericIdentifiers([v.major, v.minor, v.patch])
    ensures PrereleaseIdentifiers(Print(v)) ==
            if v.channel.Stable? then [] else [Alphanumeric(ChannelName(v.channel))] + NumericIdentifiers(v.identifiers)
  {
    hide Join, Split, BeforeHyphen, IsDate, ParseCore, IdentifiersOf, NumericIdentifiers;
    var numbers := [v.major, v.minor, v.patch];
    CoreRoundTrip(v);
    ValuesOfNumerals(numbers);
    SplitJoin(Numerals(numbers), '.');
    NumeralsAreNumeric(numbers);
    BeforeFirstHyphen(PrintCore(v), PrintSuffix(v));
    if !v.channel.Stable? {
      IdentifiersOfSuffix(v);
      assert Print(v)[|PrintCore(v)| + 1..] == PrintSuffix(v);
    }
  }

  lemma IdentifiersOfSuffix(v: Version)
    requires !v.channel.Stable?
    ensures IdentifiersOf(Split(PrintSuffix(v), '.')) ==
            [Alphanumeric(ChannelName(v.channel))] + NumericIdentifiers(v.identifiers)
  {
    hide Join, Split;
    var parts := [ChannelName(v.channel)] + Numerals(v.identifiers);
    ValuesOfNumerals(v.identifiers);
    SplitJoin(parts, '.');
    NumeralsAreNumeric(v.identifiers);
    assert parts[1..] == Numerals(v.identifiers);
    assert ChannelName(v.channel)[0] in ChannelName(v.channel);
  }

  function Sign(n: int): int {
    if n < 0 then -1 else if n == 0 then 0 else 1
  }

  lemma {:induction false} NumericOrderAgrees(a: seq<nat>, b: seq<nat>)
    ensures CompareLists(NumericIdentifiers(a), NumericIdentifiers(b)) == CompareIdentifiers(a, b)
    ensures |NumericIdentifiers(a)| == |a| && |NumericIdentifiers(b)| == |b|
  {
    var x, y := NumericIdentifiers(a), NumericIdentifiers(b);
    if a != [] {
      NumericOrderAgrees(a[1..], if b == [] then [] else b[1..]);
    } else if b != [] {
      NumericOrderAgrees([], b[1..]);
    }
    if a != [] && b != [] {
      assert x[1..] == NumericIdentifiers(a[1..]) && y[1..] == NumericIdentifiers(b[1..]);
    }
  }

  lemma {:induction false} TextReflexive(s: string)
    ensures CompareText(s, s) == 0
  {
    if s != "" {
      TextReflexive(s[1..]);
    }
  }

  /** The order of the cores, number by number. */
  lemma CoresDecide(a: Version, b: Version)
    ensures var core := CompareIdentifiers([a.major, a.minor, a.patch], [b.major, b.minor, b.patch]);
            && (core == 0 <==> Core(a) == Core(b))
            && (core != 0 ==> Compare(a, b) == core)
  {
    var x, y := [a.major, a.minor, a.patch], [b.major, b.minor, b.patch];
    assert x[1..] == [a.minor, a.patch] && y[1..] == [b.minor, b.patch];
    assert x[1..][1..] == [a.patch] && y[1..][1..] == [b.patch];
    assert CompareIdentifiers(x[1..][1..], y[1..][1..]) == a.patch - b.patch;
  }

  /** The fixed channel ranks order accepted texts exactly as Semantic Versioning orders them. */
  lemma AgreesWithSemVer(a: string, b: string)
    requires ParseVersion(a).Ok? && ParseVersion(b).Ok?
    ensures CompareVersions(a, b).Ok? && Sign(CompareVersions(a, b).value) == Sign(SemVerPrecedence(a, b))
  {
    hide ParseVersion, Print, Valid, BeforeHyphen, IdentifiersOf, CoreIdentifiers, PrereleaseIdentifiers;
    PrintParse(a);
    PrintParse(b);
    var v, w := ParseVersion(a).value, ParseVersion(b).value;
    IdentifiersOfPrint(v);
    IdentifiersOfPrint(w);
    CoresDecide(v, w);
    NumericOrderAgrees([v.major, v.minor, v.patch], [w.major, w.minor, w.patch]);
    var x, y := ChannelName(v.channel), ChannelName(w.channel);
    if Core(v) == Core(w) && !v.channel.Stable? && !w.channel.Stable? {
      var p, q := PrereleaseIdentifiers(a), PrereleaseIdentifiers(b);
      if v.channel == w.channel {
        TextReflexive(x);
        NumericOrderAgrees(v.identifiers, w.identifiers);
        assert p[1..] == NumericIdentifiers(v.identifiers) && q[1..] == NumericIdentifiers(w.identifiers);
      } else {
        assert x[0] != y[0] && CompareText(x, y) == x[0] as int - y[0] as int;
      }
    }
  }

  // ----- sorted inventories -----

  predicate Sorted(versions: seq<Version>) {
    forall i, j | 0 <= i < j < |versions| :: Compare(versions[i], versions[j]) <= 0
  }

  function Insert(v: Version, sorted: seq<Version>): seq<Version> {
    if sorted == [] || Compare(v, sorted[0]) <= 0 then [v] + sorted
    else [sorted[0]] + Insert(v, sorted[1..])
  }

  /** `versions.sort(compareVersions)`: the order determines the result, because only equal versions compare equal. */
  function Sort(versions: seq<Version>): seq<Version> {
    if versions == [] then [] else Insert(versions[0], Sort(versions[1..]))
  }

  lemma {:induction false} InsertSorts(v: Version, sorted: seq<Version>)
    requires Sorted(sorted)
    ensures Sorted(Insert(v, sorted))
    ensures multiset(Insert(v, sorted)) == multiset{v} + multiset(sorted)
  {
    hide Compare;
    if sorted != [] {
      Trichotomy(v, sorted[0]);
      if Compare(v, sorted[0]) <= 0 {
        forall i | 0 < i < |sorted| ensures Compare(v, sorted[i]) <= 0 {
          NotAboveTransitive(v, sorted[0], sorted[i]);
        }
      } else {
        InsertSorts(v, sorted[1..]);
        var rest := Insert(v, sorted[1..]);
        assert sorted == [sorted[0]] + sorted[1..];
        forall i | 0 <= i < |rest| ensures Compare(sorted[0], rest[i]) <= 0 {
          assert rest[i] in multiset(rest);
        }
      }
    }
  }

  lemma NotAboveTransitive(a: Version, b: Version, c: Version)
    requires Compare(a, b) <= 0 && Compare(b, c) <= 0
    ensures Compare(a, c) <= 0
  {
    Trichotomy(a, b);
    Trichotomy(b, c);
    if a != b && b != c {
      Transitive(a, b, c);
    }
  }

  lemma {:induction false} SortSorts(versions: seq<Version>)
    ensures Sorted(Sort(versions))
    ensures multiset(Sort(versions)) == multiset(versions)
  {
    if versions != [] {
      SortSorts(versions[1..]);
      InsertSorts(versions[0], Sort(versions[1..]));
      assert versions == [versions[0]] + versions[1..];
    }
  }

  lemma SortKeepsMembers(versions: seq<Version>)
    ensures |Sort(versions)| == |versions|
    ensures forall v :: v in Sort(versions) <==> v in versions
  {
    SortSorts(versions);
    assert |multiset(Sort(versions))| == |multiset(versions)|;
    forall v ensures v in Sort(versions) <==> v in versions {
      assert v in Sort(versions) <==> v in multiset(Sort(versions));
    }
  }

  /** `versions.sort(compareVersions).at(-1)` */
  function Newest(versions: seq<Version>): Option<Version> {
    var sorted := Sort(versions);
    if sorted == [] then None else Some(sorted[|sorted| - 1])
  }

  /** The last sorted version is the greatest one, and there is none exactly for an empty inventory. */
  lemma NewestIsGreatest(versions: seq<Version>)
    ensures Newest(versions).None? <==> versions == []
    ensures Newest(versions).Some? ==>
              && Newest(versions).value in versions
              && forall v <- versions :: v == Newest(versions).value || Below(v, Newest(versions).value)
  {
    SortSorts(versions);
    SortKeepsMembers(versions);
    var sorted := Sort(versions);
    if versions != [] {
      var last := |sorted| - 1;
      forall v | v in versions ensures v == sorted[last] || Below(v, sorted[last]) {
        var i :| 0 <= i < |sorted| && sorted[i] == v;
        Trichotomy(v, sorted[last]);
      }
    }
  }
}
