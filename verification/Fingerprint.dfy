/**
 * The fingerprint of a package's contents apart from its changelog and its version. A digest is
 * modelled as the hexadecimal text of what it digests, which like a hash without collisions differs
 * whenever the input does.
 */
module Fingerprint {
  import opened Wrappers
  import opened Text
  import Archive
  import Ordering
  import Versions

  const CHANGELOG := "CHANGELOG.md"
  const MANIFEST := "package.json"
  const RELEASE_VERSION := "<release-version>"

  type Files = map<string, string>

  datatype Fault = NoInventory | UnsafePath | NotJson | InvalidVersion | AmbiguousVersion

  // ---------------------------------------------------------------- digests

  function HexDigit(n: nat): (c: char)
    requires n < 16
    ensures IsDigit(c) || 'a' <= c <= 'f'
  {
    if n < 10 then '0' + n as char else 'a' + (n - 10) as char
  }

  /** The hexadecimal text of a number below 2 to the 24th, which every character code is. */
  function HexCode(n: nat, digits: nat): (text: string)
    ensures |text| == digits
    ensures forall c <- text :: IsDigit(c) || 'a' <= c <= 'f'
  {
    if digits == 0 then "" else HexCode(n / 16, digits - 1) + [HexDigit(n % 16)]
  }

  lemma {:induction false} HexCodeInjective(a: nat, b: nat, digits: nat)
    requires HexCode(a, digits) == HexCode(b, digits)
    requires a < Power16(digits) && b < Power16(digits)
    ensures a == b
  {
    if digits > 0 {
      var x, y := HexCode(a / 16, digits - 1), HexCode(b / 16, digits - 1);
      assert HexCode(a, digits)[..digits - 1] == x && HexCode(b, digits)[..digits - 1] == y;
      assert HexCode(a, digits)[digits - 1] == HexDigit(a % 16);
      assert HexCode(b, digits)[digits - 1] == HexDigit(b % 16);
      HexCodeInjective(a / 16, b / 16, digits - 1);
      assert a % 16 == b % 16;
    }
  }

  function Power16(n: nat): nat {
    if n == 0 then 1 else 16 * Power16(n - 1)
  }

  function Digest(bytes: string): (digest: string)
    ensures forall c <- digest :: IsDigit(c) || 'a' <= c <= 'f'
    ensures |digest| == 6 * |bytes|
  {
    if bytes == "" then "" else HexCode(bytes[0] as nat, 6) + Digest(bytes[1..])
  }

  lemma {:induction false} DigestInjective(a: string, b: string)
    requires Digest(a) == Digest(b)
    ensures a == b
  {
    if a != "" {
      var x, y := HexCode(a[0] as nat, 6), HexCode(b[0] as nat, 6);
      assert Digest(a)[..6] == x && Digest(b)[..6] == y;
      assert Digest(a)[6..] == Digest(a[1..]) && Digest(b)[6..] == Digest(b[1..]);
      assert Power16(6) == 0x1000000;
      HexCodeInjective(a[0] as nat, b[0] as nat, 6);
      DigestInjective(a[1..], b[1..]);
      assert a == [a[0]] + a[1..] && b == [b[0]] + b[1..];
    }
  }

  // ---------------------------------------------------------------- JSON text of a path

  /** How `JSON.stringify` writes one character inside a string. */
  function EscapeChar(c: char): (text: string)
    ensures text != "" && text[0] != '"'
    ensures text[0] == '\\' ==> |text| == 2 || |text| == 6
    ensures text[0] != '\\' ==> text == [c]
    ensures '\n' !in text
  {
    if c == '"' then "\\\""
    else if c == '\\' then "\\\\"
    else if c == 8 as char then "\\b"
    else if c == '\t' then "\\t"
    else if c == '\n' then "\\n"
    else if c == 12 as char then "\\f"
    else if c == '\r' then "\\r"
    else if c < 32 as char then "\\u" + HexCode(c as nat, 4)
    else [c]
  }

  /** The rest of a text in quotes: its characters, the closing quote and what follows. */
  function Quoted(text: string, rest: string): (quoted: string)
    ensures '\n' !in rest ==> '\n' !in quoted
    ensures quoted != "" && (quoted[0] == '"' <==> text == "")
  {
    if text == "" then "\"" + rest else EscapeChar(text[0]) + Quoted(text[1..], rest)
  }

  /** No character's text begins another's. */
  lemma {:induction false} EscapeCharIsPrefixFree(a: char, b: char, x: string, y: string)
    requires EscapeChar(a) + x == EscapeChar(b) + y
    ensures a == b && x == y
  {
    var s, t := EscapeChar(a), EscapeChar(b);
    assert (s + x)[0] == s[0] && (t + y)[0] == t[0];
    if s[0] == '\\' {
      assert (s + x)[1] == s[1] && (t + y)[1] == t[1];
      if s[1] == 'u' {
        assert s == (s + x)[..6] && t == (t + y)[..6];
        assert s[2..] == HexCode(a as nat, 4) && t[2..] == HexCode(b as nat, 4);
        assert Power16(4) == 0x10000;
        HexCodeInjective(a as nat, b as nat, 4);
      }
    }
    assert x == (s + x)[|s|..] && y == (t + y)[|t|..];
  }

  /** A quoted text ends at the first quote that its escapes leave. */
  lemma {:induction false} QuotedInjective(a: string, b: string, x: string, y: string)
    requires Quoted(a, x) == Quoted(b, y)
    ensures a == b && x == y
  {
    hide EscapeChar;
    if a == "" && b == "" {
      assert x == Quoted(a, x)[1..] && y == Quoted(b, y)[1..];
    } else if a != "" && b != "" {
      EscapeCharIsPrefixFree(a[0], b[0], Quoted(a[1..], x), Quoted(b[1..], y));
      QuotedInjective(a[1..], b[1..], x, y);
      assert a == [a[0]] + a[1..] && b == [b[0]] + b[1..];
    }
  }

  /** `JSON.stringify([path, digest])` */
  function Line(path: string, digest: string): string {
    "[\"" + Quoted(path, ",\"" + digest + "\"]")
  }

  lemma {:induction false} LineInjective(a: string, b: string, x: string, y: string)
    requires Line(a, x) == Line(b, y)
    ensures a == b && x == y
  {
    hide Quoted;
    var s, t := ",\"" + x + "\"]", ",\"" + y + "\"]";
    assert Line(a, x)[2..] == Quoted(a, s) && Line(b, y)[2..] == Quoted(b, t);
    QuotedInjective(a, b, s, t);
    assert s[2..|s| - 2] == x && t[2..|t| - 2] == y;
  }

  // ---------------------------------------------------------------- the version in the manifest

  const KEY := "\"version\""

  predicate IsValueChar(c: char) {
    c != '"' && c != '\\'
  }

  function LeadingValue(text: string): (value: string)
    ensures value <= text && forall c <- value :: IsValueChar(c)
    ensures |value| < |text| ==> !IsValueChar(text[|value|])
  {
    if text != "" && IsValueChar(text[0]) then [text[0]] + LeadingValue(text[1..]) else ""
  }

  /** A version field: the space around its colon, and its value. */
  datatype Match = Match(before: string, after: string, value: string)

  /** A text in quotes, with none inside. */
  predicate IsQuotedWord(key: string) {
    |key| >= 2 && forall i | 0 <= i < |key| :: key[i] == '"' <==> i == 0 || i == |key| - 1
  }

  predicate IsMatch(m: Match) {
    && (forall c <- m.before :: IsSpace(c)) && (forall c <- m.after :: IsSpace(c))
    && (forall c <- m.value :: IsValueChar(c))
  }

  function StringText(value: string, tail: string): string {
    "\"" + (value + ("\"" + tail))
  }

  function ColonText(after: string, rest: string): string {
    ":" + (after + rest)
  }

  /** The field as it stands in a text, with what follows it. */
  function FieldText(key: string, m: Match, tail: string): string {
    key + (m.before + ColonText(m.after, StringText(m.value, tail)))
  }

  /** `"([^"\\]*)"` at the start of a text, and what follows. */
  function ReadString(text: string): (found: Option<(string, string)>)
    ensures found.Some? ==>
      text == StringText(found.value.0, found.value.1) && forall c <- found.value.0 :: IsValueChar(c)
  {
    if text == "" || text[0] != '"' then None
    else
      var value := LeadingValue(text[1..]);
      var rest := text[1 + |value|..];
      if rest == "" || rest[0] != '"' then None
      else
        assert text[1..] == value + rest;
        Some((value, rest[1..]))
  }

  /** `:\s*"([^"\\]*)"` at the start of a text, and what follows. */
  function ReadColon(text: string): Option<(string, string, string)> {
    if text == "" || text[0] != ':' then None
    else
      var after := LeadingSpace(text[1..]);
      var value := ReadString(text[1 + |after|..]);
      if value.None? then None else Some((after, value.value.0, value.value.1))
  }

  lemma {:induction false} ReadColonText(text: string)
    requires ReadColon(text).Some?
    ensures var (after, value, tail) := ReadColon(text).value;
      && text == ColonText(after, StringText(value, tail))
      && (forall c <- after :: IsSpace(c)) && (forall c <- value :: IsValueChar(c))
  {
    hide ReadString, LeadingSpace, StringText, IsSpace, IsValueChar;
    var after := LeadingSpace(text[1..]);
    assert text[1..] == after + text[1 + |after|..];
    assert text == ":" + text[1..];
  }

  /** `"version"\s*:\s*"([^"\\]*)"` at the start of a text, and what follows. */
  function MatchHere(key: string, text: string): Option<(Match, string)> {
    if !(key <= text) then None
    else
      var rest := text[|key|..];
      var before := LeadingSpace(rest);
      var colon := ReadColon(rest[|before|..]);
      if colon.None? then None else Some((Match(before, colon.value.0, colon.value.1), colon.value.2))
  }

  lemma {:induction false} MatchHereText(key: string, text: string)
    requires MatchHere(key, text).Some?
    ensures var (m, tail) := MatchHere(key, text).value; text == FieldText(key, m, tail) && IsMatch(m)
  {
    hide ReadColon, LeadingSpace, ColonText, StringText, IsSpace, IsValueChar;
    var rest := text[|key|..];
    var before := LeadingSpace(rest);
    ReadColonText(rest[|before|..]);
    assert text == key + rest;
    assert rest == before + rest[|before|..];
  }

  lemma {:induction false} LeadingValueOf(value: string, rest: string)
    requires (forall c <- value :: IsValueChar(c)) && rest != "" && !IsValueChar(rest[0])
    ensures LeadingValue(value + rest) == value
  {
    if value == "" {
      assert value + rest == rest;
    } else {
      LeadingValueOf(value[1..], rest);
      assert (value + rest)[1..] == value[1..] + rest;
    }
  }

  lemma {:induction false} StringRoundTrip(value: string, tail: string)
    requires forall c <- value :: IsValueChar(c)
    ensures ReadString(StringText(value, tail)) == Some((value, tail))
  {
    var text := StringText(value, tail);
    assert text[1..] == value + ("\"" + tail);
    LeadingValueOf(value, "\"" + tail);
    assert text[1 + |value|..] == "\"" + tail;
  }

  lemma {:induction false} ColonRoundTrip(after: string, value: string, tail: string)
    requires (forall c <- after :: IsSpace(c)) && forall c <- value :: IsValueChar(c)
    ensures ReadColon(ColonText(after, StringText(value, tail))) == Some((after, value, tail))
  {
    hide ReadString;
    var quoted := StringText(value, tail);
    var text := ColonText(after, quoted);
    assert text[1..] == after + quoted;
    NotSpace();
    LeadingSpaceOf(after, quoted);
    assert text[1 + |after|..] == quoted;
    StringRoundTrip(value, tail);
  }

  /** A field reads back as itself, whatever follows. */
  lemma {:induction false} FieldRoundTrip(key: string, m: Match, tail: string)
    requires IsMatch(m)
    ensures MatchHere(key, FieldText(key, m, tail)) == Some((m, tail))
  {
    hide ReadColon;
    var colon := ColonText(m.after, StringText(m.value, tail));
    var rest := m.before + colon;
    assert FieldText(key, m, tail)[|key|..] == rest;
    NotSpace();
    LeadingSpaceOf(m.before, colon);
    assert rest[|m.before|..] == colon;
    ColonRoundTrip(m.after, m.value, tail);
  }

  lemma NotSpace()
    ensures !IsSpace(':') && !IsSpace('"')
  {}

  /** The first version field of a text: what precedes it, the field and what follows. */
  function FirstMatch(key: string, text: string): Option<(string, Match, string)> {
    if text == "" then None
    else
      var here := MatchHere(key, text);
      if here.Some? then Some(("", here.value.0, here.value.1))
      else
        var later := FirstMatch(key, text[1..]);
        if later.None? then None else Some(([text[0]] + later.value.0, later.value.1, later.value.2))
  }

  lemma {:induction false} FirstMatchText(key: string, text: string)
    requires FirstMatch(key, text).Some?
    ensures var (pre, m, tail) := FirstMatch(key, text).value;
      text == pre + FieldText(key, m, tail) && IsMatch(m)
  {
    hide MatchHere, FieldText, IsMatch;
    if MatchHere(key, text).Some? {
      MatchHereText(key, text);
      assert text == "" + text;
    } else {
      FirstMatchText(key, text[1..]);
      assert text == [text[0]] + text[1..];
    }
  }

  /** Where the opening quote of a field's value is. */
  function ValueAt(key: string, m: Match): nat {
    |key| + |m.before| + 1 + |m.after|
  }

  /** Where the closing quote of a field's value is. */
  function EndAt(key: string, m: Match): nat {
    ValueAt(key, m) + 1 + |m.value|
  }

  lemma StringLayout(value: string, tail: string)
    ensures var text := StringText(value, tail);
      && |text| == 2 + |value| + |tail|
      && text[0] == '"' && text[1..1 + |value|] == value && text[1 + |value|] == '"' && text[2 + |value|..] == tail
  {}

  lemma ColonLayout(after: string, rest: string)
    ensures var text := ColonText(after, rest);
      && |text| == 1 + |after| + |rest|
      && text[0] == ':' && text[1..1 + |after|] == after && text[1 + |after|..] == rest
  {}

  lemma KeyLayout(key: string, before: string, rest: string)
    ensures var text := key + (before + rest);
      && |text| == |key| + |before| + |rest|
      && text[..|key|] == key && text[|key|..|key| + |before|] == before && text[|key| + |before|..] == rest
  {}

  lemma PartOfRest(text: string, a: nat, b: nat, c: nat)
    requires a + c <= |text| && b <= c
    ensures text[a..][b..c] == text[a + b..a + c] && text[a..][b..] == text[a + b..]
  {}

  /** Where the parts of a field after its key are. */
  lemma {:induction false} ValueLayout(m: Match, tail: string)
    ensures var text, a, v := ColonText(m.after, StringText(m.value, tail)), |m.after|, |m.value|;
      && |text| == 3 + a + v + |tail|
      && text[0] == ':' && text[1..1 + a] == m.after && text[1 + a] == '"'
      && text[2 + a..2 + a + v] == m.value && text[2 + a + v] == '"' && text[3 + a + v..] == tail
  {
    hide ColonText, StringText;
    var quoted := StringText(m.value, tail);
    var text, a, v := ColonText(m.after, quoted), |m.after|, |m.value|;
    StringLayout(m.value, tail);
    ColonLayout(m.after, quoted);
    PartOfRest(text, 1 + a, 1, 1 + v);
    PartOfRest(text, 1 + a, 2 + v, 2 + v);
    assert text[1 + a] == quoted[0] && text[2 + a + v] == quoted[1 + v];
  }

  /** Where the key of a field is, and where the rest begins. */
  lemma {:induction false} KeyPart(key: string, m: Match, tail: string)
    ensures var text, rest := FieldText(key, m, tail), ColonText(m.after, StringText(m.value, tail));
      && |text| == |key| + |m.before| + |rest| && text[|key| + |m.before|..] == rest
      && text[..|key|] == key && text[|key|..|key| + |m.before|] == m.before
  {
    hide ColonText, StringText;
    KeyLayout(key, m.before, ColonText(m.after, StringText(m.value, tail)));
  }

  lemma CharOfRest(text: string, a: nat, i: nat)
    requires a + i < |text|
    ensures text[a..][i] == text[a + i]
  {}

  /** Where the colon of a field and the opening quote of its value are. */
  lemma {:induction false} ColonPart(key: string, m: Match, tail: string)
    ensures var text := FieldText(key, m, tail);
      && |text| == EndAt(key, m) + 1 + |tail|
      && text[|key| + |m.before|] == ':' && text[|key| + |m.before| + 1..ValueAt(key, m)] == m.after
      && text[ValueAt(key, m)] == '"'
  {
    hide FieldText, ColonText, StringText;
    KeyPart(key, m, tail);
    ValueLayout(m, tail);
    var text, k, a := FieldText(key, m, tail), |key| + |m.before|, |m.after|;
    PartOfRest(text, k, 1, 1 + a);
    CharOfRest(text, k, 0);
    CharOfRest(text, k, 1 + a);
  }

  /** Where the value of a field, its closing quote and what follows are. */
  lemma {:induction false} ValuePart(key: string, m: Match, tail: string)
    ensures var text := FieldText(key, m, tail);
      && |text| == EndAt(key, m) + 1 + |tail|
      && text[ValueAt(key, m) + 1..EndAt(key, m)] == m.value
      && text[EndAt(key, m)] == '"' && text[EndAt(key, m) + 1..] == tail
  {
    hide FieldText, ColonText, StringText;
    KeyPart(key, m, tail);
    ValueLayout(m, tail);
    var text, k, a, v := FieldText(key, m, tail), |key| + |m.before|, |m.after|, |m.value|;
    PartOfRest(text, k, 2 + a, 2 + a + v);
    PartOfRest(text, k, 3 + a + v, 3 + a + v);
    CharOfRest(text, k, 2 + a + v);
  }

  /** Where the parts of a field are. */
  lemma {:induction false} FieldLayout(key: string, m: Match, tail: string)
    ensures var text := FieldText(key, m, tail);
      && |text| == EndAt(key, m) + 1 + |tail|
      && text[..|key|] == key && text[|key|..|key| + |m.before|] == m.before
      && text[|key| + |m.before|] == ':' && text[|key| + |m.before| + 1..ValueAt(key, m)] == m.after
      && text[ValueAt(key, m)] == '"' && text[ValueAt(key, m) + 1..EndAt(key, m)] == m.value
      && text[EndAt(key, m)] == '"' && text[EndAt(key, m) + 1..] == tail
  {
    hide FieldText, ColonText, StringText;
    KeyPart(key, m, tail);
    ColonPart(key, m, tail);
    ValuePart(key, m, tail);
  }

  /** Before its closing quote, a field has three quotes: two around its key and the one before its value. */
  lemma {:induction false} QuotesOf(key: string, m: Match, tail: string, i: nat)
    requires IsQuotedWord(key) && IsMatch(m) && i < EndAt(key, m)
    ensures i < |FieldText(key, m, tail)|
    ensures FieldText(key, m, tail)[i] == '"' <==> i == 0 || i == |key| - 1 || i == ValueAt(key, m)
  {
    hide FieldText;
    FieldLayout(key, m, tail);
    NotSpace();
    var text, b := FieldText(key, m, tail), |key| + |m.before|;
    if i < |key| {
      assert text[i] == text[..|key|][i] == key[i];
    } else if i < b {
      assert text[i] == m.before[i - |key|] && m.before[i - |key|] in m.before;
    } else if b < i < ValueAt(key, m) {
      assert text[i] == m.after[i - b - 1] && m.after[i - b - 1] in m.after;
    } else if i > ValueAt(key, m) {
      assert text[i] == m.value[i - ValueAt(key, m) - 1] && m.value[i - ValueAt(key, m) - 1] in m.value;
    }
  }

  lemma {:induction false} SamePrefix(key: string, pre: string, m: Match, value: string, tail: string, n: nat)
    requires n <= |pre| + ValueAt(key, m) + 1
    ensures var one, other := pre + FieldText(key, m, tail), pre + FieldText(key, m.(value := value), tail);
      n <= |one| && n <= |other| && one[..n] == other[..n]
  {
    hide FieldText;
    FieldLayout(key, m, tail);
    FieldLayout(key, m.(value := value), tail);
    var x, y, v := FieldText(key, m, tail), FieldText(key, m.(value := value), tail), ValueAt(key, m);
    KeyParts(key, x, m);
    KeyParts(key, y, m);
    assert x[..v + 1] == y[..v + 1];
    var one, other := pre + x, pre + y;
    assert one[..|pre| + v + 1] == pre + x[..v + 1];
    assert other[..|pre| + v + 1] == pre + y[..v + 1];
    assert one[..n] == one[..|pre| + v + 1][..n];
    assert other[..n] == other[..|pre| + v + 1][..n];
  }

  lemma KeyParts(key: string, text: string, m: Match)
    requires |text| > ValueAt(key, m)
    ensures text[..ValueAt(key, m) + 1] ==
      text[..|key|] + text[|key|..|key| + |m.before|] + [text[|key| + |m.before|]]
      + text[|key| + |m.before| + 1..ValueAt(key, m)] + [text[ValueAt(key, m)]]
  {}

  /** A field that begins before another cannot reach into its value. */
  lemma {:induction false} EarlierEnds(key: string, pre: string, m: Match, tail: string, earlier: Match, rest: string)
    requires IsQuotedWord(key) && pre != "" && IsMatch(m) && IsMatch(earlier)
    requires pre + FieldText(key, m, tail) == FieldText(key, earlier, rest)
    ensures EndAt(key, earlier) <= |pre| + ValueAt(key, m)
  {
    hide FieldText;
    var text := pre + FieldText(key, m, tail);
    var p := |pre|;
    FieldLayout(key, m, tail);
    QuotesOf(key, m, tail, 0);
    QuotesOf(key, m, tail, |key| - 1);
    QuotesOf(key, m, tail, ValueAt(key, m));
    assert text[p] == '"' && text[p + |key| - 1] == '"' && text[p + ValueAt(key, m)] == '"';
    if EndAt(key, earlier) > p + ValueAt(key, m) {
      QuotesOf(key, earlier, rest, p);
      QuotesOf(key, earlier, rest, p + |key| - 1);
      QuotesOf(key, earlier, rest, p + ValueAt(key, m));
      assert false;
    }
  }

  lemma {:induction false} NoEarlierMatch(key: string, pre: string, m: Match, value: string, tail: string)
    requires IsQuotedWord(key) && pre != "" && IsMatch(m) && forall c <- value :: IsValueChar(c)
    requires MatchHere(key, pre + FieldText(key, m, tail)).None?
    ensures MatchHere(key, pre + FieldText(key, m.(value := value), tail)).None?
  {
    hide FieldText, MatchHere;
    var one, other := pre + FieldText(key, m, tail), pre + FieldText(key, m.(value := value), tail);
    if MatchHere(key, other).Some? {
      var (earlier, rest) := MatchHere(key, other).value;
      MatchHereText(key, other);
      EarlierEnds(key, pre, m.(value := value), tail, earlier, rest);
      var n := EndAt(key, earlier) + 1;
      SamePrefix(key, pre, m, value, tail, n);
      FieldOfPrefix(key, one, other, earlier, rest);
      FieldRoundTrip(key, earlier, one[n..]);
      assert false;
    }
  }

  /** A text that agrees with a field up to its closing quote is that field. */
  lemma {:induction false} FieldOfPrefix(key: string, text: string, other: string, m: Match, rest: string)
    requires other == FieldText(key, m, rest) && EndAt(key, m) + 1 <= |text|
    requires EndAt(key, m) + 1 <= |other| && text[..EndAt(key, m) + 1] == other[..EndAt(key, m) + 1]
    ensures text == FieldText(key, m, text[EndAt(key, m) + 1..])
  {
    var n := EndAt(key, m) + 1;
    FieldAppends(key, m, rest);
    FieldAppends(key, m, text[n..]);
    assert other[..n] == FieldText(key, m, "");
    assert text == text[..n] + text[n..];
  }

  lemma {:induction false} FieldAppends(key: string, m: Match, tail: string)
    ensures FieldText(key, m, tail) == FieldText(key, m, "") + tail && |FieldText(key, m, "")| == EndAt(key, m) + 1
  {
    assert StringText(m.value, tail) == StringText(m.value, "") + tail;
    assert ColonText(m.after, StringText(m.value, tail)) == ColonText(m.after, StringText(m.value, "")) + tail;
  }

  /** Another value in the first field leaves it the first field. */
  lemma {:induction false} FirstMatchKept(key: string, pre: string, m: Match, value: string, tail: string)
    requires IsQuotedWord(key) && IsMatch(m) && forall c <- value :: IsValueChar(c)
    requires FirstMatch(key, pre + FieldText(key, m, tail)) == Some((pre, m, tail))
    ensures FirstMatch(key, pre + FieldText(key, m.(value := value), tail)) == Some((pre, m.(value := value), tail))
  {
    hide FieldText, MatchHere;
    var one, other := pre + FieldText(key, m, tail), pre + FieldText(key, m.(value := value), tail);
    FieldLayout(key, m.(value := value), tail);
    if pre == "" {
      assert other == FieldText(key, m.(value := value), tail);
      FieldRoundTrip(key, m.(value := value), tail);
    } else {
      assert MatchHere(key, one).None?;
      NoEarlierMatch(key, pre, m, value, tail);
      assert one[1..] == pre[1..] + FieldText(key, m, tail);
      assert other[1..] == pre[1..] + FieldText(key, m.(value := value), tail);
      FirstMatchKept(key, pre[1..], m, value, tail);
      assert pre == [pre[0]] + pre[1..];
    }
  }

  // ---------------------------------------------------------------- the version taken out

  /** `JSON.parse(text).version`, where there is one. */
  type VersionReader = string -> Option<string>

  function NormalizeVersion(path: string, bytes: string, versionOf: VersionReader): Result<string, Fault> {
    if path != MANIFEST then Ok(bytes)
    else
      var version := versionOf(bytes);
      if version.None? then Err(NotJson)
      else if Versions.ParseVersion(version.value).Err? then Err(InvalidVersion)
      else
        match FirstMatch(KEY, bytes)
        case None => Err(AmbiguousVersion)
        case Some((pre, m, tail)) =>
          if m.value != version.value || FirstMatch(KEY, tail).Some? then Err(AmbiguousVersion)
          else Ok(pre + FieldText(KEY, m.(value := RELEASE_VERSION), tail))
  }

  lemma ReleaseVersionIsValue()
    ensures IsQuotedWord(KEY)
    ensures forall c <- RELEASE_VERSION :: IsValueChar(c)
  {}

  /** Two manifests that are one text but for the value of its version field. */
  ghost predicate OneVersionApart(one: string, other: string) {
    exists pre: string, m: Match, tail: string, value: string ::
      && FirstMatch(KEY, one) == Some((pre, m, tail)) && (forall c <- value :: IsValueChar(c))
      && other == pre + FieldText(KEY, m.(value := value), tail)
  }

  /** Taking out the version makes two manifests one text exactly when they differ in nothing else. */
  lemma {:induction false} NormalizedSame(one: string, other: string, versionOf: VersionReader)
    ensures NormalizeVersion(MANIFEST, one, versionOf).Ok? && NormalizeVersion(MANIFEST, other, versionOf).Ok? ==>
      (NormalizeVersion(MANIFEST, one, versionOf) == NormalizeVersion(MANIFEST, other, versionOf)
       <==> OneVersionApart(one, other))
  {
    if NormalizeVersion(MANIFEST, one, versionOf).Ok? && NormalizeVersion(MANIFEST, other, versionOf).Ok? {
      AcceptedManifests(one, other, versionOf);
    }
  }

  lemma {:induction false} AcceptedManifests(one: string, other: string, versionOf: VersionReader)
    requires NormalizeVersion(MANIFEST, one, versionOf).Ok? && NormalizeVersion(MANIFEST, other, versionOf).Ok?
    ensures NormalizeVersion(MANIFEST, one, versionOf) == NormalizeVersion(MANIFEST, other, versionOf)
      <==> OneVersionApart(one, other)
  {
    hide FieldText, FirstMatch;
    var (pre1, m1, tail1) := FirstMatch(KEY, one).value;
    var (pre2, m2, tail2) := FirstMatch(KEY, other).value;
    FirstMatchText(KEY, one);
    FirstMatchText(KEY, other);
    ReleaseVersionIsValue();
    FirstMatchKept(KEY, pre1, m1, RELEASE_VERSION, tail1);
    FirstMatchKept(KEY, pre2, m2, RELEASE_VERSION, tail2);
    if NormalizeVersion(MANIFEST, one, versionOf) == NormalizeVersion(MANIFEST, other, versionOf) {
      assert m1.(value := m2.value) == m2;
    } else if OneVersionApart(one, other) {
      var value: string :|
        (forall c <- value :: IsValueChar(c)) && other == pre1 + FieldText(KEY, m1.(value := value), tail1);
      FirstMatchKept(KEY, pre1, m1, value, tail1);
    }
  }

  // ---------------------------------------------------------------- the fingerprint

  /** The paths of an inventory in ascending order, each once. */
  predicate Lists(paths: seq<string>, files: Files) {
    Ordering.Ascending(paths) && (forall path <- paths :: path in files) && (forall path <- files :: path in paths)
  }

  function FileLine(path: string, bytes: string, versionOf: VersionReader): Result<string, Fault> {
    if !Archive.SafePath(path) then Err(UnsafePath)
    else
      var normalized :- NormalizeVersion(path, bytes, versionOf);
      Ok(Line(path, Digest(normalized)))
  }

  function Lines(files: Files, paths: seq<string>, versionOf: VersionReader): Result<seq<string>, Fault>
    requires forall path <- paths :: path in files
  {
    if paths == [] then Ok([])
    else if paths[0] == CHANGELOG then Lines(files, paths[1..], versionOf)
    else
      var first :- FileLine(paths[0], files[paths[0]], versionOf);
      var rest :- Lines(files, paths[1..], versionOf);
      Ok([first] + rest)
  }

  function FingerprintOf(files: Files, paths: seq<string>, versionOf: VersionReader): Result<string, Fault>
    requires Lists(paths, files)
  {
    if files == map[] then Err(NoInventory)
    else
      var lines :- Lines(files, paths, versionOf);
      Ok(Digest(Terminated(lines, '\n')))
  }

  /** Every listing of the paths is the same one, so the result does not depend on the order of the files. */
  method ContentFingerprint(files: Files, versionOf: VersionReader) returns (result: Result<string, Fault>)
    ensures forall paths | Lists(paths, files) :: result == FingerprintOf(files, paths, versionOf)
  {
    var list := Ordering.ListSet(files.Keys);
    var sorted := Ordering.Sorted(list);
    result := HashFiles(files, sorted, versionOf);
    forall paths | Lists(paths, files) ensures paths == sorted {
      Ordering.AscendingIsUnique(paths, sorted);
    }
  }

  method HashFiles(files: Files, paths: seq<string>, versionOf: VersionReader) returns (result: Result<string, Fault>)
    requires Lists(paths, files)
    ensures result == FingerprintOf(files, paths, versionOf)
  {
    hide FileLine, Digest, Lines, Terminated;
    if files == map[] {
      return Err(NoInventory);
    }
    var hashed := "";
    var i := 0;
    assert paths[0..] == paths;
    while i < |paths|
      invariant 0 <= i <= |paths|
      invariant Follows(Lines(files, paths, versionOf), hashed, Lines(files, paths[i..], versionOf))
    {
      var path := paths[i];
      LinesStep(files, paths, i, versionOf);
      assert path in paths;
      i := i + 1;
      if path == CHANGELOG {
        continue;
      }
      var line := FileLine(path, files[path], versionOf);
      if line.Err? {
        return Err(line.error);
      }
      hashed := hashed + (line.value + ['\n']);
    }
    LinesStep(files, paths, i, versionOf);
    assert hashed + "" == hashed;
    return Ok(Digest(hashed));
  }

  /** All lines are the text hashed so far and the lines of the rest. */
  ghost predicate Follows(all: Result<seq<string>, Fault>, hashed: string, rest: Result<seq<string>, Fault>) {
    if rest.Err? then all == rest
    else all.Ok? && Terminated(all.value, '\n') == hashed + Terminated(rest.value, '\n')
  }

  lemma {:induction false} LinesStep(files: Files, paths: seq<string>, i: nat, versionOf: VersionReader)
    requires i <= |paths| && forall path <- paths :: path in files
    ensures i == |paths| ==> Lines(files, paths[i..], versionOf) == Ok([]) && Terminated([], '\n') == ""
    ensures i < |paths| ==>
      var all, rest := Lines(files, paths[i..], versionOf), Lines(files, paths[i + 1..], versionOf);
      var line := FileLine(paths[i], files[paths[i]], versionOf);
      if paths[i] == CHANGELOG then all == rest
      else if line.Err? then all == Err(line.error)
      else Follows(all, line.value + ['\n'], rest)
  {
    hide FileLine;
    if i < |paths| {
      assert paths[i..][1..] == paths[i + 1..] && paths[i] in paths;
      var line, rest := FileLine(paths[i], files[paths[i]], versionOf), Lines(files, paths[i + 1..], versionOf);
      if line.Ok? && rest.Ok? {
        assert ([line.value] + rest.value)[1..] == rest.value;
      }
    }
  }

  /** What a fingerprint must tell apart: every file but the changelog, and all of the manifest but its version. */
  ghost predicate SameContents(one: Files, other: Files) {
    forall path | path != CHANGELOG && (path in one || path in other) ::
      && path in one && path in other
      && (if path == MANIFEST then OneVersionApart(one[path], other[path]) else one[path] == other[path])
  }

  function Kept(paths: seq<string>): (kept: seq<string>)
    ensures forall path :: path in kept <==> path in paths && path != CHANGELOG
    ensures Ordering.Ascending(paths) ==> Ordering.Ascending(kept)
  {
    if paths == [] then []
    else
      var rest := Kept(paths[1..]);
      assert paths == [paths[0]] + paths[1..];
      if paths[0] == CHANGELOG then rest
      else
        var kept := [paths[0]] + rest;
        assert Ordering.Ascending(paths) ==> Ordering.Ascending(kept) by {
          if Ordering.Ascending(paths) {
            forall i, j | 0 <= i < j < |kept| ensures Ordering.Before(kept[i], kept[j]) {
              if i == 0 { assert rest[j - 1] in paths[1..]; }
            }
          }
        }
        kept
  }

  /** The normal form of each listed file. */
  predicate AreNormal(files: Files, paths: seq<string>, versionOf: VersionReader) {
    forall path <- paths :: path in files && NormalizeVersion(path, files[path], versionOf).Ok?
  }

  lemma LineHasNoBreak(path: string, normalized: string)
    ensures '\n' !in Line(path, Digest(normalized))
  {}

  /** The line of one file. */
  predicate IsLineOf(line: string, path: string, files: Files, versionOf: VersionReader) {
    path in files &&
    var normalized := NormalizeVersion(path, files[path], versionOf);
    normalized.Ok? && line == Line(path, Digest(normalized.value))
  }

  lemma FileLineIs(path: string, files: Files, versionOf: VersionReader)
    requires path in files && FileLine(path, files[path], versionOf).Ok?
    ensures IsLineOf(FileLine(path, files[path], versionOf).value, path, files, versionOf)
  {
    hide NormalizeVersion, Line, Digest, Archive.SafePath;
  }

  /** The lines are those of the kept paths, in their order. */
  lemma {:induction false} LinesAre(files: Files, paths: seq<string>, versionOf: VersionReader)
    requires (forall path <- paths :: path in files) && Lines(files, paths, versionOf).Ok?
    ensures var kept, lines := Kept(paths), Lines(files, paths, versionOf).value;
      |lines| == |kept| && forall i | 0 <= i < |kept| :: IsLineOf(lines[i], kept[i], files, versionOf)
  {
    hide IsLineOf, FileLine, NormalizeVersion;
    if paths != [] {
      var first, rest := paths[0], paths[1..];
      assert first in paths && forall path <- rest :: path in paths;
      LinesAre(files, rest, versionOf);
      if first != CHANGELOG {
        FileLineIs(first, files, versionOf);
        var line := FileLine(first, files[first], versionOf).value;
        HeadAndRest(line, Lines(files, rest, versionOf).value, first, Kept(rest), files, versionOf);
      }
    }
  }

  lemma {:induction false} HeadAndRest(
      line: string, lines: seq<string>, path: string, paths: seq<string>, files: Files, versionOf: VersionReader)
    requires |lines| == |paths| && IsLineOf(line, path, files, versionOf)
    requires forall i | 0 <= i < |paths| :: IsLineOf(lines[i], paths[i], files, versionOf)
    ensures forall i | 0 <= i < |paths| + 1 :: IsLineOf(([line] + lines)[i], ([path] + paths)[i], files, versionOf)
  {
    hide IsLineOf;
    forall i | 0 <= i < |paths| + 1
      ensures IsLineOf(([line] + lines)[i], ([path] + paths)[i], files, versionOf)
    {
      if i > 0 {
        assert IsLineOf(lines[i - 1], paths[i - 1], files, versionOf);
      }
    }
  }

  lemma {:induction false} LinesOf(files: Files, paths: seq<string>, versionOf: VersionReader)
    requires (forall path <- paths :: path in files) && Lines(files, paths, versionOf).Ok?
    ensures var kept, lines := Kept(paths), Lines(files, paths, versionOf).value;
      && AreNormal(files, kept, versionOf) && |lines| == |kept|
      && (forall i | 0 <= i < |kept| ::
            && kept[i] in files
            && lines[i] == Line(kept[i], Digest(NormalizeVersion(kept[i], files[kept[i]], versionOf).value)))
      && (forall line <- lines :: '\n' !in line)
  {
    hide Lines, Kept, Digest, NormalizeVersion, Line;
    LinesAre(files, paths, versionOf);
    var kept, lines := Kept(paths), Lines(files, paths, versionOf).value;
    forall path | path in kept
      ensures path in files && NormalizeVersion(path, files[path], versionOf).Ok?
    {
      var i :| 0 <= i < |kept| && kept[i] == path;
      assert IsLineOf(lines[i], kept[i], files, versionOf);
    }
    forall line | line in lines ensures '\n' !in line {
      var i :| 0 <= i < |lines| && lines[i] == line;
      assert IsLineOf(lines[i], kept[i], files, versionOf);
      LineHasNoBreak(kept[i], NormalizeVersion(kept[i], files[kept[i]], versionOf).value);
    }
    forall i | 0 <= i < |kept|
      ensures kept[i] in files
      ensures lines[i] == Line(kept[i], Digest(NormalizeVersion(kept[i], files[kept[i]], versionOf).value))
    {
      assert IsLineOf(lines[i], kept[i], files, versionOf);
    }
  }

  /** Lines that are equal list the same files with the same normal forms. */
  lemma {:induction false} EqualLines(
      one: Files, other: Files, first: seq<string>, second: seq<string>, versionOf: VersionReader)
    requires (forall path <- first :: path in one) && (forall path <- second :: path in other)
    requires Lines(one, first, versionOf).Ok? && Lines(other, second, versionOf).Ok?
    ensures Lines(one, first, versionOf) == Lines(other, second, versionOf)
      <==> (Kept(first) == Kept(second)
            && forall path <- Kept(first) :: path in one && path in other
                 && NormalizeVersion(path, one[path], versionOf) == NormalizeVersion(path, other[path], versionOf))
  {
    hide Digest, NormalizeVersion, Line, Lines, Kept;
    LinesOf(one, first, versionOf);
    LinesOf(other, second, versionOf);
    var k1, k2 := Kept(first), Kept(second);
    var l1, l2 := Lines(one, first, versionOf).value, Lines(other, second, versionOf).value;
    if l1 == l2 {
      forall i | 0 <= i < |k1|
        ensures k1[i] == k2[i]
        ensures NormalizeVersion(k1[i], one[k1[i]], versionOf) == NormalizeVersion(k1[i], other[k1[i]], versionOf)
      {
        var x := NormalizeVersion(k1[i], one[k1[i]], versionOf).value;
        var y := NormalizeVersion(k2[i], other[k2[i]], versionOf).value;
        LineInjective(k1[i], k2[i], Digest(x), Digest(y));
        DigestInjective(x, y);
      }
    }
  }

  /**
   * Two inventories have one fingerprint exactly when they agree on every path and byte apart from
   * the changelog and the value of the version field.
   */
  lemma {:induction false} EqualFingerprints(
      one: Files, other: Files, first: seq<string>, second: seq<string>, versionOf: VersionReader)
    requires Lists(first, one) && Lists(second, other)
    ensures FingerprintOf(one, first, versionOf).Ok? && FingerprintOf(other, second, versionOf).Ok? ==>
      (FingerprintOf(one, first, versionOf) == FingerprintOf(other, second, versionOf) <==> SameContents(one, other))
  {
    if FingerprintOf(one, first, versionOf).Ok? && FingerprintOf(other, second, versionOf).Ok? {
      AcceptedFingerprints(one, other, first, second, versionOf);
    }
  }

  lemma {:induction false} AcceptedFingerprints(
      one: Files, other: Files, first: seq<string>, second: seq<string>, versionOf: VersionReader)
    requires Lists(first, one) && Lists(second, other)
    requires FingerprintOf(one, first, versionOf).Ok? && FingerprintOf(other, second, versionOf).Ok?
    ensures FingerprintOf(one, first, versionOf) == FingerprintOf(other, second, versionOf)
      <==> SameContents(one, other)
  {
    hide Digest, NormalizeVersion, Lines, Kept, OneVersionApart;
    var l1, l2 := Lines(one, first, versionOf).value, Lines(other, second, versionOf).value;
    LinesOf(one, first, versionOf);
    LinesOf(other, second, versionOf);
    SplitTerminated(l1, '\n');
    SplitTerminated(l2, '\n');
    if FingerprintOf(one, first, versionOf) == FingerprintOf(other, second, versionOf) {
      DigestInjective(Terminated(l1, '\n'), Terminated(l2, '\n'));
      assert l1 == (l1 + [""])[..|l1|] && l2 == (l2 + [""])[..|l2|];
    }
    assert FingerprintOf(one, first, versionOf) == FingerprintOf(other, second, versionOf) <==> l1 == l2;
    EqualLines(one, other, first, second, versionOf);
    if (forall path :: path in Kept(first) <==> path in Kept(second)) {
      Ordering.AscendingIsUnique(Kept(first), Kept(second));
    }
    forall path | path in Kept(first) && path in Kept(second)
      ensures NormalizeVersion(path, one[path], versionOf) == NormalizeVersion(path, other[path], versionOf)
        <==> if path == MANIFEST then OneVersionApart(one[path], other[path]) else one[path] == other[path]
    {
      NormalFormsSame(path, one[path], other[path], versionOf);
    }
  }

  lemma {:induction false} NormalFormsSame(path: string, one: string, other: string, versionOf: VersionReader)
    requires NormalizeVersion(path, one, versionOf).Ok? && NormalizeVersion(path, other, versionOf).Ok?
    ensures NormalizeVersion(path, one, versionOf) == NormalizeVersion(path, other, versionOf)
      <==> if path == MANIFEST then OneVersionApart(one, other) else one == other
  {
    if path == MANIFEST {
      NormalizedSame(one, other, versionOf);
    }
  }
}
