/** String splitting and decimal numerals, as JavaScript's `split`, `join`, `Number` and template strings use them. */
module Text {

  /** `text.split(separator)` for a one-character separator: always at least one part. */
  function Split(text: string, separator: char): (parts: seq<string>)
    ensures |parts| >= 1
  {
    if text == "" then [""]
    else
      var rest := Split(text[1..], separator);
      if text[0] == separator then [""] + rest else [[text[0]] + rest[0]] + rest[1..]
  }

  /** `parts.join(separator)` */
  function Join(parts: seq<string>, separator: char): string {
    if parts == [] then ""
    else if |parts| == 1 then parts[0]
    else parts[0] + [separator] + Join(parts[1..], separator)
  }

  lemma {:induction false} JoinSplit(text: string, separator: char)
    ensures Join(Split(text, separator), separator) == text
    ensures forall part <- Split(text, separator) :: separator !in part
  {
    if text != "" {
      JoinSplit(text[1..], separator);
      var rest, parts := Split(text[1..], separator), Split(text, separator);
      assert text == [text[0]] + text[1..];
      if text[0] == separator {
        assert parts[1..] == rest;
        assert Join(parts, separator) == "" + [separator] + Join(rest, separator);
      } else {
        assert parts[1..] == rest[1..];
        if |rest| == 1 {
          assert Join(parts, separator) == [text[0]] + rest[0];
        } else {
          assert Join(parts, separator) == [text[0]] + rest[0] + [separator] + Join(rest[1..], separator);
          assert Join(rest, separator) == rest[0] + [separator] + Join(rest[1..], separator);
        }
      }
    }
  }

  lemma {:induction false} SplitJoin(parts: seq<string>, separator: char)
    requires parts != []
    requires forall part <- parts :: separator !in part
    ensures Split(Join(parts, separator), separator) == parts
  {
    if |parts| == 1 {
      SplitPrefix(parts[0], "", separator);
      assert parts[0] + "" == parts[0];
      assert parts == [parts[0]];
    } else {
      SplitJoin(parts[1..], separator);
      var rest := Join(parts[1..], separator);
      SplitPrefix(parts[0], [separator] + rest, separator);
      assert parts[0] + [separator] + rest == parts[0] + ([separator] + rest);
      assert ([separator] + rest)[1..] == rest;
      assert Split([separator] + rest, separator) == [""] + parts[1..];
      assert parts[0] + "" == parts[0];
      assert parts == [parts[0]] + parts[1..];
    }
  }

  /** A part without separators is glued to the first part of what follows. */
  lemma {:induction false} SplitPrefix(prefix: string, tail: string, separator: char)
    requires separator !in prefix
    ensures Split(prefix + tail, separator) ==
            [prefix + Split(tail, separator)[0]] + Split(tail, separator)[1..]
  {
    if prefix == "" {
      assert prefix + tail == tail;
      assert prefix + Split(tail, separator)[0] == Split(tail, separator)[0];
    } else {
      SplitPrefix(prefix[1..], tail, separator);
      assert (prefix + tail)[1..] == prefix[1..] + tail;
      assert prefix == [prefix[0]] + prefix[1..];
      assert [prefix[0]] + (prefix[1..] + Split(tail, separator)[0]) == prefix + Split(tail, separator)[0];
    }
  }

  /** The characters `\s` and `trimStart` treat as white space. */
  predicate IsSpace(c: char) {
    var code := c as int;
    || 9 <= code <= 13 || code == 0x20 || code == 0xA0 || code == 0x1680 || 0x2000 <= code <= 0x200A
    || code == 0x2028 || code == 0x2029 || code == 0x202F || code == 0x205F || code == 0x3000 || code == 0xFEFF
  }

  function LeadingSpace(text: string): (space: string)
    ensures space <= text && forall c <- space :: IsSpace(c)
    ensures |space| < |text| ==> !IsSpace(text[|space|])
  {
    if text != "" && IsSpace(text[0]) then [text[0]] + LeadingSpace(text[1..]) else ""
  }

  lemma {:induction false} LeadingSpaceOf(space: string, rest: string)
    requires forall c <- space :: IsSpace(c)
    requires rest != "" && !IsSpace(rest[0])
    ensures LeadingSpace(space + rest) == space
  {
    if space == "" {
      assert space + rest == rest;
    } else {
      LeadingSpaceOf(space[1..], rest);
      assert (space + rest)[1..] == space[1..] + rest;
    }
  }

  /** Each part followed by the separator. */
  function Terminated(parts: seq<string>, separator: char): string {
    if parts == [] then "" else parts[0] + [separator] + Terminated(parts[1..], separator)
  }

  lemma {:induction false} SplitTerminated(parts: seq<string>, separator: char)
    requires forall part <- parts :: separator !in part
    ensures Split(Terminated(parts, separator), separator) == parts + [""]
  {
    if parts != [] {
      SplitTerminated(parts[1..], separator);
      var tail := [separator] + Terminated(parts[1..], separator);
      assert Terminated(parts, separator) == parts[0] + tail;
      SplitPrefix(parts[0], tail, separator);
      assert tail[1..] == Terminated(parts[1..], separator);
      assert parts[0] + "" == parts[0];
      assert Split(tail, separator) == [""] + (parts[1..] + [""]);
      assert parts + [""] == [parts[0]] + (parts[1..] + [""]);
    }
  }

  predicate IsDigit(c: char) {
    '0' <= c <= '9'
  }

  /** The pattern `0|[1-9]\d*`: a decimal numeral without leading zeros. */
  predicate IsNumeral(text: string) {
    && text != ""
    && (forall c <- text :: IsDigit(c))
    && (text[0] == '0' ==> |text| == 1)
  }

  function DigitValue(c: char): (d: nat)
    requires IsDigit(c)
    ensures d < 10
  {
    c as nat - '0' as nat
  }

  function NumeralValue(text: string): nat
    requires forall c <- text :: IsDigit(c)
  {
    if text == "" then 0
    else 10 * NumeralValue(text[..|text| - 1]) + DigitValue(text[|text| - 1])
  }

  function Digit(d: nat): (c: char)
    requires d < 10
    ensures IsDigit(c) && DigitValue(c) == d
  {
    ('0' as nat + d) as char
  }

  /** Decimal text of a natural number. */
  function Decimal(n: nat): (text: string)
    ensures IsNumeral(text)
    ensures n > 0 ==> text[0] != '0'
  {
    if n < 10 then [Digit(n)]
    else Decimal(n / 10) + [Digit(n % 10)]
  }

  lemma {:induction false} ValueOfDecimal(n: nat)
    ensures NumeralValue(Decimal(n)) == n
  {
    if n >= 10 {
      ValueOfDecimal(n / 10);
      var text := Decimal(n);
      assert text[..|text| - 1] == Decimal(n / 10);
    } else {
      assert Decimal(n)[..0] == "";
    }
  }

  lemma LastDigit(a: nat, d: nat)
    requires d < 10
    ensures (10 * a + d) / 10 == a && (10 * a + d) % 10 == d
  {}

  lemma {:induction false} DecimalOfValue(text: string)
    requires IsNumeral(text)
    ensures Decimal(NumeralValue(text)) == text
  {
    var last := |text| - 1;
    if last == 0 {
      assert text[..0] == "";
      assert NumeralValue(text) == DigitValue(text[0]);
      assert text == [Digit(DigitValue(text[0]))];
    } else {
      var prefix := text[..last];
      assert prefix[0] == text[0];
      DecimalOfValue(prefix);
      NumeralPositive(prefix);
      var n := NumeralValue(text);
      assert n == 10 * NumeralValue(prefix) + DigitValue(text[last]);
      LastDigit(NumeralValue(prefix), DigitValue(text[last]));
      assert Digit(DigitValue(text[last])) == text[last];
      assert text == prefix + [text[last]];
    }
  }

  lemma {:induction false} NumeralPositive(text: string)
    requires text != "" && (forall c <- text :: IsDigit(c)) && text[0] != '0'
    ensures NumeralValue(text) > 0
  {
    if |text| > 1 {
      assert text[..|text| - 1][0] == text[0];
      NumeralPositive(text[..|text| - 1]);
    } else {
      assert text[..0] == "";
    }
  }
}
