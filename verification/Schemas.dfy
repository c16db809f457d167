/** The subset of JSON Schema that examples are generated for, and which values conform to it. */
module Schemas {
  import opened Wrappers
  import opened Text

  datatype Value =
    | Nothing
    | Truth(b: bool)
    | Numeric(n: real)
    | Words(s: string)
    | List(items: seq<Value>)
    | Record(fields: map<string, Value>)

  datatype Format = NoFormat | DateTime | Snowflake | Uri | Int64 | OtherFormat

  datatype Pattern = NoPattern | SnowflakePattern | DecimalPattern | OtherPattern

  /** A string schema; `flags` is the union of its bit flags, where it lists any. */
  datatype TextSchema = TextSchema(
    format: Format, pattern: Pattern, minLength: Option<nat>, maxLength: Option<nat>, flags: Option<nat>)

  datatype Property = Property(key: string, schema: Schema)

  /** What an object may hold besides its properties: anything, nothing, or values under ID keys. */
  datatype Additional = Open | Closed | Keyed(schema: Schema, supportedKeys: bool)

  datatype Schema =
    | Ref(name: string)
    | Const(value: Value)
    | Enum(values: seq<Value>)
    | AnyOf(branches: seq<Schema>)
    | TypeList(options: seq<Schema>)
    | Object(properties: seq<Property>, required: set<string>, additional: Additional)
    | Array(items: Schema, minItems: Option<nat>, maxItems: Option<nat>)
    | Text(text: TextSchema)
    | Integer(least: Option<int>, most: Option<int>)
    | Number(minimum: Option<real>, maximum: Option<real>)
    | Boolean
    | NullType
    | Unsupported

  type Components = map<string, Schema>

  // ---------------------------------------------------------------- conformance

  function OrElse<T>(value: Option<T>, other: T): T {
    if value.Some? then value.value else other
  }

  predicate AtLeast(n: int, bound: Option<int>) {
    bound.Some? ==> bound.value <= n
  }

  predicate AtMost(n: int, bound: Option<int>) {
    bound.Some? ==> n <= bound.value
  }

  predicate LengthFits(n: nat, minimum: Option<nat>, maximum: Option<nat>) {
    (minimum.Some? ==> minimum.value <= n) && (maximum.Some? ==> n <= maximum.value)
  }

  predicate RealFits(n: real, minimum: Option<real>, maximum: Option<real>) {
    (minimum.Some? ==> minimum.value <= n) && (maximum.Some? ==> n <= maximum.value)
  }

  /** `YYYY-MM-DDTHH:MM:SS.mmmZ` */
  predicate IsDateTime(text: string) {
    && |text| == 24
    && (forall i | 0 <= i < 24 && i !in {4, 7, 10, 13, 16, 19, 23} :: IsDigit(text[i]))
    && text[4] == '-' && text[7] == '-' && text[10] == 'T' && text[13] == ':' && text[16] == ':' && text[19] == '.'
    && text[23] == 'Z'
  }

  predicate IsDecimal(text: string) {
    text != "" && forall c <- text :: IsDigit(c)
  }

  predicate FormatHolds(format: Format, text: string) {
    match format
    case NoFormat => true
    case DateTime => IsDateTime(text)
    case Snowflake => IsNumeral(text)
    case Uri => "https://" <= text
    case Int64 => IsDecimal(text)
    case OtherFormat => false
  }

  predicate PatternHolds(pattern: Pattern, text: string) {
    match pattern
    case NoPattern => true
    case SnowflakePattern => IsNumeral(text)
    case DecimalPattern => IsDecimal(text)
    case OtherPattern => false
  }

  predicate TextConforms(text: string, schema: TextSchema) {
    && LengthFits(|text|, schema.minLength, schema.maxLength)
    && FormatHolds(schema.format, text) && PatternHolds(schema.pattern, text)
  }

  function Keys(properties: seq<Property>): (keys: set<string>)
    ensures forall key :: key in keys <==> exists i | 0 <= i < |properties| :: properties[i].key == key
  {
    set i | 0 <= i < |properties| :: properties[i].key
  }

  /** Whether a value conforms to a schema, following at most `n` references one inside another. */
  ghost predicate Conforms(n: nat, value: Value, schema: Schema, components: Components)
    decreases n, schema
  {
    match schema
    case Ref(name) => n > 0 && name in components && Conforms(n - 1, value, components[name], components)
    case Const(expected) => value == expected
    case Enum(values) => value in values
    case AnyOf(branches) => exists i | 0 <= i < |branches| :: Conforms(n, value, branches[i], components)
    case TypeList(options) => exists i | 0 <= i < |options| :: Conforms(n, value, options[i], components)
    case Object(properties, required, additional) =>
      && value.Record?
      && required <= value.fields.Keys
      && (forall i | 0 <= i < |properties| && properties[i].key in value.fields ::
            Conforms(n, value.fields[properties[i].key], properties[i].schema, components))
      && (match additional
          case Open => true
          case Closed => value.fields.Keys <= Keys(properties)
          case Keyed(other, _) =>
            forall key <- value.fields | key !in Keys(properties) ::
              IsNumeral(key) && Conforms(n, value.fields[key], other, components))
    case Array(items, minItems, maxItems) =>
      && value.List? && LengthFits(|value.items|, minItems, maxItems)
      && forall i | 0 <= i < |value.items| :: Conforms(n, value.items[i], items, components)
    case Text(text) => value.Words? && TextConforms(value.s, text)
    case Integer(least, most) =>
      && value.Numeric? && value.n == value.n.Floor as real
      && AtLeast(value.n.Floor, least) && AtMost(value.n.Floor, most)
    case Number(minimum, maximum) => value.Numeric? && RealFits(value.n, minimum, maximum)
    case Boolean => value.Truth?
    case NullType => value == Nothing
    case Unsupported => false
  }

  // ---------------------------------------------------------------- single values

  datatype Mode = Minimal | Full

  const TIMESTAMP := "2026-01-01T00:00:00.000Z"

  /** The digest of a field's name, as a number. */
  type Hash = Option<string> -> nat

  function SnowflakeOf(name: Option<string>, hash: Hash): (id: string)
    ensures IsNumeral(id)
  {
    Decimal(hash(name) + 1)
  }

  predicate EndsWith(text: string, end: string) {
    |end| <= |text| && text[|text| - |end|..] == end
  }

  /** `/(^id|_id|_ids|^roles|^mentions|^mention_roles)$/` */
  predicate IsNamedId(name: Option<string>) {
    name.Some? &&
    (name.value in {"id", "roles", "mentions", "mention_roles"}
     || EndsWith(name.value, "_id") || EndsWith(name.value, "_ids"))
  }

  /** `/(_timestamp|_at|_time|_until)$/` */
  predicate IsNamedTime(name: Option<string>) {
    name.Some? &&
    (EndsWith(name.value, "_timestamp") || EndsWith(name.value, "_at") || EndsWith(name.value, "_time")
     || EndsWith(name.value, "_until"))
  }

  function PadEnd(text: string, length: nat): (padded: string)
    ensures |padded| == Max(|text|, length) && text <= padded
    decreases if |text| < length then length - |text| else 0
  {
    if |text| >= length then text else PadEnd(text + "x", length)
  }

  /** Text of a length between the bounds, which default to one character and no limit. */
  function PlainText(schema: TextSchema, name: Option<string>): string {
    var minimum := OrElse(schema.minLength, 1);
    var text := OrElse(name, "text");
    var longest := if schema.maxLength.None? then |text| else Min(schema.maxLength.value, |text|);
    PadEnd(text, minimum)[..Max(minimum, longest)]
  }

  datatype Fault = UnsupportedSchema | UnresolvableReference | RequiredHasNoSchema | UnsupportedKeys | Unbuildable

  function TextOf(schema: TextSchema, mode: Mode, name: Option<string>, hash: Hash): Result<string, Fault> {
    if schema.format.OtherFormat? then Err(UnsupportedSchema)
    else if schema.format.DateTime? then Ok(TIMESTAMP)
    else if schema.format.Snowflake? || schema.pattern.SnowflakePattern? then Ok(SnowflakeOf(name, hash))
    else if schema.pattern.DecimalPattern? || schema.format.Int64? then
      if mode.Minimal? then Ok("0")
      else if schema.flags.Some? then Ok(Decimal(schema.flags.value))
      else Ok(SnowflakeOf(name, hash))
    else if !schema.pattern.NoPattern? then Err(UnsupportedSchema)
    else if schema.format.Uri? then Ok("https://example.com/" + OrElse(name, "resource"))
    else if IsNamedId(name) then Ok(SnowflakeOf(name, hash))
    else if IsNamedTime(name) then Ok(TIMESTAMP)
    else Ok(PlainText(schema, name))
  }

  /** A pattern that what the format yields can match. */
  predicate PatternSuits(schema: TextSchema) {
    match schema.format
    case DateTime => schema.pattern.NoPattern?
    case Uri => schema.pattern.NoPattern?
    case OtherFormat => false
    case _ => !schema.pattern.OtherPattern?
  }

  /** Whether the plain text is what the schema gets, with a length of its own choice. */
  predicate TakesPlainText(schema: TextSchema, name: Option<string>) {
    schema.format.NoFormat? && schema.pattern.NoPattern? && !IsNamedId(name) && !IsNamedTime(name)
  }

  function Digits(n: nat): nat {
    if n < 10 then 1 else Digits(n / 10) + 1
  }

  lemma {:induction false} DecimalLength(n: nat)
    ensures |Decimal(n)| == Digits(n)
  {
    if n >= 10 {
      DecimalLength(n / 10);
    }
  }

  /**
   * The length of a text that is not plain: 24 characters of a time, the digits of an ID or of the flags, one for a
   * minimal decimal, and 20 of an address before the field's name, or before the 8 of `resource`.
   */
  function FixedLength(schema: TextSchema, mode: Mode, name: Option<string>, hash: Hash): nat {
    var id := schema.format.Snowflake? || schema.pattern.SnowflakePattern?;
    var decimal := !id && (schema.format.Int64? || schema.pattern.DecimalPattern?);
    if schema.format.DateTime? then 24
    else if schema.format.Uri? then 20 + (if name.Some? then |name.value| else 8)
    else if decimal && mode.Minimal? then 1
    else if decimal && schema.flags.Some? then Digits(schema.flags.value)
    else if id || decimal || IsNamedId(name) then Digits(hash(name) + 1)
    else 24
  }

  /** Bounds that leave room: for plain text in themselves, for any other text around its fixed length. */
  predicate BoundsSuit(schema: TextSchema, mode: Mode, name: Option<string>, hash: Hash) {
    if TakesPlainText(schema, name) then
      schema.maxLength.None? || OrElse(schema.minLength, 1) <= schema.maxLength.value
    else LengthFits(FixedLength(schema, mode, name, hash), schema.minLength, schema.maxLength)
  }

  /** Where the pattern suits, there is a text, of the length the schema and the name decide. */
  lemma {:induction false} TextLength(schema: TextSchema, mode: Mode, name: Option<string>, hash: Hash)
    requires PatternSuits(schema) && !TakesPlainText(schema, name)
    ensures var text := TextOf(schema, mode, name, hash);
      text.Ok? && |text.value| == FixedLength(schema, mode, name, hash)
  {
    hide PlainText, IsNamedId, IsNamedTime, Decimal, Digits;
    DecimalLength(hash(name) + 1);
    if schema.flags.Some? {
      DecimalLength(schema.flags.value);
    }
  }

  lemma TimestampIsDateTime()
    ensures IsDateTime(TIMESTAMP)
  {}

  lemma {:induction false} NumeralIsDecimal(text: string)
    requires IsNumeral(text)
    ensures IsDecimal(text)
  {}

  lemma TimestampIsNoNumeral()
    ensures !IsNumeral(TIMESTAMP) && !IsDecimal(TIMESTAMP)
  {
    assert TIMESTAMP[4] == '-' && TIMESTAMP[4] in TIMESTAMP;
  }

  /**
   * A generated text conforms exactly when its pattern suits its format and its bounds suit its
   * length. So a limit of 0 characters without a minimum is broken, as is a short limit on a field
   * that is named like an ID or a time.
   */
  lemma {:induction false} TextConformance(schema: TextSchema, mode: Mode, name: Option<string>, hash: Hash)
    ensures var text := TextOf(schema, mode, name, hash);
      (text.Ok? && TextConforms(text.value, schema)) <==> (PatternSuits(schema) && BoundsSuit(schema, mode, name, hash))
  {
    hide PlainText, FixedLength, IsDateTime, IsNumeral, IsDecimal, IsNamedId, IsNamedTime;
    TimestampIsDateTime();
    TimestampIsNoNumeral();
    ZeroIsNumeral();
    PlainTextLength(schema, name);
    var text := TextOf(schema, mode, name, hash);
    if PatternSuits(schema) && !TakesPlainText(schema, name) {
      TextLength(schema, mode, name, hash);
    }
    if text.Ok? {
      if IsNumeral(text.value) {
        NumeralIsDecimal(text.value);
        NumeralIsNoUri(text.value);
      }
      if schema.format.Uri? && schema.pattern.NoPattern? {
        assert text.value[..8] == "https://";
      }
    }
  }

  lemma ZeroIsNumeral()
    ensures IsNumeral("0")
  {}

  /** Plain text keeps its minimum even where the maximum is less. */
  lemma PlainTextLength(schema: TextSchema, name: Option<string>)
    ensures var minimum, natural := OrElse(schema.minLength, 1), |OrElse(name, "text")|;
      |PlainText(schema, name)|
      == Max(minimum, if schema.maxLength.None? then natural else Min(schema.maxLength.value, natural))
  {}

  lemma NumeralIsNoUri(text: string)
    requires IsNumeral(text)
    ensures !("https://" <= text)
  {
    assert text[0] in text;
  }

  function IntegerOf(least: Option<int>, most: Option<int>, mode: Mode): int {
    if mode.Minimal? then OrElse(least, 0) else OrElse(most, OrElse(least, 0) + 1)
  }

  /** An integer conforms exactly when the bounds admit one and, for a minimal one without lower bound, admit 0. */
  lemma IntegerConformance(least: Option<int>, most: Option<int>, mode: Mode)
    ensures var n := IntegerOf(least, most, mode);
      (AtLeast(n, least) && AtMost(n, most)) <==>
      ((least.Some? && most.Some? ==> least.value <= most.value)
       && (mode.Minimal? && least.None? && most.Some? ==> 0 <= most.value))
  {}

  function NumberOf(minimum: Option<real>, maximum: Option<real>, mode: Mode): real {
    if mode.Minimal? then OrElse(minimum, 0.0) else OrElse(maximum, 1.5)
  }

  /** A number conforms under the same conditions, and, for a full one without upper bound, a minimum of at most 1.5. */
  lemma NumberConformance(minimum: Option<real>, maximum: Option<real>, mode: Mode)
    ensures RealFits(NumberOf(minimum, maximum, mode), minimum, maximum) <==>
      ((minimum.Some? && maximum.Some? ==> minimum.value <= maximum.value)
       && (mode.Minimal? && minimum.None? && maximum.Some? ==> 0.0 <= maximum.value)
       && (mode.Full? && maximum.None? && minimum.Some? ==> minimum.value <= 1.5))
  {}
}
