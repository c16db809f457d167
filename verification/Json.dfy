/** Parsed JSON values. An object keeps its fields in source order. */
module Json {
  import opened Wrappers
  import opened Text

  datatype Json =
    | Null
    | Bool(b: bool)
    | Num(n: int)
    | Str(s: string)
    | Arr(items: seq<Json>)
    | Obj(fields: seq<Field>)

  datatype Field = Field(key: string, value: Json)

  predicate IsPlain(value: Json) {
    !value.Arr? && !value.Obj?
  }

  predicate HasKey(fields: seq<Field>, key: string) {
    exists i | 0 <= i < |fields| :: fields[i].key == key
  }

  /** The own property of an object. Parsed objects have each key once. */
  function Get(fields: seq<Field>, key: string): (value: Option<Json>)
    ensures value.Some? <==> HasKey(fields, key)
    ensures value.Some? ==> Field(key, value.value) in fields
    ensures value.Some? ==> value.value < Obj(fields)
  {
    if fields == [] then None
    else if fields[0].key == key then Some(fields[0].value)
    else
      var rest := Get(fields[1..], key);
      assert rest.Some? ==> Field(key, rest.value) in fields;
      rest
  }

  function Keys(fields: seq<Field>): (keys: seq<string>)
    ensures |keys| == |fields|
    ensures forall i | 0 <= i < |fields| :: keys[i] == fields[i].key
    ensures forall key :: key in keys <==> HasKey(fields, key)
  {
    if fields == [] then [] else [fields[0].key] + Keys(fields[1..])
  }

  /** `{ ...fields, [key]: value }` */
  function Set(fields: seq<Field>, key: string, value: Json): (updated: seq<Field>)
    ensures HasKey(updated, key)
    ensures |updated| <= |fields| + 1
  {
    if fields == [] || fields[0].key == key then
      var updated := [Field(key, value)] + if fields == [] then [] else fields[1..];
      assert updated[0].key == key;
      updated
    else
      var rest := Set(fields[1..], key, value);
      assert HasKey([fields[0]] + rest, key) by {
        var i :| 0 <= i < |rest| && rest[i].key == key;
        assert ([fields[0]] + rest)[i + 1] == rest[i];
      }
      [fields[0]] + rest
  }

  lemma {:induction false} GetSet(fields: seq<Field>, key: string, value: Json, other: string)
    ensures Get(Set(fields, key, value), other) == if other == key then Some(value) else Get(fields, other)
  {
    if fields != [] && fields[0].key != key {
      GetSet(fields[1..], key, value, other);
      assert Set(fields, key, value)[1..] == Set(fields[1..], key, value);
    }
  }

  function SignedDecimal(n: int): string {
    if n < 0 then "-" + Decimal(-n) else Decimal(n)
  }

  /** `String(value)` of a parsed value. */
  function AsText(value: Json): string {
    match value
    case Null => "null"
    case Bool(b) => if b then "true" else "false"
    case Num(n) => SignedDecimal(n)
    case Str(s) => s
    case Arr(items) => JoinTexts(items)
    case Obj(_) => "[object Object]"
  }

  /** An array's text joins its items' texts with commas, writing nothing for null. */
  function JoinTexts(items: seq<Json>): string {
    if items == [] then ""
    else
      var first := if items[0].Null? then "" else AsText(items[0]);
      if |items| == 1 then first else first + "," + JoinTexts(items[1..])
  }
}
