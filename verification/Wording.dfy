/**
 * What two schema documents are reduced to before they are compared: position-based lists become
 * objects keyed by what each item describes, and wording is dropped.
 */
module Wording {
  import opened Wrappers
  import opened Json
  import opened Differences

  const WORDING_KEYS: set<string> :=
    {"description", "summary", "example", "examples", "title", "x-enumDescriptions"}

  /** Under these keys an object's own keys are names, whatever they spell. */
  const NAME_MAPS: set<string> := {
    "properties", "patternProperties", "$defs", "definitions", "parameters", "x-enumNames", "x-bitflagValues"
  }

  /** Values under these keys are data. */
  const LITERAL_KEYS: set<string> := {"default", "const", "enum"}

  const ENUM := "enum"
  const ENUM_LISTS: set<string> := {"x-enumNames", "x-enumDescriptions"}
  const FLAGS := "x-bitflagValues"
  const PARAMETERS := "parameters"

  // ---------------------------------------------------------------- wording

  function WithoutWording(value: Json, parent: Option<string>): Json
    decreases value
  {
    match value
    case Arr(items) => Arr(seq(|items|, i requires 0 <= i < |items| => WithoutWording(items[i], None)))
    case Obj(fields) =>
      var names := parent.Some? && parent.value in NAME_MAPS;
      var kept := Kept(fields, names);
      Obj(seq(|kept|, i requires 0 <= i < |kept| =>
        var key, item := kept[i].key, kept[i].value;
        Field(key, if !names && key in LITERAL_KEYS then item
                   else WithoutWording(item, if names then None else Some(key)))))
    case _ => value
  }

  function Kept(fields: seq<Field>, names: bool): (kept: seq<Field>)
    ensures forall i | 0 <= i < |kept| :: kept[i] in fields && kept[i].value < Obj(fields)
    ensures forall name :: Get(kept, name) == if names || name !in WORDING_KEYS then Get(fields, name) else None
  {
    if fields == [] then []
    else
      var rest := Kept(fields[1..], names);
      if names || fields[0].key !in WORDING_KEYS then
        var all := [fields[0]] + rest;
        assert all[1..] == rest;
        assert forall i | 0 <= i < |all| :: all[i] in fields;
        all
      else
        assert forall i | 0 <= i < |rest| :: rest[i] in fields;
        rest
  }

  // ---------------------------------------------------------------- keyed lists

  predicate Distinct<T(==)>(items: seq<T>) {
    forall i, j | 0 <= i < j < |items| :: items[i] != items[j]
  }

  function Zip(keys: seq<string>, values: seq<Json>): seq<Field>
    requires |keys| == |values|
  {
    seq(|keys|, i requires 0 <= i < |keys| => Field(keys[i], values[i]))
  }

  /** The texts of a list of enum values, when they tell the values apart. */
  function EnumTexts(fields: seq<Field>): (texts: Option<seq<string>>)
    ensures texts.Some? ==> Distinct(texts.value)
  {
    match Get(fields, ENUM)
    case Some(Arr(items)) => Unique(seq(|items|, i requires 0 <= i < |items| => AsText(items[i])))
    case _ => None
  }

  function Unique(keys: seq<string>): Option<seq<string>> {
    if Distinct(keys) then Some(keys) else None
  }

  function FlagKey(item: Json): Option<string> {
    if !item.Obj? then None
    else
      match Get(item.fields, "value")
      case Some(Str(s)) => Some(s)
      case Some(Num(n)) => Some(SignedDecimal(n))
      case _ => None
  }

  function ParameterKey(item: Json): Option<string> {
    if !item.Obj? then None
    else
      match (Get(item.fields, "name"), Get(item.fields, "in"))
      case (Some(Str(name)), Some(Str(place))) => Some(name + " (" + place + ")")
      case _ => None
  }

  function ItemKey(name: string, item: Json): Option<string> {
    if name == FLAGS then FlagKey(item) else if name == PARAMETERS then ParameterKey(item) else None
  }

  /** A key for each item of a list of flags or parameters, when every item has one and no two share it. */
  function ListKeys(name: string, items: seq<Json>): (keys: Option<seq<string>>)
    ensures keys.Some? ==> |keys.value| == |items| && Distinct(keys.value)
  {
    if (name == FLAGS || name == PARAMETERS) && forall i | 0 <= i < |items| :: ItemKey(name, items[i]).Some? then
      Unique(seq(|items|, i requires 0 <= i < |items| => ItemKey(name, items[i]).value))
    else None
  }

  function KeyedLists(value: Json): Json
    decreases value, 1
  {
    match value
    case Arr(items) => Arr(KeyedItems(items, value))
    case Obj(fields) =>
      var texts := EnumTexts(fields);
      Obj(seq(|fields|, i requires 0 <= i < |fields| => Field(fields[i].key, KeyedField(fields[i], texts))))
    case _ => value
  }

  function KeyedItems(items: seq<Json>, ghost within: Json): (keyed: seq<Json>)
    requires forall i | 0 <= i < |items| :: items[i] < within
    ensures |keyed| == |items|
    ensures forall i | 0 <= i < |items| :: keyed[i] == KeyedLists(items[i])
    decreases within, 0
  {
    seq(|items|, i requires 0 <= i < |items| => KeyedLists(items[i]))
  }

  /** The new value of one field, given the texts of the enum beside it. */
  function KeyedField(field: Field, texts: Option<seq<string>>): Json
    decreases field.value, 2
  {
    match field.value
    case Arr(items) =>
      if field.key in ENUM_LISTS && texts.Some? && |texts.value| == |items| then Obj(Zip(texts.value, items))
      else
        var keys := ListKeys(field.key, items);
        if keys.Some? then Obj(Zip(keys.value, KeyedItems(items, field.value))) else KeyedLists(field.value)
    case _ => KeyedLists(field.value)
  }

  /** What two versions of an entry are compared as. */
  function Comparable(value: Json): Json {
    WithoutWording(KeyedLists(value), None)
  }

  // ---------------------------------------------------------------- objects field by field

  predicate SameKeys(one: seq<Field>, other: seq<Field>) {
    |one| == |other| && forall i | 0 <= i < |one| :: one[i].key == other[i].key
  }

  /** Objects with the same keys in the same order hold a key at the same place. */
  lemma {:induction false} SamePlace(one: seq<Field>, other: seq<Field>, name: string) returns (i: nat)
    requires SameKeys(one, other)
    ensures HasKey(one, name) <==> HasKey(other, name)
    ensures HasKey(one, name) ==>
      i < |one| && one[i].key == name
      && Get(one, name) == Some(one[i].value) && Get(other, name) == Some(other[i].value)
  {
    if one == [] || one[0].key == name {
      i := 0;
    } else {
      i := SamePlace(one[1..], other[1..], name);
      i := i + 1;
    }
    assert forall k :: HasKey(one, k) <==> k in Keys(one);
    assert forall k :: HasKey(other, k) <==> k in Keys(other);
    assert Keys(one) == Keys(other);
  }

  lemma {:induction false} GetZip(keys: seq<string>, values: seq<Json>, i: nat)
    requires |keys| == |values| && i < |keys| && Distinct(keys)
    ensures Get(Zip(keys, values), keys[i]) == Some(values[i])
  {
    var fields := Zip(keys, values);
    assert fields[1..] == Zip(keys[1..], values[1..]);
    if i > 0 {
      GetZip(keys[1..], values[1..], i - 1);
    }
  }

  lemma {:induction false} ZipKeys(keys: seq<string>, values: seq<Json>, name: string)
    requires |keys| == |values|
    ensures HasKey(Zip(keys, values), name) <==> name in keys
  {
    var fields := Zip(keys, values);
    if name in keys {
      var i :| 0 <= i < |keys| && keys[i] == name;
      assert fields[i].key == name;
    }
  }

  lemma {:induction false} SameListKeys(name: string, one: seq<Json>, other: seq<Json>)
    requires |one| == |other| && forall i | 0 <= i < |one| :: ItemKey(name, one[i]) == ItemKey(name, other[i])
    ensures ListKeys(name, one) == ListKeys(name, other)
    ensures ListKeys(name, one).Some? ==> forall i | 0 <= i < |one| :: ItemKey(name, one[i]).Some?
  {
    hide ItemKey;
    if (name == FLAGS || name == PARAMETERS) && forall i | 0 <= i < |one| :: ItemKey(name, one[i]).Some? {
      assert seq(|one|, i requires 0 <= i < |one| => ItemKey(name, one[i]).value)
          == seq(|other|, i requires 0 <= i < |other| => ItemKey(name, other[i]).value);
    }
  }

  // ---------------------------------------------------------------- wording and meaning

  /** Two objects mean the same when every name leads to the same meaning. */
  lemma {:induction false} SameRecord(one: seq<Field>, other: seq<Field>, key: Option<string>)
    requires forall name :: HasKey(one, name) <==> HasKey(other, name)
    requires forall name | HasKey(one, name) ::
      Denote(Get(one, name).value, Some(name)) == Denote(Get(other, name).value, Some(name))
    ensures Denote(Obj(one), key) == Denote(Obj(other), key)
  {
    hide Denote, HasKey, Get;
    var a := RecordOf(one, key);
    var b := RecordOf(other, key);
    assert a.Keys == b.Keys;
    assert a == b;
  }

  lemma {:induction false} GetWordless(fields: seq<Field>, parent: Option<string>, name: string)
    ensures WithoutWording(Obj(fields), parent).Obj?
    ensures var names := parent.Some? && parent.value in NAME_MAPS;
      Get(WithoutWording(Obj(fields), parent).fields, name)
      == if !HasKey(fields, name) || (!names && name in WORDING_KEYS) then None
         else if !names && name in LITERAL_KEYS then Get(fields, name)
         else Some(WithoutWording(Get(fields, name).value, if names then None else Some(name)))
  {
    var names := parent.Some? && parent.value in NAME_MAPS;
    var i := SamePlace(Kept(fields, names), WithoutWording(Obj(fields), parent).fields, name);
    assert Get(Kept(fields, names), name) == if names || name !in WORDING_KEYS then Get(fields, name) else None;
  }

  lemma {:induction false} WordlessPlain(value: Json, parent: Option<string>)
    requires PlainList(value)
    ensures WithoutWording(value, parent) == value
  {
    assert forall i | 0 <= i < |value.items| :: WithoutWording(value.items[i], None) == value.items[i];
  }

  /** Dropping wording from two values of one meaning leaves one meaning. */
  lemma {:induction false} WordingKeepsMeaning(
      one: Json, other: Json, parent: Option<string>, key: Option<string>)
    requires Denote(one, key) == Denote(other, key)
    ensures Denote(WithoutWording(one, parent), key) == Denote(WithoutWording(other, parent), key)
    decreases one, 1
  {
    if IsSet(key, one) {
      WordlessPlain(one, parent);
      WordlessPlain(other, parent);
    } else if one.Arr? {
      WordlessItems(one.items, other.items, parent, key);
    } else if one.Obj? {
      WordlessFields(one.fields, other.fields, parent, key);
    }
  }

  lemma {:induction false} SameList(one: seq<Json>, other: seq<Json>, key: Option<string>)
    requires !IsSet(key, Arr(one)) && !IsSet(key, Arr(other)) && |one| == |other|
    requires forall i | 0 <= i < |one| :: Denote(one[i], None) == Denote(other[i], None)
    ensures Denote(Arr(one), key) == Denote(Arr(other), key)
  {
    assert Denote(Arr(one), key).items == Denote(Arr(other), key).items;
  }

  /** Lists of items that mean the same mean the same themselves: plain items cannot have moved. */
  lemma {:induction false} SameItems(one: seq<Json>, other: seq<Json>)
    requires |one| == |other| && forall i | 0 <= i < |one| :: Denote(one[i], None) == Denote(other[i], None)
    ensures forall key :: Denote(Arr(one), key) == Denote(Arr(other), key)
  {
    forall i | 0 <= i < |one| ensures IsPlain(one[i]) || IsPlain(other[i]) ==> one[i] == other[i] {}
    forall key ensures Denote(Arr(one), key) == Denote(Arr(other), key) {
      if IsSet(key, Arr(one)) || IsSet(key, Arr(other)) {
        assert one == other;
      } else {
        SameList(one, other, key);
      }
    }
  }

  lemma {:induction false} SplitList(one: seq<Json>, other: seq<Json>, key: Option<string>)
    requires !IsSet(key, Arr(one)) && Denote(Arr(one), key) == Denote(Arr(other), key)
    ensures !IsSet(key, Arr(other)) && |one| == |other|
    ensures forall i | 0 <= i < |one| :: Denote(one[i], None) == Denote(other[i], None)
  {
    hide Denote;
    assert Denote(Arr(one), key).List? && |one| == |Denote(Arr(one), key).items| by { ListLength(one, key); }
    ListLength(other, key);
    forall i | 0 <= i < |one| ensures Denote(one[i], None) == Denote(other[i], None) {
      ListOf(one, key, i);
      ListOf(other, key, i);
    }
  }

  lemma ListLength(items: seq<Json>, key: Option<string>)
    ensures Denote(Arr(items), key).List? <==> !IsSet(key, Arr(items))
    ensures !IsSet(key, Arr(items)) ==> |Denote(Arr(items), key).items| == |items|
  {}

  lemma {:induction false} WordlessItems(
      one: seq<Json>, other: seq<Json>, parent: Option<string>, key: Option<string>)
    requires !IsSet(key, Arr(one)) && Denote(Arr(one), key) == Denote(Arr(other), key)
    ensures Denote(WithoutWording(Arr(one), parent), key) == Denote(WithoutWording(Arr(other), parent), key)
    decreases Arr(one), 0
  {
    hide Denote;
    SplitList(one, other, key);
    var a, b := WithoutWording(Arr(one), parent).items, WithoutWording(Arr(other), parent).items;
    forall i | 0 <= i < |one| ensures Denote(a[i], None) == Denote(b[i], None) {
      WordingKeepsMeaning(one[i], other[i], None, None);
    }
    WordlessNotSet(one, key, parent);
    WordlessNotSet(other, key, parent);
    SameList(a, b, key);
  }

  lemma {:induction false} WordlessNotSet(items: seq<Json>, key: Option<string>, parent: Option<string>)
    requires !IsSet(key, Arr(items))
    ensures !IsSet(key, WithoutWording(Arr(items), parent))
  {
    if key.Some? && key.value in SET_KEYS {
      var i :| 0 <= i < |items| && !IsPlain(items[i]);
      assert !IsPlain(WithoutWording(Arr(items), parent).items[i]);
    }
  }

  lemma {:induction false} WordlessFields(
      one: seq<Field>, other: seq<Field>, parent: Option<string>, key: Option<string>)
    requires Denote(Obj(one), key) == Denote(Obj(other), key)
    ensures Denote(WithoutWording(Obj(one), parent), key) == Denote(WithoutWording(Obj(other), parent), key)
    decreases Obj(one), 0
  {
    hide Denote, HasKey, WithoutWording, Get;
    var a := RecordOf(one, key);
    var b := RecordOf(other, key);
    var names := parent.Some? && parent.value in NAME_MAPS;
    GetWordless(one, parent, "");
    GetWordless(other, parent, "");
    var x, y := WithoutWording(Obj(one), parent).fields, WithoutWording(Obj(other), parent).fields;
    forall name
      ensures HasKey(x, name) <==> HasKey(y, name)
      ensures HasKey(x, name) ==> Denote(Get(x, name).value, Some(name)) == Denote(Get(y, name).value, Some(name))
    {
      GetWordless(one, parent, name);
      GetWordless(other, parent, name);
      assert HasKey(one, name) <==> name in a;
      if HasKey(one, name) {
        var inner := if names then None else Some(name);
        WordingKeepsMeaning(Get(one, name).value, Get(other, name).value, inner, Some(name));
      }
    }
    SameRecord(x, y, key);
  }

  // ---------------------------------------------------------------- what counts as wording

  predicate IsNameMap(parent: Option<string>) {
    parent.Some? && parent.value in NAME_MAPS
  }

  /**
   * Nothing else is lost: objects that are the same without wording have the same keys apart from
   * wording keys, all keys where keys are names, and the same data under literal keys and in plain fields.
   */
  lemma {:induction false} StructureIsVisible(
      one: seq<Field>, other: seq<Field>, parent: Option<string>, key: Option<string>, name: string)
    requires Denote(WithoutWording(Obj(one), parent), key) == Denote(WithoutWording(Obj(other), parent), key)
    requires IsNameMap(parent) || name !in WORDING_KEYS
    ensures HasKey(one, name) <==> HasKey(other, name)
    ensures HasKey(one, name) ==>
      var x, y := Get(one, name).value, Get(other, name).value;
      && (IsPlain(x) || IsPlain(y) ==> x == y)
      && (if !IsNameMap(parent) && name in LITERAL_KEYS then Denote(x, Some(name)) == Denote(y, Some(name))
          else
            var inner := if IsNameMap(parent) then None else Some(name);
            Denote(WithoutWording(x, inner), Some(name)) == Denote(WithoutWording(y, inner), Some(name)))
  {
    hide Denote, WithoutWording, Get, HasKey;
    GetWordless(one, parent, name);
    GetWordless(other, parent, name);
    var a := RecordOf(WithoutWording(Obj(one), parent).fields, key);
    var b := RecordOf(WithoutWording(Obj(other), parent).fields, key);
    assert name in a <==> name in b;
    if HasKey(one, name) {
      var x, y := Get(one, name).value, Get(other, name).value;
      var inner := if IsNameMap(parent) then None else Some(name);
      PlainMeaning(x, name, inner);
      PlainMeaning(y, name, inner);
    }
  }

  lemma PlainMeaning(value: Json, name: string, parent: Option<string>)
    ensures IsPlain(value) <==> Denote(value, Some(name)).Scalar?
    ensures IsPlain(value) <==> Denote(WithoutWording(value, parent), Some(name)).Scalar?
    ensures IsPlain(value) ==> Denote(value, Some(name)) == Scalar(value) && WithoutWording(value, parent) == value
  {}

  /** Each item of a keyed list is found under its own key, as it was or keyed itself, and nothing else is there. */
  lemma {:induction false} ItemsStayFound(field: Field, texts: Option<seq<string>>, i: nat)
    requires field.value.Arr? && i < |field.value.items| && (texts.Some? ==> Distinct(texts.value))
    ensures var items, keyed, keys := field.value.items, KeyedField(field, texts), ListKeys(field.key, field.value.items);
      if field.key in ENUM_LISTS && texts.Some? && |texts.value| == |items| then
        keyed.Obj? && |keyed.fields| == |items| && Get(keyed.fields, texts.value[i]) == Some(items[i])
      else if keys.Some? then
        keyed.Obj? && |keyed.fields| == |items| && Get(keyed.fields, keys.value[i]) == Some(KeyedLists(items[i]))
      else keyed.Arr? && |keyed.items| == |items| && keyed.items[i] == KeyedLists(items[i])
  {
    var items, keys := field.value.items, ListKeys(field.key, field.value.items);
    if field.key in ENUM_LISTS && texts.Some? && |texts.value| == |items| {
      GetZip(texts.value, items, i);
    } else if keys.Some? {
      GetZip(keys.value, KeyedItems(items, field.value), i);
    }
  }
}
