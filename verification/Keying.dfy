/** Reordering an enum together with the lists that describe it leaves nothing to report. */
module Keying {
  import opened Wrappers
  import opened Json
  import opened Differences
  import opened Wording

  /** Two values that keyed lists make the same, under whatever key they stand. */
  ghost predicate KeyedAlike(one: Json, other: Json) {
    forall key :: Denote(KeyedLists(one), key) == Denote(KeyedLists(other), key)
  }

  // ---------------------------------------------------------------- one level

  /** Objects are keyed alike when each of their fields is. */
  lemma {:induction false} AlikeByField(one: seq<Field>, other: seq<Field>)
    requires SameKeys(one, other)
    requires forall i | 0 <= i < |one| ::
      Denote(KeyedField(one[i], EnumTexts(one)), Some(one[i].key))
      == Denote(KeyedField(other[i], EnumTexts(other)), Some(one[i].key))
    ensures KeyedAlike(Obj(one), Obj(other))
  {
    hide Denote, HasKey, Get, KeyedField, EnumTexts;
    var x, y := KeyedLists(Obj(one)).fields, KeyedLists(Obj(other)).fields;
    assert SameKeys(x, y);
    forall name
      ensures HasKey(x, name) <==> HasKey(y, name)
      ensures HasKey(x, name) ==> Denote(Get(x, name).value, Some(name)) == Denote(Get(y, name).value, Some(name))
    {
      var i := SamePlace(x, y, name);
      if HasKey(x, name) {
        assert x[i].value == KeyedField(one[i], EnumTexts(one)) && y[i].value == KeyedField(other[i], EnumTexts(other));
      }
    }
    forall key ensures Denote(KeyedLists(Obj(one)), key) == Denote(KeyedLists(Obj(other)), key) {
      SameRecord(x, y, key);
    }
  }

  /** A list whose items are the same in meaning either has no plain items that moved, or is no set. */
  lemma {:induction false} AlikeByItem(one: seq<Json>, other: seq<Json>)
    requires |one| == |other|
    requires forall i | 0 <= i < |one| :: Denote(KeyedLists(one[i]), None) == Denote(KeyedLists(other[i]), None)
    ensures KeyedAlike(Arr(one), Arr(other))
  {
    var x, y := KeyedLists(Arr(one)).items, KeyedLists(Arr(other)).items;
    assert forall i | 0 <= i < |one| :: x[i] == KeyedLists(one[i]) && y[i] == KeyedLists(other[i]);
    SameItems(x, y);
  }

  lemma {:induction false} ItemKeyKept(name: string, one: Json, other: Json)
    requires Denote(KeyedLists(one), None) == Denote(KeyedLists(other), None)
    ensures ItemKey(name, one) == ItemKey(name, other)
  {
    hide Denote, KeyedLists, HasKey, Get;
    ObjectKept(one, other);
    if one.Obj? && other.Obj? {
      ScalarKept(one.fields, other.fields, "value");
      ScalarKept(one.fields, other.fields, "name");
      ScalarKept(one.fields, other.fields, "in");
    }
  }

  lemma ObjectKept(one: Json, other: Json)
    requires Denote(KeyedLists(one), None) == Denote(KeyedLists(other), None)
    ensures one.Obj? <==> other.Obj?
  {}

  /** A field that holds a plain value holds it in any object of the same meaning. */
  lemma {:induction false} ScalarKept(one: seq<Field>, other: seq<Field>, name: string)
    requires Denote(KeyedLists(Obj(one)), None) == Denote(KeyedLists(Obj(other)), None)
    requires name !in ENUM_LISTS && name != FLAGS && name != PARAMETERS
    ensures var x, y := Get(one, name), Get(other, name);
      (x.Some? && IsPlain(x.value)) || (y.Some? && IsPlain(y.value)) ==> x == y
  {
    hide Denote, HasKey, Get;
    var a := RecordOf(KeyedLists(Obj(one)).fields, None);
    var b := RecordOf(KeyedLists(Obj(other)).fields, None);
    KeyedGet(one, name);
    KeyedGet(other, name);
    assert name in a <==> name in b;
    if name in a {
      ScalarMeaning(KeyedLists(Get(one, name).value), name);
      ScalarMeaning(KeyedLists(Get(other, name).value), name);
    }
  }

  lemma ScalarMeaning(value: Json, name: string)
    ensures IsPlain(value) <==> Denote(value, Some(name)).Scalar?
    ensures IsPlain(value) ==> Denote(value, Some(name)).value == value
  {}

  lemma {:induction false} KeyedGet(fields: seq<Field>, name: string)
    requires name !in ENUM_LISTS && name != FLAGS && name != PARAMETERS
    ensures HasKey(KeyedLists(Obj(fields)).fields, name) <==> HasKey(fields, name)
    ensures HasKey(fields, name) ==>
      Get(KeyedLists(Obj(fields)).fields, name) == Some(KeyedLists(Get(fields, name).value))
  {
    var i := SamePlace(fields, KeyedLists(Obj(fields)).fields, name);
  }

  // ---------------------------------------------------------------- in any place of a document

  /** `value` with the part at `path` replaced. */
  function Replace(value: Json, path: Path, part: Json): Json
    requires ValueAt(value, path).Some?
    decreases |path|
  {
    if path == [] then part
    else
      match path[0]
      case Name(name) => Obj(Set(value.fields, name, Replace(Get(value.fields, name).value, path[1..], part)))
      case At(i) => Arr(value.items[i := Replace(value.items[i], path[1..], part)])
  }

  lemma {:induction false} SetPlace(fields: seq<Field>, name: string, value: Json) returns (i: nat)
    requires HasKey(fields, name)
    ensures i < |fields| && fields[i].key == name && Get(fields, name) == Some(fields[i].value)
    ensures Set(fields, name, value) == fields[i := Field(name, value)]
  {
    if fields[0].key == name {
      i := 0;
    } else {
      assert HasKey(fields[1..], name) by { HasKeyOfTail(fields); }
      i := SetPlace(fields[1..], name, value);
      i := i + 1;
    }
  }

  lemma {:induction false} FieldAlike(name: string, one: Json, other: Json, texts: Option<seq<string>>)
    requires name !in ENUM_LISTS && KeyedAlike(one, other)
    ensures forall key ::
      Denote(KeyedField(Field(name, one), texts), key) == Denote(KeyedField(Field(name, other), texts), key)
  {
    var x, y := KeyedLists(one), KeyedLists(other);
    assert Denote(x, None) == Denote(y, None);
    if one.Arr? && other.Arr? {
      SplitList(x.items, y.items, None);
      forall i | 0 <= i < |one.items| ensures ItemKey(name, one.items[i]) == ItemKey(name, other.items[i]) {
        assert x.items[i] == KeyedLists(one.items[i]) && y.items[i] == KeyedLists(other.items[i]);
        ItemKeyKept(name, one.items[i], other.items[i]);
      }
      SameListKeys(name, one.items, other.items);
      var keys := ListKeys(name, one.items);
      if keys.Some? {
        forall i | 0 <= i < |one.items| ensures one.items[i].Obj? && other.items[i].Obj? {
          assert ItemKey(name, one.items[i]).Some?;
        }
        ZipAlike(keys.value, x.items, y.items);
      }
    }
  }

  lemma {:induction false} ZipAlike(keys: seq<string>, one: seq<Json>, other: seq<Json>)
    requires |keys| == |one| == |other| && Distinct(keys)
    requires forall i | 0 <= i < |one| :: one[i].Obj? && other[i].Obj?
    requires forall i | 0 <= i < |one| :: Denote(one[i], None) == Denote(other[i], None)
    ensures forall key :: Denote(Obj(Zip(keys, one)), key) == Denote(Obj(Zip(keys, other)), key)
  {
    var x, y := Zip(keys, one), Zip(keys, other);
    forall name
      ensures HasKey(x, name) <==> HasKey(y, name)
      ensures HasKey(x, name) ==> Denote(Get(x, name).value, Some(name)) == Denote(Get(y, name).value, Some(name))
    {
      var i := SamePlace(x, y, name);
      if HasKey(x, name) {
        assert Denote(one[i], Some(name)) == Denote(one[i], None);
        assert Denote(other[i], Some(name)) == Denote(other[i], None);
      }
    }
    forall key ensures Denote(Obj(x), key) == Denote(Obj(y), key) {
      SameRecord(x, y, key);
    }
  }

  /** The parts of a document that are read as they stand, not keyed themselves. */
  predicate Avoids(path: Path) {
    forall i | 0 <= i < |path| && path[i].Name? :: path[i].name != ENUM && path[i].name !in ENUM_LISTS
  }

  /** Replacing a part by one that is keyed alike keeps the whole document keyed alike. */
  lemma {:induction false} AlikeAnywhere(value: Json, path: Path, part: Json)
    requires ValueAt(value, path).Some? && Avoids(path)
    requires KeyedAlike(ValueAt(value, path).value, part)
    ensures KeyedAlike(value, Replace(value, path, part))
    decreases |path|
  {
    hide KeyedAlike;
    if path != [] {
      assert Avoids(path[1..]);
      match path[0]
      case Name(name) => AlikeInObject(value.fields, name, path, part);
      case At(i) => AlikeInList(value.items, i, path, part);
    }
  }

  lemma {:induction false} AlikeInObject(fields: seq<Field>, name: string, path: Path, part: Json)
    requires path != [] && path[0] == Name(name) && Avoids(path) && Avoids(path[1..])
    requires ValueAt(Obj(fields), path).Some?
    requires KeyedAlike(ValueAt(Obj(fields), path).value, part)
    ensures KeyedAlike(Obj(fields), Replace(Obj(fields), path, part))
    decreases |path|, 0
  {
    hide KeyedAlike, KeyedField;
    var was, became := Get(fields, name).value, Replace(Get(fields, name).value, path[1..], part);
    AlikeAnywhere(was, path[1..], part);
    var i := SetPlace(fields, name, became);
    var after := fields[i := Field(name, became)];
    assert SameKeys(fields, after);
    assert EnumTexts(after) == EnumTexts(fields) by {
      var j := SamePlace(fields, after, ENUM);
    }
    FieldAlike(name, was, became, EnumTexts(fields));
    assert fields[i] == Field(name, was);
    AlikeByField(fields, after);
  }

  lemma {:induction false} AlikeInList(items: seq<Json>, i: nat, path: Path, part: Json)
    requires path != [] && path[0] == At(i) && Avoids(path[1..])
    requires ValueAt(Arr(items), path).Some?
    requires KeyedAlike(ValueAt(Arr(items), path).value, part)
    ensures KeyedAlike(Arr(items), Replace(Arr(items), path, part))
    decreases |path|, 0
  {
    AlikeAnywhere(items[i], path[1..], part);
    AlikeByItem(items, items[i := Replace(items[i], path[1..], part)]);
  }

  // ---------------------------------------------------------------- reordering an enum

  predicate IsOrder(order: seq<nat>, n: nat) {
    |order| == n && Distinct(order) && forall i | 0 <= i < n :: order[i] < n
  }

  function Reordered<T>(items: seq<T>, order: seq<nat>): (moved: seq<T>)
    requires IsOrder(order, |items|)
    ensures |moved| == |items|
    ensures forall i | 0 <= i < |items| :: moved[i] == items[order[i]]
  {
    seq(|items|, i requires 0 <= i < |items| => items[order[i]])
  }

  /** Every place is the target of one place: an order that repeats nothing leaves nothing out. */
  lemma {:induction false} OrderReaches(order: seq<nat>, n: nat, j: nat) returns (i: nat)
    requires IsOrder(order, n) && j < n
    ensures i < n && order[i] == j
  {
    if j !in order {
      SubsetSize(Elements(order), Below(n) - {j});
      assert false;
    }
    i :| 0 <= i < |order| && order[i] == j;
  }

  function Elements(order: seq<nat>): (elements: set<int>)
    ensures forall k :: k in elements <==> k in order
    ensures Distinct(order) ==> |elements| == |order|
  {
    if order == [] then {}
    else
      var first, rest := order[0], order[1..];
      assert order == [first] + rest;
      assert Distinct(order) ==> Distinct(rest) && first !in rest;
      {first} + Elements(rest)
  }

  function Below(n: nat): (below: set<int>)
    ensures |below| == n && forall k :: k in below <==> 0 <= k < n
  {
    if n == 0 then {} else Below(n - 1) + {n - 1}
  }

  lemma SubsetSize(small: set<int>, large: set<int>)
    requires small <= large
    ensures |small| <= |large|
  {
    assert large == small + (large - small);
  }

  /** An enum and the lists in step with it, put in another order. */
  function ReorderField(field: Field, order: seq<nat>): (moved: Field)
    ensures moved.key == field.key
  {
    if (field.key == ENUM || field.key in ENUM_LISTS) && field.value.Arr? && IsOrder(order, |field.value.items|) then
      Field(field.key, Arr(Reordered(field.value.items, order)))
    else field
  }

  function ReorderEnum(fields: seq<Field>, order: seq<nat>): (moved: seq<Field>)
    ensures SameKeys(fields, moved)
    ensures forall i | 0 <= i < |fields| :: moved[i] == ReorderField(fields[i], order)
  {
    seq(|fields|, i requires 0 <= i < |fields| => ReorderField(fields[i], order))
  }

  /** The values of an enum, when they are plain and their texts tell them apart. */
  predicate IsEnum(fields: seq<Field>, order: seq<nat>) {
    var values := Get(fields, ENUM);
    values.Some? && PlainList(values.value) && EnumTexts(fields).Some? && IsOrder(order, |values.value.items|)
  }

  function Texts(items: seq<Json>): (texts: seq<string>)
    ensures |texts| == |items| && forall i | 0 <= i < |items| :: texts[i] == AsText(items[i])
  {
    seq(|items|, i requires 0 <= i < |items| => AsText(items[i]))
  }

  lemma {:induction false} TextsOf(fields: seq<Field>, items: seq<Json>)
    requires Get(fields, ENUM) == Some(Arr(items))
    ensures EnumTexts(fields) == Unique(Texts(items))
  {
    assert seq(|items|, i requires 0 <= i < |items| => AsText(items[i])) == Texts(items);
  }

  /** Moving the values of an enum moves their texts, and keeps them distinct or not. */
  lemma {:induction false} TextsMove(fields: seq<Field>, order: seq<nat>)
    requires Get(fields, ENUM).Some? && Get(fields, ENUM).value.Arr?
    requires IsOrder(order, |Get(fields, ENUM).value.items|)
    ensures var texts, texts' := EnumTexts(fields), EnumTexts(ReorderEnum(fields, order));
      if texts.None? then texts'.None?
      else |texts.value| == |order| && texts' == Some(Reordered(texts.value, order))
  {
    hide Get, HasKey, EnumTexts, AsText;
    var moved := ReorderEnum(fields, order);
    var place := SamePlace(fields, moved, ENUM);
    var items, items' := fields[place].value.items, moved[place].value.items;
    TextsOf(fields, items);
    TextsOf(moved, items');
    assert Texts(items') == Reordered(Texts(items), order);
    DistinctMoves(Texts(items), order);
  }

  lemma {:induction false} DistinctMoves(texts: seq<string>, order: seq<nat>)
    requires IsOrder(order, |texts|)
    ensures Distinct(Reordered(texts, order)) <==> Distinct(texts)
  {
    if !Distinct(texts) {
      var i, j :| 0 <= i < j < |texts| && texts[i] == texts[j];
      var i' := OrderReaches(order, |texts|, i);
      var j' := OrderReaches(order, |texts|, j);
    }
  }

  lemma {:induction false} PlainListStays(items: seq<Json>)
    requires PlainList(Arr(items))
    ensures KeyedLists(Arr(items)) == Arr(items)
  {
    assert forall i | 0 <= i < |items| :: KeyedLists(items[i]) == items[i];
  }

  lemma {:induction false} PlainListMoves(items: seq<Json>, order: seq<nat>)
    requires PlainList(Arr(items)) && IsOrder(order, |items|)
    ensures PlainList(Arr(Reordered(items, order)))
    ensures forall item :: item in items <==> item in Reordered(items, order)
  {
    var moved := Reordered(items, order);
    forall item | item in items ensures item in moved {
      var j :| 0 <= j < |items| && items[j] == item;
      var i := OrderReaches(order, |items|, j);
      assert moved[i] == item;
    }
  }

  lemma {:induction false} ZipMoves(keys: seq<string>, values: seq<Json>, order: seq<nat>)
    requires |keys| == |values| && Distinct(keys) && IsOrder(order, |keys|)
    ensures forall key ::
      Denote(Obj(Zip(keys, values)), key) == Denote(Obj(Zip(Reordered(keys, order), Reordered(values, order))), key)
  {
    hide Denote, Get, HasKey, Zip;
    var keys', values' := Reordered(keys, order), Reordered(values, order);
    assert Distinct(keys');
    var x, y := Zip(keys, values), Zip(keys', values');
    forall name
      ensures HasKey(x, name) <==> HasKey(y, name)
      ensures HasKey(x, name) ==> Get(x, name) == Get(y, name)
    {
      ZipKeys(keys, values, name);
      ZipKeys(keys', values', name);
      if name in keys {
        var j :| 0 <= j < |keys| && keys[j] == name;
        var i := OrderReaches(order, |keys|, j);
        GetZip(keys, values, j);
        GetZip(keys', values', i);
        assert keys'[i] == name;
      }
    }
    forall key ensures Denote(Obj(x), key) == Denote(Obj(y), key) {
      SameRecord(x, y, key);
    }
  }

  lemma {:induction false} FieldMoves(field: Field, order: seq<nat>, texts: seq<string>)
    requires Distinct(texts) && IsOrder(order, |texts|)
    requires field.key == ENUM ==> PlainList(field.value) && |field.value.items| == |order|
    ensures Denote(KeyedField(field, Some(texts)), Some(field.key))
         == Denote(KeyedField(ReorderField(field, order), Some(Reordered(texts, order))), Some(field.key))
  {
    if field.key == ENUM {
      var items := field.value.items;
      PlainListMoves(items, order);
      PlainListStays(items);
      PlainListStays(Reordered(items, order));
      assert (set item | item in items) == set item | item in Reordered(items, order);
    } else if field.key in ENUM_LISTS && field.value.Arr? && |field.value.items| == |order| {
      ZipMoves(texts, field.value.items, order);
    }
  }

  predicate UniqueKeys(fields: seq<Field>) {
    forall i, j | 0 <= i < j < |fields| :: fields[i].key != fields[j].key
  }

  lemma {:induction false} EnumAlike(fields: seq<Field>, order: seq<nat>)
    requires IsEnum(fields, order) && UniqueKeys(fields)
    ensures KeyedAlike(Obj(fields), Obj(ReorderEnum(fields, order)))
  {
    hide KeyedAlike, Denote, KeyedField, EnumTexts, ReorderField;
    var moved := ReorderEnum(fields, order);
    TextsMove(fields, order);
    var texts := EnumTexts(fields).value;
    var e := SamePlace(fields, moved, ENUM);
    forall i | 0 <= i < |fields|
      ensures Denote(KeyedField(fields[i], EnumTexts(fields)), Some(fields[i].key))
           == Denote(KeyedField(moved[i], EnumTexts(moved)), Some(fields[i].key))
    {
      assert fields[i].key == ENUM ==> i == e;
      FieldMoves(fields[i], order, texts);
    }
    AlikeByField(fields, moved);
  }

  /**
   * Wherever an object with an enum stands in a document, reordering the enum together with the
   * lists that describe it leaves the comparison nothing to report.
   */
  lemma {:induction false} EnumOrderIsFree(value: Json, place: Path, order: seq<nat>, path: Path)
    requires Avoids(place) && ValueAt(value, place).Some? && ValueAt(value, place).value.Obj?
    requires UniqueKeys(ValueAt(value, place).value.fields) && IsEnum(ValueAt(value, place).value.fields, order)
    ensures var moved := Obj(ReorderEnum(ValueAt(value, place).value.fields, order));
      Diff(Comparable(value), Comparable(Replace(value, place, moved)), path, None) == Ok([])
  {
    var fields := ValueAt(value, place).value.fields;
    var after := Replace(value, place, Obj(ReorderEnum(fields, order)));
    EnumAlike(fields, order);
    AlikeAnywhere(value, place, Obj(ReorderEnum(fields, order)));
    SameComparable(value, after, path);
  }

  lemma {:induction false} SameComparable(before: Json, after: Json, path: Path)
    requires KeyedAlike(before, after)
    ensures Diff(Comparable(before), Comparable(after), path, None) == Ok([])
  {
    hide Diff, Denote, KeyedLists, WithoutWording;
    assert Denote(KeyedLists(before), None) == Denote(KeyedLists(after), None);
    WordingKeepsMeaning(KeyedLists(before), KeyedLists(after), None, None);
    EmptyMeansSame(Comparable(before), Comparable(after), path, None);
  }
}
