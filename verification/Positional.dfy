/** What a change at one place of a document does to the comparison, and enums whose values share a text. */
module Positional {
  import opened Wrappers
  import opened Json
  import opened Differences
  import opened Wording
  import opened Keying
  import opened Rewording

  /** A part of a document as the comparison sees it. */
  function Seen(value: Json, parent: Option<string>): Json {
    WithoutWording(KeyedLists(value), parent)
  }

  /** The key that decides how the part at a place is read, or nothing where the part is wording or data. */
  function ParentAt(place: Path, parent: Option<string>): Option<Option<string>> {
    if place == [] then Some(parent)
    else
      match place[0]
      case At(_) => ParentAt(place[1..], None)
      case Name(name) =>
        var names := IsNameMap(parent);
        if !names && (name in WORDING_KEYS || name in LITERAL_KEYS) then None
        else if names && name in KEYED_KEYS && |place| > 1 && place[1].At? then None
        else ParentAt(place[1..], if names then None else Some(name))
  }

  /** Objects that a list keyed by its items would put under the same key. */
  predicate SameItemKeys(one: Json, other: Json) {
    one.Obj? && other.Obj? && ItemKey(FLAGS, one) == ItemKey(FLAGS, other)
    && ItemKey(PARAMETERS, one) == ItemKey(PARAMETERS, other)
  }

  // ---------------------------------------------------------------- rewording one place

  lemma {:induction false} RewordedThere(value: Json, place: Path, part: Json, parent: Option<string>)
    requires ValueAt(value, place).Some? && ValueAt(value, place).value.Obj?
    requires Avoids(place) && ParentAt(place, parent).Some?
    requires Reworded(ValueAt(value, place).value, part, ParentAt(place, parent).value)
    ensures Reworded(value, Replace(value, place, part), parent)
    decreases |place|
  {
    if place != [] {
      assert Avoids(place[1..]);
      match place[0]
      case At(i) => RewordedThere(value.items[i], place[1..], part, None);
      case Name(name) =>
        var fields, names := value.fields, IsNameMap(parent);
        var was := Get(fields, name).value;
        var became := Replace(was, place[1..], part);
        RewordedThere(was, place[1..], part, if names then None else Some(name));
        var after := Set(fields, name, became);
        forall other | names || other !in WORDING_KEYS
          ensures RewordedField(Get(fields, other), Get(after, other), other, names, value)
        {
          GetSet(fields, name, became, other);
        }
    }
  }

  // ---------------------------------------------------------------- a difference at one place is seen

  lemma {:induction false} KindStays(value: Json, place: Path, part: Json)
    requires ValueAt(value, place).Some? && SameItemKeys(ValueAt(value, place).value, part)
    ensures var after := Replace(value, place, part);
      && (value.Obj? || value.Arr?) && (value.Obj? <==> after.Obj?) && (value.Arr? <==> after.Arr?)
  {}

  /** A change inside an item leaves it under its key. */
  lemma {:induction false} ItemKeyStays(name: string, item: Json, place: Path, part: Json)
    requires ValueAt(item, place).Some? && SameItemKeys(ValueAt(item, place).value, part)
    ensures ItemKey(name, item) == ItemKey(name, Replace(item, place, part))
  {
    hide HasKey, Get;
    if place != [] && place[0].Name? {
      var fields, changed := item.fields, place[0].name;
      var was := Get(fields, changed).value;
      var became := Replace(was, place[1..], part);
      KindStays(was, place[1..], part);
      GetSet(fields, changed, became, "value");
      GetSet(fields, changed, became, "name");
      GetSet(fields, changed, became, "in");
    }
  }

  /** Only lists of plain items compare differently under another key. */
  lemma AlikeUnderAnyKey(one: Json, other: Json, key: Option<string>, key': Option<string>)
    requires Alike(one, other, key) && !PlainList(one)
    ensures Alike(one, other, key')
  {}

  lemma {:induction false} NoPlainList(value: Json, place: Path, parent: Option<string>)
    requires ValueAt(value, place).Some? && ValueAt(value, place).value.Obj?
    ensures !PlainList(Seen(value, parent))
  {
    if value.Arr? {
      var i := place[0].index;
      assert ValueAt(value.items[i], place[1..]).Some?;
      assert Seen(value, parent).items[i] == Seen(value.items[i], None);
    }
  }

  lemma {:induction false} AlikeAtName(
      fields: seq<Field>, name: string, became: Json, parent: Option<string>, key: Option<string>)
    requires HasKey(fields, name) && name != ENUM && (IsNameMap(parent) || name !in WORDING_KEYS + LITERAL_KEYS)
    requires Alike(Seen(Obj(fields), parent), Seen(Obj(Set(fields, name, became)), parent), key)
    ensures var inner := if IsNameMap(parent) then None else Some(name);
      var was, texts := Get(fields, name).value, EnumTexts(fields);
      Alike(WithoutWording(KeyedField(Field(name, was), texts), inner),
            WithoutWording(KeyedField(Field(name, became), texts), inner), Some(name))
  {
    hide Alike, WithoutWording, KeyedLists, KeyedField, Get, HasKey, Set;
    var after := Set(fields, name, became);
    GetSet(fields, name, became, name);
    GetSet(fields, name, became, ENUM);
    KeyedAt(fields, name);
    KeyedAt(after, name);
    var keyed, keyed' := KeyedLists(Obj(fields)).fields, KeyedLists(Obj(after)).fields;
    GetWordless(keyed, parent, name);
    GetWordless(keyed', parent, name);
    var x, y := Seen(Obj(fields), parent).fields, Seen(Obj(after), parent).fields;
    AlikeObjects(x, y, key);
    assert AlikeField(Get(x, name), Get(y, name), name, Obj(x));
  }

  lemma {:induction false} AlikeAtKey(keys: seq<string>, one: seq<Json>, other: seq<Json>, name: string, k: nat)
    requires |keys| == |one| == |other| && Distinct(keys) && name in NAME_MAPS && k < |one|
    requires Alike(WithoutWording(Obj(Zip(keys, one)), Some(name)),
                   WithoutWording(Obj(Zip(keys, other)), Some(name)), Some(name))
    ensures Alike(WithoutWording(one[k], None), WithoutWording(other[k], None), Some(keys[k]))
  {
    hide Alike, WithoutWording, Get, HasKey, Zip;
    GetWordless(Zip(keys, one), Some(name), keys[k]);
    GetWordless(Zip(keys, other), Some(name), keys[k]);
    GetZip(keys, one, k);
    GetZip(keys, other, k);
    var x := WithoutWording(Obj(Zip(keys, one)), Some(name)).fields;
    var y := WithoutWording(Obj(Zip(keys, other)), Some(name)).fields;
    AlikeObjects(x, y, Some(name));
    assert AlikeField(Get(x, keys[k]), Get(y, keys[k]), keys[k], Obj(x));
  }

  /** If the whole documents are alike, so are the parts in which they differ. */
  lemma {:induction false} AlikeInside(
      value: Json, place: Path, part: Json, parent: Option<string>, key: Option<string>)
    requires ValueAt(value, place).Some? && Avoids(place) && ParentAt(place, parent).Some?
    requires SameItemKeys(ValueAt(value, place).value, part)
    requires Alike(Seen(value, parent), Seen(Replace(value, place, part), parent), key)
    ensures var inner := ParentAt(place, parent).value;
      Alike(Seen(ValueAt(value, place).value, inner), Seen(part, inner), None)
    decreases |place|, 0
  {
    hide Alike, Seen, Avoids, ItemKey, Get, HasKey, KeyedField, KeyedLists, Set;
    if place == [] {
      NoPlainList(value, place, parent);
      AlikeUnderAnyKey(Seen(value, parent), Seen(part, parent), key, None);
    } else {
      AvoidsRest(place);
      match place[0]
      case At(i) =>
        AlikeAtIndex(value.items, place, part, parent, key);
        AlikeInside(value.items[i], place[1..], part, None, None);
      case Name(name) =>
        var was := Get(value.fields, name).value;
        AlikeAtName(value.fields, name, Replace(was, place[1..], part), parent, key);
        AlikeInField(was, name, place[1..], part, EnumTexts(value.fields), IsNameMap(parent));
    }
  }

  lemma AvoidsRest(place: Path)
    requires Avoids(place) && place != []
    ensures Avoids(place[1..]) && (place[0].Name? ==> place[0].name != ENUM && place[0].name !in ENUM_LISTS)
  {}

  lemma {:induction false} AlikeAtIndex(
      items: seq<Json>, place: Path, part: Json, parent: Option<string>, key: Option<string>)
    requires place != [] && place[0].At? && ValueAt(Arr(items), place).Some?
    requires ValueAt(Arr(items), place).value.Obj?
    requires Alike(Seen(Arr(items), parent), Seen(Replace(Arr(items), place, part), parent), key)
    ensures var i := place[0].index;
      Alike(Seen(items[i], None), Seen(Replace(items[i], place[1..], part), None), None)
  {
    var i := place[0].index;
    var after := items[i := Replace(items[i], place[1..], part)];
    NoPlainList(Arr(items), place, parent);
    var x, y := Seen(Arr(items), parent), Seen(Arr(after), parent);
    assert x.items[i] == Seen(items[i], None) && y.items[i] == Seen(after[i], None);
  }

  lemma {:induction false} AlikeInField(
      was: Json, name: string, place: Path, part: Json, texts: Option<seq<string>>, names: bool)
    requires ValueAt(was, place).Some? && Avoids(place)
    requires SameItemKeys(ValueAt(was, place).value, part)
    requires name !in ENUM_LISTS && !(names && name in KEYED_KEYS && place != [] && place[0].At?)
    requires ParentAt(place, if names then None else Some(name)).Some?
    requires var inner := if names then None else Some(name);
      Alike(WithoutWording(KeyedField(Field(name, was), texts), inner),
            WithoutWording(KeyedField(Field(name, Replace(was, place, part)), texts), inner), Some(name))
    ensures var inner := ParentAt(place, if names then None else Some(name)).value;
      Alike(Seen(ValueAt(was, place).value, inner), Seen(part, inner), None)
    decreases |place|, 1
  {
    hide Alike, Avoids, ItemKey, Get, HasKey, KeyedLists, Set, WithoutWording;
    var became := Replace(was, place, part);
    var inner := if names then None else Some(name);
    KindStays(was, place, part);
    var keys := if was.Arr? then ListKeys(name, was.items) else None;
    if was.Arr? {
      var k := place[0].index;
      forall i | 0 <= i < |was.items| ensures ItemKey(name, was.items[i]) == ItemKey(name, became.items[i]) {
        if i == k { ItemKeyStays(name, was.items[k], place[1..], part); }
      }
      SameListKeys(name, was.items, became.items);
      if keys.Some? {
        AlikeAtKey(keys.value, KeyedItems(was.items, was), KeyedItems(became.items, became), name, k);
        AvoidsRest(place);
        AlikeInside(was.items[k], place[1..], part, None, Some(keys.value[k]));
      }
    }
    if keys.None? {
      AlikeInside(was, place, part, inner, Some(name));
    }
  }

  // ---------------------------------------------------------------- one replacement after another

  lemma {:induction false} SetTwice(fields: seq<Field>, name: string, one: Json, other: Json)
    ensures Set(Set(fields, name, one), name, other) == Set(fields, name, other)
  {
    if fields != [] && fields[0].key != name {
      SetTwice(fields[1..], name, one, other);
      assert Set(fields, name, one)[1..] == Set(fields[1..], name, one);
    }
  }

  lemma {:induction false} ReplaceTwice(value: Json, place: Path, one: Json, other: Json)
    requires ValueAt(value, place).Some?
    ensures ValueAt(Replace(value, place, one), place) == Some(one)
    ensures Replace(Replace(value, place, one), place, other) == Replace(value, place, other)
    decreases |place|
  {
    if place != [] {
      match place[0]
      case At(i) =>
        ReplaceTwice(value.items[i], place[1..], one, other);
        var was, became := value.items[i], Replace(value.items[i], place[1..], one);
        assert value.items[i := became][i := Replace(became, place[1..], other)]
            == value.items[i := Replace(was, place[1..], other)];
      case Name(name) =>
        var was := Get(value.fields, name).value;
        ReplaceTwice(was, place[1..], one, other);
        GetSet(value.fields, name, Replace(was, place[1..], one), name);
        SetTwice(value.fields, name, Replace(was, place[1..], one), Replace(was, place[1..], other));
    }
  }

  // ---------------------------------------------------------------- enum values with one text

  const NAMES := "x-enumNames"

  /** An enum of plain values of which two share a text, with a name beside each value. */
  predicate IsEqualTextEnum(fields: seq<Field>, names: seq<Json>) {
    && UniqueKeys(fields)
    && Get(fields, ENUM).Some? && PlainList(Get(fields, ENUM).value) && EnumTexts(fields).None?
    && Get(fields, NAMES) == Some(Arr(names)) && PlainList(Arr(names))
    && |names| == |Get(fields, ENUM).value.items|
  }

  /** Without texts to key them by, the names of an enum stay a list. */
  lemma {:induction false} NamesStayList(fields: seq<Field>, names: seq<Json>, parent: Option<string>)
    requires EnumTexts(fields).None? && Get(fields, NAMES) == Some(Arr(names)) && PlainList(Arr(names))
    requires !IsNameMap(parent)
    ensures Seen(Obj(fields), parent).Obj? && Get(Seen(Obj(fields), parent).fields, NAMES) == Some(Arr(names))
  {
    hide WithoutWording, HasKey, Get;
    PlainListStays(names);
    KeyedAt(fields, NAMES);
    GetWordless(KeyedLists(Obj(fields)).fields, parent, NAMES);
    WordlessPlain(Arr(names), Some(NAMES));
  }

  lemma {:induction false} ReorderKeepsItemKeys(fields: seq<Field>, order: seq<nat>)
    ensures SameItemKeys(Obj(fields), Obj(ReorderEnum(fields, order)))
  {
    hide HasKey, Get;
    var value := SamePlace(fields, ReorderEnum(fields, order), "value");
    var name := SamePlace(fields, ReorderEnum(fields, order), "name");
    var place := SamePlace(fields, ReorderEnum(fields, order), "in");
  }

  lemma PlainListsAlike(one: seq<Json>, other: seq<Json>, name: string)
    requires PlainList(Arr(one)) && name !in SET_KEYS
    requires Alike(Arr(one), Arr(other), Some(name))
    ensures one == other
  {
    assert forall k | 0 <= k < |one| :: Alike(one[k], other[k], None);
  }

  /** An unreported reordering moved no name. */
  lemma {:induction false} UnreportedKeepsNames(
      value: Json, place: Path, order: seq<nat>, names: seq<Json>, path: Path)
    requires Avoids(place) && ValueAt(value, place).Some? && ValueAt(value, place).value.Obj?
    requires ParentAt(place, None).Some? && !IsNameMap(ParentAt(place, None).value)
    requires IsEqualTextEnum(ValueAt(value, place).value.fields, names) && IsOrder(order, |names|)
    requires var moved := Obj(ReorderEnum(ValueAt(value, place).value.fields, order));
      Diff(Comparable(value), Comparable(Replace(value, place, moved)), path, None) == Ok([])
    ensures Reordered(names, order) == names
  {
    hide Diff, EnumTexts, HasKey, Alike, Get, KeyedLists, WithoutWording, Replace, ValueAt, Avoids;
    var fields := ValueAt(value, place).value.fields;
    var moved, names', parent := ReorderEnum(fields, order), Reordered(names, order), ParentAt(place, None).value;
    TextsMove(fields, order);
    var i := SamePlace(fields, moved, NAMES);
    NamesStayList(fields, names, parent);
    NamesStayList(moved, names', parent);
    EmptyMeansAlike(Comparable(value), Comparable(Replace(value, place, Obj(moved))), path, None);
    ReorderKeepsItemKeys(fields, order);
    AlikeInside(value, place, Obj(moved), None, None);
    var before, after := Seen(Obj(fields), parent), Seen(Obj(moved), parent);
    AlikeObjects(before.fields, after.fields, None);
    assert AlikeField(Get(before.fields, NAMES), Get(after.fields, NAMES), NAMES, before);
    PlainListsAlike(names, names', NAMES);
  }

  /** The enum alone in another order, the lists beside it as they were. */
  function ReorderValues(fields: seq<Field>, order: seq<nat>): (moved: seq<Field>)
    ensures SameKeys(fields, moved)
    ensures forall i | 0 <= i < |fields| ::
      moved[i] == if fields[i].key == ENUM then ReorderField(fields[i], order) else fields[i]
  {
    seq(|fields|, i requires 0 <= i < |fields| =>
      if fields[i].key == ENUM then ReorderField(fields[i], order) else fields[i])
  }

  lemma {:induction false} ValuesAlike(fields: seq<Field>, order: seq<nat>, names: seq<Json>)
    requires IsEqualTextEnum(fields, names) && IsOrder(order, |names|)
    ensures KeyedAlike(Obj(fields), Obj(ReorderValues(fields, order)))
  {
    hide KeyedAlike, Denote, KeyedField, EnumTexts, ReorderField, Get, HasKey;
    var moved := ReorderValues(fields, order);
    TextsMove(fields, order);
    var e := SamePlace(fields, moved, ENUM);
    var e' := SamePlace(moved, ReorderEnum(fields, order), ENUM);
    assert EnumTexts(moved).None? by {
      assert Get(moved, ENUM) == Get(ReorderEnum(fields, order), ENUM);
      TextsDecide(moved, ReorderEnum(fields, order));
    }
    forall i | 0 <= i < |fields|
      ensures Denote(KeyedField(fields[i], EnumTexts(fields)), Some(fields[i].key))
           == Denote(KeyedField(moved[i], EnumTexts(moved)), Some(fields[i].key))
    {
      assert fields[i].key == ENUM ==> i == e;
      ValuesMove(fields[i], order);
    }
    AlikeByField(fields, moved);
  }

  lemma TextsDecide(one: seq<Field>, other: seq<Field>)
    requires Get(one, ENUM) == Get(other, ENUM)
    ensures EnumTexts(one) == EnumTexts(other)
  {}

  lemma {:induction false} ValuesMove(field: Field, order: seq<nat>)
    requires field.key == ENUM ==> PlainList(field.value) && |field.value.items| == |order|
    ensures Denote(KeyedField(field, None), Some(field.key))
         == Denote(KeyedField(if field.key == ENUM then ReorderField(field, order) else field, None), Some(field.key))
  {
    if field.key == ENUM && IsOrder(order, |field.value.items|) {
      var items := field.value.items;
      PlainListMoves(items, order);
      PlainListStays(items);
      PlainListStays(Reordered(items, order));
      assert (set item | item in items) == set item | item in Reordered(items, order);
    }
  }

  /** With every name in place, what is left of the reordering is wording. */
  lemma {:induction false} RestIsWording(
      fields: seq<Field>, order: seq<nat>, names: seq<Json>, parent: Option<string>)
    requires IsEqualTextEnum(fields, names) && IsOrder(order, |names|) && Reordered(names, order) == names
    requires !IsNameMap(parent)
    ensures Reworded(Obj(ReorderValues(fields, order)), Obj(ReorderEnum(fields, order)), parent)
  {
    hide EnumTexts, Get, HasKey;
    var one, other := ReorderValues(fields, order), ReorderEnum(fields, order);
    var n := SamePlace(fields, one, NAMES);
    forall name | name !in WORDING_KEYS ensures Get(one, name) == Get(other, name) {
      var i := SamePlace(one, other, name);
      if HasKey(one, name) {
        assert name == NAMES ==> i == n;
      }
    }
  }

  /**
   * Enum values that share a text leave the lists beside them compared by position: the reordering of an
   * enum anywhere in a document is unreported exactly if it happens to keep every name in place.
   */
  lemma {:induction false} EqualTextsStayPositional(
      value: Json, place: Path, order: seq<nat>, names: seq<Json>, path: Path)
    requires Avoids(place) && ValueAt(value, place).Some? && ValueAt(value, place).value.Obj?
    requires ParentAt(place, None).Some? && !IsNameMap(ParentAt(place, None).value)
    requires IsEqualTextEnum(ValueAt(value, place).value.fields, names) && IsOrder(order, |names|)
    ensures var moved := Obj(ReorderEnum(ValueAt(value, place).value.fields, order));
      Diff(Comparable(value), Comparable(Replace(value, place, moved)), path, None) == Ok([])
      <==> Reordered(names, order) == names
  {
    hide Diff, Denote, EnumTexts, HasKey, Get, KeyedLists, WithoutWording, Replace, Avoids, Reworded;
    var fields := ValueAt(value, place).value.fields;
    var half, moved := Obj(ReorderValues(fields, order)), Obj(ReorderEnum(fields, order));
    var between, after := Replace(value, place, half), Replace(value, place, moved);
    if Reordered(names, order) == names {
      ValuesAlike(fields, order, names);
      AlikeAnywhere(value, place, half);
      assert Denote(KeyedLists(value), None) == Denote(KeyedLists(between), None);
      WordingKeepsMeaning(KeyedLists(value), KeyedLists(between), None, None);
      ReplaceTwice(value, place, half, moved);
      RestIsWording(fields, order, names, ParentAt(place, None).value);
      RewordedThere(between, place, moved, None);
      RewordingIsInvisible(between, after, None);
      EmptyMeansSame(Comparable(value), Comparable(after), path, None);
    } else if Diff(Comparable(value), Comparable(after), path, None) == Ok([]) {
      UnreportedKeepsNames(value, place, order, names, path);
    }
  }
}
