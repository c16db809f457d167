/** Rewording a document, in any number of its places, leaves nothing to report. */
module Rewording {
  import opened Wrappers
  import opened Json
  import opened Differences
  import opened Wording

  /** Lists under these keys are keyed by what stands beside or in them, even where keys are names. */
  const KEYED_KEYS: set<string> := ENUM_LISTS + {FLAGS, PARAMETERS}

  /** Data is compared as it stands, and so are the items of a list that is keyed although its own key is a name. */
  predicate IsData(name: string, value: Json, names: bool) {
    if names then name in KEYED_KEYS && value.Arr? else name in LITERAL_KEYS
  }

  /** Documents that differ under wording keys only, wherever those stand. */
  ghost predicate Reworded(one: Json, other: Json, parent: Option<string>)
    decreases one, 1
  {
    one == other ||
    match (one, other)
    case (Arr(x), Arr(y)) => |x| == |y| && forall i | 0 <= i < |x| :: Reworded(x[i], y[i], None)
    case (Obj(x), Obj(y)) =>
      forall name | IsNameMap(parent) || name !in WORDING_KEYS ::
        RewordedField(Get(x, name), Get(y, name), name, IsNameMap(parent), one)
    case _ => false
  }

  ghost predicate RewordedField(x: Option<Json>, y: Option<Json>, name: string, names: bool, within: Json)
    requires x.Some? ==> x.value < within
    decreases within, 0
  {
    x == y ||
    (x.Some? && y.Some? && !IsData(name, x.value, names)
     && Reworded(x.value, y.value, if names then None else Some(name)))
  }

  // ---------------------------------------------------------------- documents that are not keyed

  lemma {:induction false} SameWordless(one: Json, other: Json, parent: Option<string>)
    requires Reworded(one, other, parent)
    ensures forall key :: Denote(WithoutWording(one, parent), key) == Denote(WithoutWording(other, parent), key)
    decreases one, 1
  {
    hide Denote;
    if one == other {
    } else if one.Arr? {
      var a, b := WithoutWording(one, parent).items, WithoutWording(other, parent).items;
      forall i | 0 <= i < |a| ensures Denote(a[i], None) == Denote(b[i], None) {
        assert a[i] == WithoutWording(one.items[i], None) && b[i] == WithoutWording(other.items[i], None);
        SameWordless(one.items[i], other.items[i], None);
      }
      SameItems(a, b);
    } else {
      SameWordlessFields(one.fields, other.fields, parent);
    }
  }

  lemma {:induction false} SameWordlessFields(one: seq<Field>, other: seq<Field>, parent: Option<string>)
    requires Reworded(Obj(one), Obj(other), parent)
    ensures forall key ::
      Denote(WithoutWording(Obj(one), parent), key) == Denote(WithoutWording(Obj(other), parent), key)
    decreases Obj(one), 0
  {
    hide Denote, WithoutWording, Get, HasKey;
    GetWordless(one, parent, "");
    GetWordless(other, parent, "");
    var x, y := WithoutWording(Obj(one), parent).fields, WithoutWording(Obj(other), parent).fields;
    forall name
      ensures HasKey(x, name) <==> HasKey(y, name)
      ensures HasKey(x, name) ==> Denote(Get(x, name).value, Some(name)) == Denote(Get(y, name).value, Some(name))
    {
      GetWordless(one, parent, name);
      GetWordless(other, parent, name);
      if IsNameMap(parent) || name !in WORDING_KEYS {
        assert Get(one, name) == Get(other, name)
          || RewordedField(Get(one, name), Get(other, name), name, IsNameMap(parent), Obj(one));
        if Get(one, name) != Get(other, name) {
          SameWordless(Get(one, name).value, Get(other, name).value, if IsNameMap(parent) then None else Some(name));
        }
      }
    }
    forall key ensures Denote(Obj(x), key) == Denote(Obj(y), key) {
      SameRecord(x, y, key);
    }
  }

  // ---------------------------------------------------------------- keys that rewording keeps

  lemma {:induction false} SameText(one: Json, other: Json, parent: Option<string>)
    requires Reworded(one, other, parent)
    ensures AsText(one) == AsText(other) && (one.Null? <==> other.Null?)
    decreases one, 1
  {
    if one != other && one.Arr? {
      SameTexts(one, other, 0);
      assert one.items[0..] == one.items && other.items[0..] == other.items;
    }
  }

  lemma {:induction false} SameTexts(one: Json, other: Json, from: nat)
    requires one.Arr? && other.Arr? && |one.items| == |other.items| && from <= |one.items|
    requires forall i | 0 <= i < |one.items| :: Reworded(one.items[i], other.items[i], None)
    ensures JoinTexts(one.items[from..]) == JoinTexts(other.items[from..])
    decreases one, 0, |one.items| - from
  {
    hide Reworded, AsText;
    if from < |one.items| {
      SameText(one.items[from], other.items[from], None);
      SameTexts(one, other, from + 1);
      assert one.items[from..][1..] == one.items[from + 1..] && other.items[from..][1..] == other.items[from + 1..];
    }
  }

  lemma {:induction false} SameEnumTexts(one: seq<Field>, other: seq<Field>, parent: Option<string>)
    requires Reworded(Obj(one), Obj(other), parent)
    ensures EnumTexts(one) == EnumTexts(other)
  {
    hide AsText, HasKey, Get;
    if Get(one, ENUM) != Get(other, ENUM) {
      assert RewordedField(Get(one, ENUM), Get(other, ENUM), ENUM, IsNameMap(parent), Obj(one));
      var x, y := Get(one, ENUM).value, Get(other, ENUM).value;
      assert Reworded(x, y, None);
      if x.Arr? {
        forall i | 0 <= i < |x.items| ensures AsText(x.items[i]) == AsText(y.items[i]) {
          SameText(x.items[i], y.items[i], None);
        }
        assert seq(|x.items|, i requires 0 <= i < |x.items| => AsText(x.items[i]))
            == seq(|y.items|, i requires 0 <= i < |y.items| => AsText(y.items[i]));
      }
    }
  }

  lemma {:induction false} SameItemKey(name: string, one: Json, other: Json)
    requires Reworded(one, other, None)
    ensures ItemKey(name, one) == ItemKey(name, other)
  {
    hide HasKey, Get;
    if one != other && one.Obj? {
      SameScalar(one.fields, other.fields, "value");
      SameScalar(one.fields, other.fields, "name");
      SameScalar(one.fields, other.fields, "in");
    }
  }

  lemma {:induction false} SameScalar(one: seq<Field>, other: seq<Field>, name: string)
    requires Reworded(Obj(one), Obj(other), None) && name !in WORDING_KEYS
    ensures var x, y := Get(one, name), Get(other, name);
      x == y || (x.Some? && y.Some? && !IsPlain(x.value) && !IsPlain(y.value))
  {
    hide HasKey, Get;
    assert Get(one, name) == Get(other, name)
      || RewordedField(Get(one, name), Get(other, name), name, false, Obj(one));
    if Get(one, name) != Get(other, name) {
      assert Reworded(Get(one, name).value, Get(other, name).value, Some(name));
    }
  }

  // ---------------------------------------------------------------- keyed documents

  lemma {:induction false} KeyedAt(fields: seq<Field>, name: string)
    ensures KeyedLists(Obj(fields)).Obj? && SameKeys(fields, KeyedLists(Obj(fields)).fields)
    ensures HasKey(KeyedLists(Obj(fields)).fields, name) <==> HasKey(fields, name)
    ensures HasKey(fields, name) ==>
      Get(KeyedLists(Obj(fields)).fields, name)
      == Some(KeyedField(Field(name, Get(fields, name).value), EnumTexts(fields)))
  {
    hide KeyedField, EnumTexts, Get, HasKey;
    var i := SamePlace(fields, KeyedLists(Obj(fields)).fields, name);
    if HasKey(fields, name) {
      assert fields[i] == Field(name, Get(fields, name).value);
    }
  }

  /** Another text under wording keys, one more or less of them, anywhere: the documents compare as one. */
  lemma {:induction false} RewordingIsInvisible(one: Json, other: Json, parent: Option<string>)
    requires Reworded(one, other, parent)
    ensures forall key ::
      Denote(WithoutWording(KeyedLists(one), parent), key) == Denote(WithoutWording(KeyedLists(other), parent), key)
    decreases one, 2
  {
    hide Denote;
    if one == other {
    } else if one.Arr? {
      var x, y := KeyedLists(one).items, KeyedLists(other).items;
      var a, b := WithoutWording(KeyedLists(one), parent).items, WithoutWording(KeyedLists(other), parent).items;
      forall i | 0 <= i < |x| ensures Denote(a[i], None) == Denote(b[i], None) {
        assert x[i] == KeyedLists(one.items[i]) && y[i] == KeyedLists(other.items[i]);
        assert a[i] == WithoutWording(x[i], None) && b[i] == WithoutWording(y[i], None);
        RewordingIsInvisible(one.items[i], other.items[i], None);
      }
      SameItems(a, b);
    } else {
      SameKeyedFields(one.fields, other.fields, parent);
    }
  }

  lemma {:induction false} SameKeyedFields(one: seq<Field>, other: seq<Field>, parent: Option<string>)
    requires Reworded(Obj(one), Obj(other), parent)
    ensures forall key ::
      Denote(WithoutWording(KeyedLists(Obj(one)), parent), key)
      == Denote(WithoutWording(KeyedLists(Obj(other)), parent), key)
    decreases Obj(one), 1
  {
    hide Denote, WithoutWording, KeyedLists, KeyedField, EnumTexts, Get, HasKey;
    SameEnumTexts(one, other, parent);
    KeyedAt(one, "");
    KeyedAt(other, "");
    var keyed, keyed' := KeyedLists(Obj(one)).fields, KeyedLists(Obj(other)).fields;
    GetWordless(keyed, parent, "");
    GetWordless(keyed', parent, "");
    var x, y := WithoutWording(Obj(keyed), parent).fields, WithoutWording(Obj(keyed'), parent).fields;
    forall name
      ensures HasKey(x, name) <==> HasKey(y, name)
      ensures HasKey(x, name) ==> Denote(Get(x, name).value, Some(name)) == Denote(Get(y, name).value, Some(name))
    {
      GetWordless(keyed, parent, name);
      GetWordless(keyed', parent, name);
      KeyedAt(one, name);
      KeyedAt(other, name);
      if IsNameMap(parent) || name !in WORDING_KEYS {
        assert Get(one, name) == Get(other, name)
          || RewordedField(Get(one, name), Get(other, name), name, IsNameMap(parent), Obj(one));
        if Get(one, name) != Get(other, name) {
          SameKeyedField(one, name, Get(other, name).value, EnumTexts(one), IsNameMap(parent));
        }
      }
    }
    forall key ensures Denote(Obj(x), key) == Denote(Obj(y), key) {
      SameRecord(x, y, key);
    }
  }

  lemma {:induction false} SameKeyedField(
      fields: seq<Field>, name: string, other: Json, texts: Option<seq<string>>, names: bool)
    requires HasKey(fields, name) && (texts.Some? ==> Distinct(texts.value))
    requires var inner := if names then None else Some(name);
      !IsData(name, Get(fields, name).value, names) && Reworded(Get(fields, name).value, other, inner)
    requires names || name !in WORDING_KEYS
    ensures var inner := if names then None else Some(name);
      Denote(WithoutWording(KeyedField(Field(name, Get(fields, name).value), texts), inner), Some(name))
      == Denote(WithoutWording(KeyedField(Field(name, other), texts), inner), Some(name))
    decreases Obj(fields), 0
  {
    hide Denote, WithoutWording, KeyedLists, Get, HasKey;
    var one := Get(fields, name).value;
    var inner := if names then None else Some(name);
    RewordingIsInvisible(one, other, inner);
    if one != other && one.Arr? && !names && name in KEYED_KEYS {
      forall i | 0 <= i < |one.items| ensures ItemKey(name, one.items[i]) == ItemKey(name, other.items[i]) {
        SameItemKey(name, one.items[i], other.items[i]);
      }
      SameListKeys(name, one.items, other.items);
      var keys := ListKeys(name, one.items);
      if name in ENUM_LISTS && texts.Some? && |texts.value| == |one.items| {
        forall i | 0 <= i < |one.items| {
          SameWordless(one.items[i], other.items[i], None);
        }
        SameZips(texts.value, one.items, other.items, name);
      } else if keys.Some? {
        forall i | 0 <= i < |one.items| {
          RewordingIsInvisible(one.items[i], other.items[i], None);
        }
        SameZips(keys.value, KeyedItems(one.items, one), KeyedItems(other.items, other), name);
      }
    }
  }

  /** Items under their keys, which are names here. */
  lemma {:induction false} SameZips(keys: seq<string>, one: seq<Json>, other: seq<Json>, name: string)
    requires |keys| == |one| == |other| && Distinct(keys) && name in NAME_MAPS
    requires forall i | 0 <= i < |one| :: forall key ::
      Denote(WithoutWording(one[i], None), key) == Denote(WithoutWording(other[i], None), key)
    ensures Denote(WithoutWording(Obj(Zip(keys, one)), Some(name)), Some(name))
         == Denote(WithoutWording(Obj(Zip(keys, other)), Some(name)), Some(name))
  {
    hide Denote, WithoutWording, Get, HasKey, Zip;
    GetWordless(Zip(keys, one), Some(name), "");
    GetWordless(Zip(keys, other), Some(name), "");
    var x := WithoutWording(Obj(Zip(keys, one)), Some(name)).fields;
    var y := WithoutWording(Obj(Zip(keys, other)), Some(name)).fields;
    forall key
      ensures HasKey(x, key) <==> HasKey(y, key)
      ensures HasKey(x, key) ==> Denote(Get(x, key).value, Some(key)) == Denote(Get(y, key).value, Some(key))
    {
      GetWordless(Zip(keys, one), Some(name), key);
      GetWordless(Zip(keys, other), Some(name), key);
      ZipKeys(keys, one, key);
      ZipKeys(keys, other, key);
      if key in keys {
        var i :| 0 <= i < |keys| && keys[i] == key;
        GetZip(keys, one, i);
        GetZip(keys, other, i);
      }
    }
    SameRecord(x, y, Some(name));
  }

  /** So no rewording of a document is reported. */
  lemma {:induction false} RewordingIsUnreported(one: Json, other: Json, path: Path)
    requires Reworded(one, other, None)
    ensures Diff(Comparable(one), Comparable(other), path, None) == Ok([])
  {
    hide Diff, Denote, KeyedLists, WithoutWording, Reworded;
    RewordingIsInvisible(one, other, None);
    EmptyMeansSame(Comparable(one), Comparable(other), path, None);
  }
}
