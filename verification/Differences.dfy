/**
 * Structural comparison of two JSON values: the list of differences, and the meaning that the list
 * is empty for.
 */
module Differences {
  import opened Wrappers
  import opened Json

  datatype Step = Name(name: string) | At(index: nat)

  type Path = seq<Step>

  datatype Difference =
    | Added(path: Path)
    | Removed(path: Path)
    | SetChanged(path: Path, added: seq<Json>, removed: seq<Json>)
    | Changed(path: Path, before: Json, after: Json)

  /** A function has no JSON text, so cutting that text to length throws. */
  datatype Thrown = NoText

  /** Lists under these keys compare as sets. */
  const SET_KEYS: set<string> := {"enum", "required", "type", "tokens"}

  const PROTOTYPE := "__proto__"

  /** Names of functions that `key in object` finds on every object. */
  const METHODS: set<string> := {
    "constructor", "hasOwnProperty", "isPrototypeOf", "propertyIsEnumerable", "toLocaleString", "toString",
    "valueOf", "__defineGetter__", "__defineSetter__", "__lookupGetter__", "__lookupSetter__"
  }

  predicate IsInherited(key: string) {
    key == PROTOTYPE || key in METHODS
  }

  predicate PlainList(value: Json) {
    value.Arr? && forall i | 0 <= i < |value.items| :: IsPlain(value.items[i])
  }

  predicate ComparesAsSet(key: Option<string>, before: Json, after: Json) {
    key.Some? && key.value in SET_KEYS && PlainList(before) && PlainList(after)
  }

  /** The items of one list that another does not hold. */
  function Missing(items: seq<Json>, others: seq<Json>): (missing: seq<Json>)
    ensures forall item :: item in missing <==> item in items && item !in others
  {
    if items == [] then []
    else (if items[0] in others then [] else [items[0]]) + Missing(items[1..], others)
  }

  type Listing = Result<seq<Difference>, Thrown>

  /** One listing after another; a throw in the first is the one that is seen. */
  function Then(first: Listing, rest: Listing): (all: Listing)
    ensures all == Ok([]) <==> first == Ok([]) && rest == Ok([])
    ensures all.Ok? <==> first.Ok? && rest.Ok?
    ensures first == Ok([]) ==> all == rest
  {
    if first.Err? then first
    else if rest.Err? then rest
    else
      var both := first.value + rest.value;
      assert |both| == |first.value| + |rest.value|;
      assert first.value == [] ==> both == rest.value;
      Ok(both)
  }

  function Diff(before: Json, after: Json, path: Path, key: Option<string>): Listing
    decreases before, 1, 0
  {
    if before == after then Ok([])
    else if ComparesAsSet(key, before, after) then
      var added, removed := Missing(after.items, before.items), Missing(before.items, after.items);
      Ok(if added == [] && removed == [] then [] else [SetChanged(path, added, removed)])
    else if before.Arr? && after.Arr? then DiffItems(before.items, after.items, 0, path)
    else if before.Obj? && after.Obj? then
      DiffFields(before.fields, after.fields, UnionOfKeys(before.fields, after.fields), path)
    else Ok([Changed(path, before, after)])
  }

  /** `new Set([...Object.keys(before), ...Object.keys(after)])` */
  function UnionOfKeys(before: seq<Field>, after: seq<Field>): (keys: seq<string>)
    ensures forall key :: key in keys <==> HasKey(before, key) || HasKey(after, key)
  {
    Keys(before) + NewKeys(before, after)
  }

  function NewKeys(before: seq<Field>, after: seq<Field>): (keys: seq<string>)
    ensures forall key :: key in keys <==> HasKey(after, key) && !HasKey(before, key)
  {
    if after == [] then []
    else
      var first, rest := after[0].key, NewKeys(before, after[1..]);
      assert forall key :: HasKey(after, key) <==> key == first || HasKey(after[1..], key) by { HasKeyOfTail(after); }
      (if HasKey(before, first) then [] else [first]) + rest
  }

  lemma HasKeyOfTail(fields: seq<Field>)
    requires fields != []
    ensures forall key :: HasKey(fields, key) <==> key == fields[0].key || HasKey(fields[1..], key)
  {
    forall key ensures HasKey(fields, key) <==> key == fields[0].key || HasKey(fields[1..], key) {
      assert Keys(fields) == [fields[0].key] + Keys(fields[1..]);
      assert HasKey(fields, key) <==> key in Keys(fields);
    }
  }

  function DiffItems(before: seq<Json>, after: seq<Json>, from: nat, path: Path): Listing
    requires from <= |before| || from <= |after|
    decreases Arr(before), 0, |before| + |after| - from
  {
    var next := path + [At(from)];
    if from >= |before| && from >= |after| then Ok([])
    else
      var first := if from >= |before| then Ok([Added(next)])
                   else if from >= |after| then Ok([Removed(next)])
                   else Diff(before[from], after[from], next, None);
      Then(first, DiffItems(before, after, from + 1, path))
  }

  function DiffFields(before: seq<Field>, after: seq<Field>, keys: seq<string>, path: Path)
    : Listing
    decreases Obj(before), 0, |keys|
  {
    if keys == [] then Ok([])
    else
      var first :=
        DiffField(Get(before, keys[0]), Get(after, keys[0]), keys[0], path + [Name(keys[0])], Obj(before));
      Then(first, DiffFields(before, after, keys[1..], path))
  }

  /** The comparison under one key; `within` is the object that the old value comes from. */
  function DiffField(before: Option<Json>, after: Option<Json>, key: string, path: Path, ghost within: Json)
    : Listing
    requires before.Some? ==> before.value < within
    decreases within, 0, 0
  {
    match (before, after)
    case (Some(x), Some(y)) => Diff(x, y, path, Some(key))
    case (Some(x), None) =>
      if IsInherited(key) then AgainstInherited(x, key, path, true) else Ok([Removed(path)])
    case (None, Some(y)) =>
      if IsInherited(key) then AgainstInherited(y, key, path, false) else Ok([Added(path)])
    case (None, None) => Ok([])
  }

  /**
   * `key in object` also sees what every object inherits, so a one-sided field of such a name is
   * compared with a function, or with the prototype itself, which has no keys of its own.
   */
  function AgainstInherited(value: Json, key: string, path: Path, removed: bool): Listing {
    if key in METHODS then Err(NoText)
    else if value.Obj? then AgainstPrototype(value.fields, path, removed)
    else Ok([if removed then Changed(path, value, Obj([])) else Changed(path, Obj([]), value)])
  }

  /** The prototype inherits nothing: its own `__proto__` reads as null. */
  function AgainstPrototype(fields: seq<Field>, path: Path, removed: bool): Listing {
    if fields == [] then Ok([])
    else
      var key, value := fields[0].key, fields[0].value;
      var next := path + [Name(key)];
      var first := if key in METHODS then Err(NoText)
                   else if key == PROTOTYPE then
                     Ok(if value == Null then []
                        else if removed then [Changed(next, value, Null)] else [Changed(next, Null, value)])
                   else Ok([if removed then Removed(next) else Added(next)]);
      Then(first, AgainstPrototype(fields[1..], path, removed))
  }

  // ---------------------------------------------------------------- what the values mean

  /** A JSON value up to the order of keys and, under set-valued keys, the order and repeats of plain items. */
  datatype Meaning =
    | Scalar(value: Json)
    | Members(members: set<Json>)
    | List(items: seq<Meaning>)
    | Record(fields: map<string, Meaning>)

  function Denote(value: Json, key: Option<string>): Meaning
    decreases value
  {
    if key.Some? && key.value in SET_KEYS && PlainList(value) then Members(set item | item in value.items)
    else
      match value
      case Arr(items) => List(seq(|items|, i requires 0 <= i < |items| => Denote(items[i], None)))
      case Obj(fields) => Record(map name | name in Keys(fields) :: Denote(Get(fields, name).value, Some(name)))
      case _ => Scalar(value)
  }

  /** No object of one value has a name that every object inherits, unless the other has it too. */
  predicate Clear(before: Json, after: Json)
    decreases before, 1
  {
    match (before, after)
    case (Arr(b), Arr(a)) => forall i | 0 <= i < |b| && i < |a| :: Clear(b[i], a[i])
    case (Obj(b), Obj(a)) =>
      forall name | name in Keys(b) + Keys(a) :: ClearField(Get(b, name), Get(a, name), name, before)
    case _ => true
  }

  predicate ClearField(before: Option<Json>, after: Option<Json>, name: string, ghost within: Json)
    requires before.Some? ==> before.value < within
    decreases within, 0
  {
    match (before, after)
    case (Some(x), Some(y)) => Clear(x, y)
    case (None, None) => true
    case _ => !IsInherited(name)
  }

  /** A value under `__proto__` that a comparison with the prototype cannot tell from it. */
  predicate Blank(value: Json) {
    value.Obj? && forall i | 0 <= i < |value.fields| :: value.fields[i] == Field(PROTOTYPE, Null)
  }

  ghost predicate AlikeField(before: Option<Json>, after: Option<Json>, name: string, within: Json)
    requires before.Some? ==> before.value < within
    decreases within, 0
  {
    match (before, after)
    case (Some(x), Some(y)) => Alike(x, y, Some(name))
    case (Some(x), None) => name == PROTOTYPE && Blank(x)
    case (None, Some(y)) => name == PROTOTYPE && Blank(y)
    case (None, None) => true
  }

  /** Values with the same meaning, save for a blank `__proto__` that only one of two objects has. */
  ghost predicate Alike(before: Json, after: Json, key: Option<string>)
    decreases before, 1
  {
    if ComparesAsSet(key, before, after) then
      forall item :: item in before.items <==> item in after.items
    else
      match (before, after)
      case (Arr(b), Arr(a)) => |b| == |a| && forall i | 0 <= i < |b| :: Alike(b[i], a[i], None)
      case (Obj(b), Obj(a)) =>
        forall name | name in Keys(b) + Keys(a) :: AlikeField(Get(b, name), Get(a, name), name, before)
      case _ => before == after
  }

  lemma {:induction false} AlikeItself(value: Json, key: Option<string>)
    ensures Alike(value, value, key)
    decreases value
  {
    match value
    case Arr(items) =>
      forall i | 0 <= i < |items| ensures Alike(items[i], items[i], None) { AlikeItself(items[i], None); }
    case Obj(fields) =>
      forall name | name in Keys(fields) + Keys(fields)
        ensures AlikeField(Get(fields, name), Get(fields, name), name, value)
      {
        AlikeItself(Get(fields, name).value, Some(name));
      }
    case _ =>
  }

  // ---------------------------------------------------------------- an empty list of differences

  /** The list is empty exactly for values that are alike. */
  lemma {:induction false} EmptyMeansAlike(before: Json, after: Json, path: Path, key: Option<string>)
    ensures Diff(before, after, path, key) == Ok([]) <==> Alike(before, after, key)
    decreases before, 1, 0
  {
    if before == after {
      AlikeItself(before, key);
    } else if ComparesAsSet(key, before, after) {
      var added, removed := Missing(after.items, before.items), Missing(before.items, after.items);
      assert added != [] ==> added[0] in added;
      assert removed != [] ==> removed[0] in removed;
    } else if before.Arr? && after.Arr? {
      EmptyItems(before.items, after.items, 0, path);
    } else if before.Obj? && after.Obj? {
      EmptyFields(before.fields, after.fields, UnionOfKeys(before.fields, after.fields), path);
    }
  }

  lemma {:induction false} EmptyItems(before: seq<Json>, after: seq<Json>, from: nat, path: Path)
    requires from <= |before| || from <= |after|
    ensures DiffItems(before, after, from, path) == Ok([])
      <==> ((from < |before| || from < |after| ==> |before| == |after|)
            && (forall i | from <= i < |before| && i < |after| :: Alike(before[i], after[i], None)))
    decreases Arr(before), 0, |before| + |after| - from
  {
    if from < |before| || from < |after| {
      EmptyItems(before, after, from + 1, path);
      if from < |before| && from < |after| {
        EmptyMeansAlike(before[from], after[from], path + [At(from)], None);
      }
    }
  }

  lemma {:induction false} EmptyFields(before: seq<Field>, after: seq<Field>, keys: seq<string>, path: Path)
    ensures DiffFields(before, after, keys, path) == Ok([])
      <==> forall name | name in keys :: AlikeField(Get(before, name), Get(after, name), name, Obj(before))
    decreases Obj(before), 0, |keys|
  {
    hide Alike, AlikeField, Diff, DiffField;
    if keys != [] {
      assert forall name :: name in keys <==> name == keys[0] || name in keys[1..] by {
        assert keys == [keys[0]] + keys[1..];
      }
      var rest := DiffFields(before, after, keys[1..], path);
      EmptyField(Get(before, keys[0]), Get(after, keys[0]), keys[0], path + [Name(keys[0])], Obj(before));
      EmptyFields(before, after, keys[1..], path);
      if forall name | name in keys :: AlikeField(Get(before, name), Get(after, name), name, Obj(before)) {
        assert AlikeField(Get(before, keys[0]), Get(after, keys[0]), keys[0], Obj(before));
        assert rest == Ok([]);
      }
    }
  }

  lemma {:induction false} EmptyField(
      before: Option<Json>, after: Option<Json>, name: string, path: Path, within: Json)
    requires before.Some? ==> before.value < within
    ensures DiffField(before, after, name, path, within) == Ok([]) <==> AlikeField(before, after, name, within)
    decreases within, 0, 0
  {
    hide Alike, Diff, AgainstInherited;
    match (before, after)
    case (Some(x), Some(y)) => EmptyMeansAlike(x, y, path, Some(name));
    case (Some(x), None) => EmptyAgainstInherited(x, name, path, true);
    case (None, Some(y)) => EmptyAgainstInherited(y, name, path, false);
    case (None, None) =>
  }

  lemma {:induction false} EmptyAgainstInherited(value: Json, key: string, path: Path, removed: bool)
    ensures AgainstInherited(value, key, path, removed) == Ok([]) <==> key !in METHODS && Blank(value)
  {
    if value.Obj? {
      EmptyAgainstPrototype(value.fields, path, removed);
    }
  }

  lemma {:induction false} EmptyAgainstPrototype(fields: seq<Field>, path: Path, removed: bool)
    ensures AgainstPrototype(fields, path, removed) == Ok([])
      <==> forall i | 0 <= i < |fields| :: fields[i] == Field(PROTOTYPE, Null)
  {
    if fields != [] {
      EmptyAgainstPrototype(fields[1..], path, removed);
      assert forall i | 1 <= i < |fields| :: fields[i] == fields[1..][i - 1];
    }
  }

  // ---------------------------------------------------------------- alike and meaning

  predicate IsSet(key: Option<string>, value: Json) {
    key.Some? && key.value in SET_KEYS && PlainList(value)
  }

  lemma {:induction false} MeaningOfItems(before: seq<Json>, after: seq<Json>, key: Option<string>)
    requires !ComparesAsSet(key, Arr(before), Arr(after))
    requires forall i | 0 <= i < |before| && i < |after| ::
      Alike(before[i], after[i], None) <==> Denote(before[i], None) == Denote(after[i], None)
    ensures Alike(Arr(before), Arr(after), key) <==> Denote(Arr(before), key) == Denote(Arr(after), key)
  {
    if IsSet(key, Arr(before)) || IsSet(key, Arr(after)) {
      assert Denote(Arr(before), key).Members? != Denote(Arr(after), key).Members?;
    } else {
      var b, a := Denote(Arr(before), key).items, Denote(Arr(after), key).items;
      assert forall i | 0 <= i < |before| :: b[i] == Denote(before[i], None);
      assert forall i | 0 <= i < |after| :: a[i] == Denote(after[i], None);
    }
  }

  lemma {:induction false} RecordOf(fields: seq<Field>, key: Option<string>)
    returns (record: map<string, Meaning>)
    ensures Denote(Obj(fields), key) == Record(record)
    ensures forall name :: name in record <==> HasKey(fields, name)
    ensures forall name | HasKey(fields, name) :: record[name] == Denote(Get(fields, name).value, Some(name))
  {
    record := Denote(Obj(fields), key).fields;
  }

  lemma {:induction false} ListOf(items: seq<Json>, key: Option<string>, i: nat)
    requires i < |items|
    ensures var meaning := Denote(Arr(items), key);
      if IsSet(key, Arr(items)) then meaning.Members? && IsPlain(items[i])
      else meaning.List? && |meaning.items| == |items| && meaning.items[i] == Denote(items[i], None)
  {}

  lemma {:induction false} AlikeObjects(before: seq<Field>, after: seq<Field>, key: Option<string>)
    ensures Alike(Obj(before), Obj(after), key)
      <==> forall name | HasKey(before, name) || HasKey(after, name) ::
             AlikeField(Get(before, name), Get(after, name), name, Obj(before))
  {
    assert forall name :: name in Keys(before) + Keys(after) <==> HasKey(before, name) || HasKey(after, name);
  }

  lemma {:induction false} MeaningOfFields(before: seq<Field>, after: seq<Field>, key: Option<string>)
    requires forall name | HasKey(before, name) != HasKey(after, name) :: name != PROTOTYPE
    requires forall name | HasKey(before, name) && HasKey(after, name) ::
      Alike(Get(before, name).value, Get(after, name).value, Some(name))
      <==> Denote(Get(before, name).value, Some(name)) == Denote(Get(after, name).value, Some(name))
    ensures Alike(Obj(before), Obj(after), key) <==> Denote(Obj(before), key) == Denote(Obj(after), key)
  {
    hide Denote, Alike, HasKey, Get;
    var b := RecordOf(before, key);
    var a := RecordOf(after, key);
    AlikeObjects(before, after, key);
    if Alike(Obj(before), Obj(after), key) {
      forall name | name in b.Keys + a.Keys ensures name in b.Keys && name in a.Keys && b[name] == a[name] {
        assert AlikeField(Get(before, name), Get(after, name), name, Obj(before));
      }
    }
  }

  lemma {:induction false} MeaningOfOthers(before: Json, after: Json, key: Option<string>)
    requires ComparesAsSet(key, before, after) || !((before.Arr? && after.Arr?) || (before.Obj? && after.Obj?))
    ensures Alike(before, after, key) <==> Denote(before, key) == Denote(after, key)
  {
    if ComparesAsSet(key, before, after) {
      var b, a := set item | item in before.items, set item | item in after.items;
      assert forall item :: item in b <==> item in before.items;
      assert forall item :: item in a <==> item in after.items;
    }
  }

  /** On clear values nothing throws, and alike is the same as having one meaning. */
  lemma {:induction false} ClearMeaning(before: Json, after: Json, path: Path, key: Option<string>)
    requires Clear(before, after)
    ensures Diff(before, after, path, key).Ok?
    ensures Alike(before, after, key) <==> Denote(before, key) == Denote(after, key)
    decreases before, 1, 0
  {
    hide Alike, Denote, HasKey;
    if ComparesAsSet(key, before, after) {
      MeaningOfOthers(before, after, key);
    } else if before.Arr? && after.Arr? {
      ClearItems(before.items, after.items, 0, path);
      MeaningOfItems(before.items, after.items, key);
    } else if before.Obj? && after.Obj? {
      assert forall name :: HasKey(before.fields, name) <==> name in Keys(before.fields);
      assert forall name :: HasKey(after.fields, name) <==> name in Keys(after.fields);
      ClearFields(before.fields, after.fields, UnionOfKeys(before.fields, after.fields), path);
      MeaningOfFields(before.fields, after.fields, key);
    } else {
      MeaningOfOthers(before, after, key);
    }
  }

  lemma {:induction false} ClearItems(before: seq<Json>, after: seq<Json>, from: nat, path: Path)
    requires from <= |before| || from <= |after|
    requires forall i | from <= i < |before| && i < |after| :: Clear(before[i], after[i])
    ensures DiffItems(before, after, from, path).Ok?
    ensures forall i | from <= i < |before| && i < |after| ::
      Alike(before[i], after[i], None) <==> Denote(before[i], None) == Denote(after[i], None)
    decreases Arr(before), 0, |before| + |after| - from
  {
    hide Alike, Denote, Diff, Clear;
    if from < |before| || from < |after| {
      ClearItems(before, after, from + 1, path);
      if from < |before| && from < |after| {
        ClearMeaning(before[from], after[from], path + [At(from)], None);
      }
    }
  }

  lemma {:induction false} ClearFields(before: seq<Field>, after: seq<Field>, keys: seq<string>, path: Path)
    requires forall name | name in keys :: ClearField(Get(before, name), Get(after, name), name, Obj(before))
    ensures DiffFields(before, after, keys, path).Ok?
    ensures forall name | name in keys && HasKey(before, name) && HasKey(after, name) ::
      Alike(Get(before, name).value, Get(after, name).value, Some(name))
      <==> Denote(Get(before, name).value, Some(name)) == Denote(Get(after, name).value, Some(name))
    decreases Obj(before), 0, |keys|
  {
    hide Alike, Denote, Diff, Clear;
    if keys != [] {
      var name := keys[0];
      assert ClearField(Get(before, name), Get(after, name), name, Obj(before));
      ClearFields(before, after, keys[1..], path);
      match (Get(before, name), Get(after, name))
      case (Some(x), Some(y)) => ClearMeaning(x, y, path + [Name(name)], Some(name));
      case _ =>
    }
  }

  /** An inherited name that only one object has also tells the two meanings apart. */
  lemma {:induction false} UnclearDiffers(before: Json, after: Json, key: Option<string>)
    requires !Clear(before, after)
    ensures Denote(before, key) != Denote(after, key)
    decreases before
  {
    hide Denote;
    match (before, after)
    case (Arr(b), Arr(a)) =>
      var i :| 0 <= i < |b| && i < |a| && !Clear(b[i], a[i]);
      UnclearDiffers(b[i], a[i], None);
      ListOf(b, key, i);
      ListOf(a, key, i);
    case (Obj(b), Obj(a)) =>
      var mb := RecordOf(b, key);
      var ma := RecordOf(a, key);
      var name :| name in Keys(b) + Keys(a) && !ClearField(Get(b, name), Get(a, name), name, before);
      assert name in mb || name in ma;
      if name in mb && name in ma {
        UnclearDiffers(Get(b, name).value, Get(a, name).value, Some(name));
      }
    case _ => assert false;
  }

  // ---------------------------------------------------------------- when the comparison throws

  /** What every object inherits as a function is compared with that function, which has no text. */
  predicate HasMethodName(value: Json) {
    value.Obj? && exists i | 0 <= i < |value.fields| :: value.fields[i].key in METHODS
  }

  /** A field that only one object has is named like a method, or is a `__proto__` that holds such a field. */
  predicate ThrowsField(before: Option<Json>, after: Option<Json>, name: string, ghost within: Json)
    requires before.Some? ==> before.value < within
    decreases within, 0
  {
    match (before, after)
    case (Some(x), Some(y)) => Throws(x, y)
    case (Some(x), None) => name in METHODS || (name == PROTOTYPE && HasMethodName(x))
    case (None, Some(y)) => name in METHODS || (name == PROTOTYPE && HasMethodName(y))
    case (None, None) => false
  }

  /** At some place that both values have, a one-sided field makes the comparison throw. */
  predicate Throws(before: Json, after: Json)
    decreases before, 1
  {
    match (before, after)
    case (Arr(b), Arr(a)) => exists i | 0 <= i < |b| && i < |a| :: Throws(b[i], a[i])
    case (Obj(b), Obj(a)) =>
      exists name | name in Keys(b) + Keys(a) :: ThrowsField(Get(b, name), Get(a, name), name, before)
    case _ => false
  }

  lemma {:induction false} ThrowsNotItself(value: Json)
    ensures !Throws(value, value)
    decreases value
  {
    match value
    case Arr(items) =>
      forall i | 0 <= i < |items| ensures !Throws(items[i], items[i]) { ThrowsNotItself(items[i]); }
    case Obj(fields) =>
      forall name | name in Keys(fields) + Keys(fields)
        ensures !ThrowsField(Get(fields, name), Get(fields, name), name, value)
      {
        ThrowsNotItself(Get(fields, name).value);
      }
    case _ =>
  }

  /** The comparison fails exactly on values that a caller can tell beforehand. */
  lemma {:induction false} ThrowsExactly(before: Json, after: Json, path: Path, key: Option<string>)
    ensures Diff(before, after, path, key).Err? <==> Throws(before, after)
    decreases before, 1, 0
  {
    if before == after {
      ThrowsNotItself(before);
    } else if ComparesAsSet(key, before, after) {
      assert forall i | 0 <= i < |before.items| && i < |after.items| :: !Throws(before.items[i], after.items[i]);
    } else if before.Arr? && after.Arr? {
      ThrowsItems(before.items, after.items, 0, path);
    } else if before.Obj? && after.Obj? {
      var keys := UnionOfKeys(before.fields, after.fields);
      assert forall name :: name in keys <==> name in Keys(before.fields) + Keys(after.fields);
      ThrowsFields(before.fields, after.fields, keys, path);
    }
  }

  lemma {:induction false} ThrowsItems(before: seq<Json>, after: seq<Json>, from: nat, path: Path)
    requires from <= |before| || from <= |after|
    ensures DiffItems(before, after, from, path).Err?
      <==> exists i | from <= i < |before| && i < |after| :: Throws(before[i], after[i])
    decreases Arr(before), 0, |before| + |after| - from
  {
    hide Throws, Diff;
    if from < |before| || from < |after| {
      ThrowsItems(before, after, from + 1, path);
      if from < |before| && from < |after| {
        ThrowsExactly(before[from], after[from], path + [At(from)], None);
      }
    }
  }

  lemma {:induction false} ThrowsFields(before: seq<Field>, after: seq<Field>, keys: seq<string>, path: Path)
    ensures DiffFields(before, after, keys, path).Err?
      <==> exists name | name in keys :: ThrowsField(Get(before, name), Get(after, name), name, Obj(before))
    decreases Obj(before), 0, |keys|
  {
    hide Throws, ThrowsField, Diff, DiffField;
    if keys != [] {
      assert forall name :: name in keys <==> name == keys[0] || name in keys[1..] by {
        assert keys == [keys[0]] + keys[1..];
      }
      ThrowsOneField(Get(before, keys[0]), Get(after, keys[0]), keys[0], path + [Name(keys[0])], Obj(before));
      ThrowsFields(before, after, keys[1..], path);
      if ThrowsField(Get(before, keys[0]), Get(after, keys[0]), keys[0], Obj(before)) {
        assert keys[0] in keys;
      }
    }
  }

  lemma {:induction false} ThrowsOneField(
      before: Option<Json>, after: Option<Json>, name: string, path: Path, within: Json)
    requires before.Some? ==> before.value < within
    ensures DiffField(before, after, name, path, within).Err? <==> ThrowsField(before, after, name, within)
    decreases within, 0, 0
  {
    hide Throws, Diff, AgainstInherited, HasMethodName;
    match (before, after)
    case (Some(x), Some(y)) => ThrowsExactly(x, y, path, Some(name));
    case (Some(x), None) => ThrowsInherited(x, name, path, true);
    case (None, Some(y)) => ThrowsInherited(y, name, path, false);
    case (None, None) =>
  }

  lemma {:induction false} ThrowsInherited(value: Json, key: string, path: Path, removed: bool)
    ensures AgainstInherited(value, key, path, removed).Err? <==> key in METHODS || HasMethodName(value)
  {
    if value.Obj? {
      ThrowsPrototype(value.fields, path, removed);
    }
  }

  lemma {:induction false} ThrowsPrototype(fields: seq<Field>, path: Path, removed: bool)
    ensures AgainstPrototype(fields, path, removed).Err?
      <==> exists i | 0 <= i < |fields| :: fields[i].key in METHODS
  {
    if fields != [] {
      ThrowsPrototype(fields[1..], path, removed);
      assert forall i | 1 <= i < |fields| :: fields[i] == fields[1..][i - 1];
    }
  }

  /**
   * Values of one meaning never differ. On clear values the list is empty for nothing else; on any
   * others it is empty, wrongly, exactly when they are alike.
   */
  lemma {:induction false} EmptyMeansSame(before: Json, after: Json, path: Path, key: Option<string>)
    ensures Denote(before, key) == Denote(after, key) ==> Diff(before, after, path, key) == Ok([])
    ensures Clear(before, after) ==>
      Diff(before, after, path, key).Ok?
      && (Diff(before, after, path, key) == Ok([]) ==> Denote(before, key) == Denote(after, key))
    ensures !Clear(before, after) ==>
      Denote(before, key) != Denote(after, key)
      && (Diff(before, after, path, key) == Ok([]) <==> Alike(before, after, key))
  {
    hide Diff, Alike, Clear, Denote;
    EmptyMeansAlike(before, after, path, key);
    if Clear(before, after) {
      ClearMeaning(before, after, path, key);
    } else {
      UnclearDiffers(before, after, key);
    }
  }

  /** A field `__proto__` holding an empty object goes unseen, and a field `constructor` makes the comparison throw. */
  lemma InheritedNamesMislead(path: Path)
    ensures Diff(Obj([]), Obj([Field(PROTOTYPE, Obj([]))]), path, None) == Ok([])
    ensures Denote(Obj([]), None) != Denote(Obj([Field(PROTOTYPE, Obj([]))]), None)
    ensures Diff(Obj([]), Obj([Field("constructor", Num(1))]), path, None) == Err(NoText)
  {
    var before, after := Obj([]), Obj([Field(PROTOTYPE, Obj([]))]);
    assert Get(after.fields, PROTOTYPE) == Some(Obj([]));
    assert PROTOTYPE in Keys(after.fields) && PROTOTYPE !in Keys(before.fields);
    assert Keys([]) == [];
    assert Keys(after.fields) == [PROTOTYPE];
    assert Alike(before, after, None);
    EmptyMeansAlike(before, after, path, None);
    UnclearDiffers(before, after, None);
    var other := Obj([Field("constructor", Num(1))]);
    assert other.fields[0].key == "constructor";
    assert UnionOfKeys([], other.fields) == ["constructor"];
    assert DiffField(None, Some(Num(1)), "constructor", path + [Name("constructor")], before) == Err(NoText);
  }

  // ---------------------------------------------------------------- each difference is real

  function ValueAt(value: Json, path: Path): Option<Json>
    decreases |path|
  {
    if path == [] then Some(value)
    else
      match (path[0], value)
      case (Name(name), Obj(fields)) =>
        var field := Get(fields, name);
        if field.Some? then ValueAt(field.value, path[1..]) else None
      case (At(i), Arr(items)) => if i < |items| then ValueAt(items[i], path[1..]) else None
      case _ => None
  }

  /** The difference names a place where the two values do differ in the way it says. */
  predicate Real(before: Json, after: Json, path: Path, difference: Difference) {
    path <= difference.path
    && var place := difference.path[|path|..];
       var x, y := ValueAt(before, place), ValueAt(after, place);
       match difference
       case Added(_) => x.None? && y.Some?
       case Removed(_) => x.Some? && y.None?
       case Changed(_, b, a) =>
         x == Some(b) && y == Some(a) && b != a && !(b.Arr? && a.Arr?) && !(b.Obj? && a.Obj?)
       case SetChanged(_, added, removed) =>
         && x.Some? && y.Some? && PlainList(x.value) && PlainList(y.value)
         && (added != [] || removed != [])
         && (forall item <- y.value.items :: item !in x.value.items <==> item in added)
         && (forall item <- x.value.items :: item !in y.value.items <==> item in removed)
         && (forall item <- added :: item in y.value.items)
         && (forall item <- removed :: item in x.value.items)
  }

  /** The difference lies at or below a `__proto__` that only one of the two values has. */
  predicate UnderPrototype(before: Json, after: Json, path: Path, difference: Difference) {
    path <= difference.path
    && var place := difference.path[|path|..];
       exists k | 0 < k <= |place| ::
         place[k - 1] == Name(PROTOTYPE) && ValueAt(before, place[..k]).Some? != ValueAt(after, place[..k]).Some?
  }

  predicate Accounted(before: Json, after: Json, path: Path, difference: Difference) {
    Real(before, after, path, difference)
    || (!Clear(before, after) && UnderPrototype(before, after, path, difference))
  }

  /** Each difference is real, but for what is told of a `__proto__` that one value has and the other inherits. */
  lemma {:induction false} DifferencesAreReal(before: Json, after: Json, path: Path, key: Option<string>)
    requires Diff(before, after, path, key).Ok?
    ensures forall d <- Diff(before, after, path, key).value :: Accounted(before, after, path, d)
    decreases before, 1, 0
  {
    hide UnderPrototype;
    if before == after || ComparesAsSet(key, before, after) {
    } else if before.Arr? && after.Arr? {
      RealItems(before.items, after.items, 0, path);
    } else if before.Obj? && after.Obj? {
      RealFields(before.fields, after.fields, UnionOfKeys(before.fields, after.fields), path);
    }
  }

  /** What holds below one step holds of the whole. */
  lemma {:induction false} AccountedBelow(before: Json, after: Json, step: Step, path: Path, d: Difference)
    requires ValueAt(before, [step]).Some? && ValueAt(after, [step]).Some?
    requires Accounted(ValueAt(before, [step]).value, ValueAt(after, [step]).value, path + [step], d)
    requires Clear(before, after) ==> Clear(ValueAt(before, [step]).value, ValueAt(after, [step]).value)
    ensures Accounted(before, after, path, d)
  {
    hide Clear, UnderPrototype, ValueAt;
    var b, a := ValueAt(before, [step]).value, ValueAt(after, [step]).value;
    if Real(b, a, path + [step], d) {
      RealBelow(before, after, step, path, d);
    } else {
      PrototypeBelowStep(before, after, step, path, d);
    }
  }

  lemma {:induction false} Descend(value: Json, step: Step, rest: Path)
    requires ValueAt(value, [step]).Some?
    ensures ValueAt(value, [step] + rest) == ValueAt(ValueAt(value, [step]).value, rest)
  {
    assert ([step] + rest)[1..] == rest && [step][1..] == [];
  }

  lemma {:induction false} PrototypeBelowStep(before: Json, after: Json, step: Step, path: Path, d: Difference)
    requires ValueAt(before, [step]).Some? && ValueAt(after, [step]).Some?
    requires UnderPrototype(ValueAt(before, [step]).value, ValueAt(after, [step]).value, path + [step], d)
    ensures UnderPrototype(before, after, path, d)
  {
    hide ValueAt;
    var b, a, below := ValueAt(before, [step]).value, ValueAt(after, [step]).value, d.path[|path| + 1..];
    var k :| 0 < k <= |below| && below[k - 1] == Name(PROTOTYPE)
             && ValueAt(b, below[..k]).Some? != ValueAt(a, below[..k]).Some?;
    assert d.path[..|path| + 1] == path + [step];
    assert path <= d.path by { assert d.path[..|path|] == d.path[..|path| + 1][..|path|]; }
    var place := d.path[|path|..];
    assert place == [step] + below by { assert d.path[..|path| + 1][|path|] == step; }
    assert place[..k + 1] == [step] + below[..k] && place[k] == below[k - 1];
    Descend(before, step, below[..k]);
    Descend(after, step, below[..k]);
  }

  /** All that a comparison with the prototype lists is below the key that only one value has. */
  lemma {:induction false} InheritedBelow(value: Json, path: Path, removed: bool)
    requires AgainstInherited(value, PROTOTYPE, path, removed).Ok?
    ensures forall d <- AgainstInherited(value, PROTOTYPE, path, removed).value :: path <= d.path
  {
    if value.Obj? {
      PrototypeBelow(value.fields, path, removed);
    }
  }

  lemma {:induction false} PrototypeBelow(fields: seq<Field>, path: Path, removed: bool)
    requires AgainstPrototype(fields, path, removed).Ok?
    ensures forall d <- AgainstPrototype(fields, path, removed).value :: path <= d.path
  {
    if fields != [] {
      PrototypeBelow(fields[1..], path, removed);
    }
  }

  lemma {:induction false} OneSidedPrototype(before: Json, after: Json, path: Path, d: Difference)
    requires ValueAt(before, [Name(PROTOTYPE)]).Some? != ValueAt(after, [Name(PROTOTYPE)]).Some?
    requires path + [Name(PROTOTYPE)] <= d.path
    ensures UnderPrototype(before, after, path, d)
  {
    var step := Name(PROTOTYPE);
    var place := d.path[|path|..];
    assert d.path[..|path| + 1] == path + [step];
    assert place[0] == d.path[..|path| + 1][|path|] == step;
    assert path <= d.path by { assert d.path[..|path|] == d.path[..|path| + 1][..|path|]; }
    assert place[..1] == [step];
  }

  /** A difference below one step is a difference of the whole. */
  lemma {:induction false} RealBelow(before: Json, after: Json, step: Step, path: Path, d: Difference)
    requires ValueAt(before, [step]).Some? && ValueAt(after, [step]).Some?
    requires Real(ValueAt(before, [step]).value, ValueAt(after, [step]).value, path + [step], d)
    ensures Real(before, after, path, d)
  {
    var place, below := d.path[|path|..], d.path[|path| + 1..];
    assert d.path[..|path| + 1] == path + [step];
    assert place[0] == d.path[..|path| + 1][|path|] == step;
    assert place[1..] == below;
    assert path <= d.path by { assert d.path[..|path|] == d.path[..|path| + 1][..|path|]; }
    assert [step][1..] == [];
  }

  lemma {:induction false} OneSidedIsReal(before: Json, after: Json, step: Step, path: Path)
    ensures ValueAt(before, [step]).None? && ValueAt(after, [step]).Some?
      ==> Real(before, after, path, Added(path + [step]))
    ensures ValueAt(before, [step]).Some? && ValueAt(after, [step]).None?
      ==> Real(before, after, path, Removed(path + [step]))
  {
    assert (path + [step])[|path|..] == [step];
  }

  lemma {:induction false} RealItems(before: seq<Json>, after: seq<Json>, from: nat, path: Path)
    requires from <= |before| || from <= |after|
    requires DiffItems(before, after, from, path).Ok?
    ensures forall d <- DiffItems(before, after, from, path).value :: Accounted(Arr(before), Arr(after), path, d)
    decreases Arr(before), 0, |before| + |after| - from
  {
    hide Real, Diff, UnderPrototype;
    if from < |before| || from < |after| {
      RealItems(before, after, from + 1, path);
      var b, a, step := Arr(before), Arr(after), At(from);
      assert [step][1..] == [];
      OneSidedIsReal(b, a, step, path);
      if from < |before| && from < |after| {
        DifferencesAreReal(before[from], after[from], path + [step], None);
        forall d <- Diff(before[from], after[from], path + [step], None).value ensures Accounted(b, a, path, d) {
          AccountedBelow(b, a, step, path, d);
        }
      }
    }
  }

  lemma {:induction false} RealFields(before: seq<Field>, after: seq<Field>, keys: seq<string>, path: Path)
    requires forall name <- keys :: HasKey(before, name) || HasKey(after, name)
    requires DiffFields(before, after, keys, path).Ok?
    ensures forall d <- DiffFields(before, after, keys, path).value :: Accounted(Obj(before), Obj(after), path, d)
    decreases Obj(before), 0, |keys|
  {
    hide Real, Diff, Clear, UnderPrototype, AgainstInherited, ValueAt;
    if keys != [] {
      RealFields(before, after, keys[1..], path);
      var name := keys[0];
      var b, a, step := Obj(before), Obj(after), Name(name);
      var x, y := Get(before, name), Get(after, name);
      var first, rest := DiffField(x, y, name, path + [step], b), DiffFields(before, after, keys[1..], path);
      assert DiffFields(before, after, keys, path).value == first.value + rest.value;
      FieldAt(before, name);
      FieldAt(after, name);
      if Clear(b, a) {
        ClearOfFields(before, after, name);
      }
      OneSidedIsReal(b, a, step, path);
      if x.Some? && y.Some? {
        DifferencesAreReal(x.value, y.value, path + [step], Some(name));
        forall d <- first.value ensures Accounted(b, a, path, d) { AccountedBelow(b, a, step, path, d); }
      } else if IsInherited(name) {
        MethodsThrow(if x.Some? then x.value else y.value, name, path + [step], x.Some?);
        InheritedBelow(if x.Some? then x.value else y.value, path + [step], x.Some?);
        forall d <- first.value ensures Accounted(b, a, path, d) { OneSidedPrototype(b, a, path, d); }
      }
    }
  }

  lemma FieldAt(fields: seq<Field>, name: string)
    ensures ValueAt(Obj(fields), [Name(name)]) == Get(fields, name)
  {
    assert [Name(name)][1..] == [];
  }

  lemma MethodsThrow(value: Json, name: string, path: Path, removed: bool)
    requires IsInherited(name) && AgainstInherited(value, name, path, removed).Ok?
    ensures name == PROTOTYPE
  {}

  lemma ClearOfFields(before: seq<Field>, after: seq<Field>, name: string)
    requires (HasKey(before, name) || HasKey(after, name)) && Clear(Obj(before), Obj(after))
    ensures ClearField(Get(before, name), Get(after, name), name, Obj(before))
  {
    assert name in Keys(before) + Keys(after);
  }

  // ---------------------------------------------------------------- the comparison itself

  /** The list that every level of the comparison appends to. */
  class Report {
    var lines: seq<Difference>

    constructor ()
      ensures lines == []
    {
      lines := [];
    }
  }

  /** What an append-only list holds once a listing was added to it; a throw leaves it unfinished. */
  ghost predicate Appended(start: seq<Difference>, lines: seq<Difference>, listing: Listing, outcome: Outcome<Thrown>) {
    match listing
    case Ok(found) => outcome.Pass? && lines == start + found
    case Err(thrown) => outcome == Fail(thrown)
  }

  lemma {:induction false} ThenAppends(done: seq<Difference>, first: Listing, rest: Listing)
    ensures first.Ok? ==> Then(Ok(done), Then(first, rest)) == Then(Ok(done + first.value), rest)
    ensures first.Err? ==> Then(Ok(done), Then(first, rest)) == first
  {
    if first.Ok? && rest.Ok? {
      assert done + (first.value + rest.value) == done + first.value + rest.value;
    }
  }

  method ListDifferences(before: Json, after: Json, path: Path, out: Report, key: Option<string>)
    returns (outcome: Outcome<Thrown>)
    modifies out
    ensures Appended(old(out.lines), out.lines, Diff(before, after, path, key), outcome)
    decreases before, 1, 0
  {
    if before == after {
      return Pass;
    }
    if ComparesAsSet(key, before, after) {
      var added, removed := Missing(after.items, before.items), Missing(before.items, after.items);
      if added != [] || removed != [] {
        out.lines := out.lines + [SetChanged(path, added, removed)];
      }
      return Pass;
    }
    if before.Arr? && after.Arr? {
      outcome := ListItems(before.items, after.items, path, out);
    } else if before.Obj? && after.Obj? {
      outcome := ListFields(before.fields, after.fields, path, out);
    } else {
      out.lines := out.lines + [Changed(path, before, after)];
      outcome := Pass;
    }
  }

  method ListItems(before: seq<Json>, after: seq<Json>, path: Path, out: Report) returns (outcome: Outcome<Thrown>)
    modifies out
    ensures Appended(old(out.lines), out.lines, DiffItems(before, after, 0, path), outcome)
    decreases Arr(before), 0, 0
  {
    hide Diff;
    var i := 0;
    ghost var start, done := out.lines, [];
    while i < |before| || i < |after|
      invariant i <= |before| || i <= |after|
      invariant out.lines == start + done
      invariant DiffItems(before, after, 0, path) == Then(Ok(done), DiffItems(before, after, i, path))
      decreases |before| + |after| - i
    {
      var next := path + [At(i)];
      ghost var first := if i >= |before| then Ok([Added(next)])
                         else if i >= |after| then Ok([Removed(next)])
                         else Diff(before[i], after[i], next, None);
      ThenAppends(done, first, DiffItems(before, after, i + 1, path));
      if i >= |before| {
        out.lines := out.lines + [Added(next)];
      } else if i >= |after| {
        out.lines := out.lines + [Removed(next)];
      } else {
        outcome := ListDifferences(before[i], after[i], next, out, None);
        if outcome.Fail? {
          return;
        }
      }
      done := done + first.value;
      i := i + 1;
    }
    outcome := Pass;
  }

  method ListField(
      before: Option<Json>, after: Option<Json>, name: string, path: Path, out: Report, ghost within: Json)
    returns (outcome: Outcome<Thrown>)
    requires before.Some? ==> before.value < within
    modifies out
    ensures Appended(old(out.lines), out.lines, DiffField(before, after, name, path, within), outcome)
    decreases within, 0, 0
  {
    hide Diff, AgainstInherited;
    if before.Some? && after.Some? {
      outcome := ListDifferences(before.value, after.value, path, out, Some(name));
    } else if (before.Some? || after.Some?) && IsInherited(name) {
      var listing :=
        AgainstInherited(if before.Some? then before.value else after.value, name, path, before.Some?);
      outcome := if listing.Ok? then Pass else Fail(listing.error);
      out.lines := out.lines + if listing.Ok? then listing.value else [];
    } else {
      if before.Some? {
        out.lines := out.lines + [Removed(path)];
      } else if after.Some? {
        out.lines := out.lines + [Added(path)];
      }
      outcome := Pass;
    }
  }

  /** One turn of the loop over keys moves what it found from the rest to the part already listed. */
  lemma {:induction false} FieldsStep(
      before: seq<Field>, after: seq<Field>, keys: seq<string>, i: nat, path: Path, done: seq<Difference>)
    requires i <= |keys|
    ensures var all := Then(Ok(done), DiffFields(before, after, keys[i..], path));
      if i == |keys| then all == Ok(done)
      else
        var x, y := Get(before, keys[i]), Get(after, keys[i]);
        var first := DiffField(x, y, keys[i], path + [Name(keys[i])], Obj(before));
        all == if first.Err? then first
               else Then(Ok(done + first.value), DiffFields(before, after, keys[i + 1..], path))
  {
    hide DiffField;
    if i == |keys| {
      assert keys[i..] == [] && done + [] == done;
    } else {
      var x, y := Get(before, keys[i]), Get(after, keys[i]);
      assert keys[i..][1..] == keys[i + 1..];
      ThenAppends(
        done, DiffField(x, y, keys[i], path + [Name(keys[i])], Obj(before)),
        DiffFields(before, after, keys[i + 1..], path));
    }
  }

  method ListFields(before: seq<Field>, after: seq<Field>, path: Path, out: Report) returns (outcome: Outcome<Thrown>)
    modifies out
    ensures Appended(old(out.lines), out.lines, DiffFields(before, after, UnionOfKeys(before, after), path), outcome)
    decreases Obj(before), 0, 1
  {
    hide Diff, DiffField, DiffFields, Then, HasKey, Get, UnionOfKeys;
    var keys := UnionOfKeys(before, after);
    var i := 0;
    ghost var start, done := out.lines, [];
    assert keys[0..] == keys;
    while i < |keys|
      invariant 0 <= i <= |keys|
      invariant out.lines == start + done
      invariant DiffFields(before, after, keys, path) == Then(Ok(done), DiffFields(before, after, keys[i..], path))
    {
      var name := keys[i];
      var next := path + [Name(name)];
      var x, y := Get(before, name), Get(after, name);
      ghost var first := DiffField(x, y, name, next, Obj(before));
      FieldsStep(before, after, keys, i, path, done);
      outcome := ListField(x, y, name, next, out, Obj(before));
      if outcome.Fail? {
        return;
      }
      done := done + first.value;
      i := i + 1;
    }
    FieldsStep(before, after, keys, i, path, done);
    outcome := Pass;
  }
}
