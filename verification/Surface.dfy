/** Sorts each named entry that two documents disagree on into one class of one group. */
module Surface {
  import opened Wrappers
  import opened Json
  import opened Ordering
  import opened Differences
  import opened Wording
  import Reachability

  const EXPERIMENT := "x-fluxer-experiment"

  datatype Kind = IsAdded | IsRemoved | IsChanged | IsWordingOnly

  /** A listed name, the experiments it newly depends on, and how it changed. */
  datatype Entry = Entry(name: string, experiments: seq<string>, details: seq<Difference>)

  datatype Group = Group(added: seq<Entry>, removed: seq<Entry>, changed: seq<Entry>, wordingOnly: seq<Entry>) {
    function List(kind: Kind): seq<Entry> {
      match kind
      case IsAdded => added
      case IsRemoved => removed
      case IsChanged => changed
      case IsWordingOnly => wordingOnly
    }

    function Push(kind: Kind, entry: Entry): (group: Group)
      ensures forall other :: group.List(other) == if other == kind then List(kind) + [entry] else List(other)
    {
      match kind
      case IsAdded => this.(added := added + [entry])
      case IsRemoved => this.(removed := removed + [entry])
      case IsChanged => this.(changed := changed + [entry])
      case IsWordingOnly => this.(wordingOnly := wordingOnly + [entry])
    }
  }

  datatype Changes = Changes(application: Group, userOnly: Group) {
    function List(reachable: bool, kind: Kind): seq<Entry> {
      (if reachable then application else userOnly).List(kind)
    }

    function Push(reachable: bool, kind: Kind, entry: Entry): (changes: Changes)
      ensures forall r, k ::
        changes.List(r, k) == if r == reachable && k == kind then List(r, k) + [entry] else List(r, k)
    {
      if reachable then this.(application := application.Push(kind, entry))
      else this.(userOnly := userOnly.Push(kind, entry))
    }
  }

  datatype Verdict = Unchanged | Listed(kind: Kind, entry: Entry)

  type Entries = map<string, Json>

  function Lookup(entries: Entries, name: string): Option<Json> {
    if name in entries then Some(entries[name]) else None
  }

  /** The experiments that gate any part of the new value and no part of the old one. */
  function NewExperiments(before: Option<Json>, after: Json): (names: seq<string>)
    ensures Ascending(names)
    ensures forall name :: name in names <==>
      (name in Reachability.Texts(after, EXPERIMENT)
       && (before.None? || name !in Reachability.Texts(before.value, EXPERIMENT)))
  {
    var had := if before.None? then [] else Reachability.Texts(before.value, EXPERIMENT);
    Sorted(Without(Reachability.Texts(after, EXPERIMENT), had))
  }

  function Without(names: seq<string>, had: seq<string>): (rest: seq<string>)
    ensures forall name :: name in rest <==> name in names && name !in had
  {
    if names == [] then [] else (if names[0] in had then [] else [names[0]]) + Without(names[1..], had)
  }

  function Judge(name: string, before: Option<Json>, after: Option<Json>): (verdict: Result<Verdict, Thrown>)
    ensures verdict.Ok? && verdict.value.Listed? ==> verdict.value.entry.name == name
  {
    if before == after then Ok(Unchanged)
    else
      match (before, after)
      case (None, Some(value)) => Ok(Listed(IsAdded, Entry(name, NewExperiments(None, value), [])))
      case (_, None) => Ok(Listed(IsRemoved, Entry(name, [], [])))
      case (Some(x), Some(y)) =>
        var details :- Diff(Comparable(x), Comparable(y), [], None);
        Ok(if details != [] then Listed(IsChanged, Entry(name, NewExperiments(before, y), details))
           else Listed(IsWordingOnly, Entry(name, [], [])))
  }

  function VerdictOn(name: string, previous: Entries, current: Entries): (verdict: Result<Verdict, Thrown>)
    ensures verdict.Ok? && verdict.value.Listed? ==> verdict.value.entry.name == name
  {
    Judge(name, Lookup(previous, name), Lookup(current, name))
  }

  /** What the lists hold once the names in `seen` were sorted into them. */
  ghost predicate Holds(
      changes: Changes, seen: seq<string>, previous: Entries, current: Entries, reachable: string -> bool)
  {
    && (forall name <- seen :: VerdictOn(name, previous, current).Ok?)
    && (forall r, kind :: HoldsList(changes.List(r, kind), r, kind, seen, previous, current, reachable))
  }

  /** One list holds exactly the entries of its group and class, in the order of their names. */
  ghost predicate HoldsList(
      list: seq<Entry>, r: bool, kind: Kind, seen: seq<string>, previous: Entries, current: Entries,
      reachable: string -> bool)
  {
    && InNameOrder(list)
    && (forall entry :: entry in list <==> Belongs(entry, r, kind, seen, previous, current, reachable))
  }

  ghost predicate Belongs(
      entry: Entry, r: bool, kind: Kind, seen: seq<string>, previous: Entries, current: Entries,
      reachable: string -> bool)
  {
    && entry.name in seen
    && reachable(entry.name) == r
    && VerdictOn(entry.name, previous, current) == Ok(Listed(kind, entry))
  }

  predicate InNameOrder(list: seq<Entry>) {
    forall i, j | 0 <= i < j < |list| :: Before(list[i].name, list[j].name)
  }

  /** The names of either side in ascending order, of which there is one listing. */
  ghost predicate AreNames(names: seq<string>, previous: Entries, current: Entries) {
    Ascending(names) && forall name :: name in names <==> name in previous || name in current
  }

  /** A name cannot be sorted exactly if both sides have it and their comparison throws. */
  lemma {:induction false} VerdictThrows(name: string, previous: Entries, current: Entries)
    ensures VerdictOn(name, previous, current).Err? <==>
      name in previous && name in current && Throws(Comparable(previous[name]), Comparable(current[name]))
  {
    hide Diff, Throws, Comparable, NewExperiments;
    if name in previous && name in current {
      ThrowsExactly(Comparable(previous[name]), Comparable(current[name]), [], None);
      ThrowsNotItself(Comparable(previous[name]));
    }
  }

  lemma HoldsVerdicts(
      changes: Changes, seen: seq<string>, previous: Entries, current: Entries, reachable: string -> bool)
    requires Holds(changes, seen, previous, current, reachable)
    ensures forall name <- seen :: VerdictOn(name, previous, current).Ok?
  {
    hide HoldsList, VerdictOn;
  }

  method CompareEntries(previous: Entries, current: Entries, reachable: string -> bool)
    returns (result: Result<Changes, Thrown>)
    ensures result.Ok? ==>
      forall names | AreNames(names, previous, current) :: Holds(result.value, names, previous, current, reachable)
    ensures result.Err? <==>
      exists name ::
        name in previous && name in current && Throws(Comparable(previous[name]), Comparable(current[name]))
  {
    hide VerdictOn, Holds, Ascending, Throws, Comparable;
    var list := ListSet(previous.Keys + current.Keys);
    var sorted := Sorted(list);
    result := SortEntries(previous, current, sorted, reachable);
    forall name {
      VerdictThrows(name, previous, current);
    }
    if result.Ok? {
      assert Holds(result.value, sorted, previous, current, reachable);
      HoldsVerdicts(result.value, sorted, previous, current, reachable);
    }
    forall names | AreNames(names, previous, current) ensures names == sorted {
      AscendingIsUnique(names, sorted);
    }
  }

  method SortEntries(previous: Entries, current: Entries, names: seq<string>, reachable: string -> bool)
    returns (result: Result<Changes, Thrown>)
    requires Ascending(names)
    ensures result.Ok? ==> Holds(result.value, names, previous, current, reachable)
    ensures result.Err? ==> exists name :: name in names && VerdictOn(name, previous, current).Err?
  {
    hide VerdictOn, Holds, Before;
    var empty := Group([], [], [], []);
    var changes := Changes(empty, empty);
    HoldsNothing(previous, current, reachable);
    var i := 0;
    assert names[..0] == [];
    while i < |names|
      invariant 0 <= i <= |names|
      invariant Holds(changes, names[..i], previous, current, reachable)
    {
      var name := names[i];
      var verdict := VerdictOn(name, previous, current);
      if verdict.Err? {
        return Err(verdict.error);
      }
      HoldsOneMore(changes, names, i, previous, current, reachable);
      if verdict.value.Listed? {
        changes := changes.Push(reachable(name), verdict.value.kind, verdict.value.entry);
      }
      i := i + 1;
    }
    assert names[..i] == names;
    return Ok(changes);
  }

  lemma HoldsNothing(previous: Entries, current: Entries, reachable: string -> bool)
    ensures var empty := Group([], [], [], []); Holds(Changes(empty, empty), [], previous, current, reachable)
  {
    var empty := Group([], [], [], []);
    assert forall r, kind :: Changes(empty, empty).List(r, kind) == [];
  }

  lemma {:induction false} HoldsOneMore(
      changes: Changes, names: seq<string>, i: nat, previous: Entries, current: Entries, reachable: string -> bool)
    requires Ascending(names) && i < |names|
    requires Holds(changes, names[..i], previous, current, reachable)
    requires VerdictOn(names[i], previous, current).Ok?
    ensures var verdict := VerdictOn(names[i], previous, current).value;
      var after := if verdict.Unchanged? then changes
                   else changes.Push(reachable(names[i]), verdict.kind, verdict.entry);
      Holds(after, names[..i + 1], previous, current, reachable)
  {
    hide VerdictOn, HoldsList, Before;
    var name := names[i];
    var verdict := VerdictOn(name, previous, current).value;
    assert names[..i + 1] == names[..i] + [name];
    var after := if verdict.Unchanged? then changes else changes.Push(reachable(name), verdict.kind, verdict.entry);
    forall r, kind
      ensures HoldsList(after.List(r, kind), r, kind, names[..i + 1], previous, current, reachable)
    {
      ListOneMore(changes.List(r, kind), r, kind, names, i, previous, current, reachable);
    }
  }

  lemma {:induction false} ListOneMore(
      list: seq<Entry>, r: bool, kind: Kind, names: seq<string>, i: nat,
      previous: Entries, current: Entries, reachable: string -> bool)
    requires Ascending(names) && i < |names|
    requires HoldsList(list, r, kind, names[..i], previous, current, reachable)
    requires VerdictOn(names[i], previous, current).Ok?
    ensures var verdict := VerdictOn(names[i], previous, current).value;
      var joins := verdict.Listed? && verdict.kind == kind && reachable(names[i]) == r;
      HoldsList(if joins then list + [verdict.entry] else list, r, kind, names[..i + 1], previous, current, reachable)
  {
    hide VerdictOn, Before, Ascending, InNameOrder, Belongs;
    var name := names[i];
    var verdict := VerdictOn(name, previous, current).value;
    LastIsNew(names, i);
    forall entry {
      BelongsToMore(entry, r, kind, names, i, previous, current, reachable);
    }
    if verdict.Listed? && verdict.kind == kind && reachable(name) == r {
      var after := list + [verdict.entry];
      assert forall entry :: entry in after <==> entry in list || entry == verdict.entry;
      forall entry <- list ensures Before(entry.name, name) {
        BelongsIsSeen(entry, r, kind, names[..i], previous, current, reachable);
      }
      OneMoreInOrder(list, verdict.entry);
    }
  }

  lemma BelongsIsSeen(
      entry: Entry, r: bool, kind: Kind, seen: seq<string>, previous: Entries, current: Entries,
      reachable: string -> bool)
    requires Belongs(entry, r, kind, seen, previous, current, reachable)
    ensures entry.name in seen
  {}

  lemma {:induction false} BelongsToMore(
      entry: Entry, r: bool, kind: Kind, names: seq<string>, i: nat, previous: Entries, current: Entries,
      reachable: string -> bool)
    requires i < |names| && names[i] !in names[..i]
    requires VerdictOn(names[i], previous, current).Ok?
    ensures Belongs(entry, r, kind, names[..i + 1], previous, current, reachable) <==>
      (Belongs(entry, r, kind, names[..i], previous, current, reachable)
       || (VerdictOn(names[i], previous, current).value == Listed(kind, entry) && reachable(names[i]) == r))
  {
    hide VerdictOn;
    assert names[..i + 1] == names[..i] + [names[i]];
  }

  lemma OneMoreInOrder(list: seq<Entry>, entry: Entry)
    requires InNameOrder(list) && forall other <- list :: Before(other.name, entry.name)
    ensures InNameOrder(list + [entry])
  {
    var after := list + [entry];
    forall j, k | 0 <= j < k < |after| ensures Before(after[j].name, after[k].name) {
      if k == |list| { assert list[j] in list; }
    }
  }

  lemma LastIsNew(names: seq<string>, i: nat)
    requires Ascending(names) && i < |names|
    ensures (forall other <- names[..i] :: Before(other, names[i])) && names[i] !in names[..i]
  {
    BeforeIsTotal(names[i], names[i]);
  }

  // ---------------------------------------------------------------- what the sorting means

  /** The one list a name is in, by what is `same` between two versions of a changed entry. */
  ghost predicate IsListed(
      changes: Changes, name: string, before: Option<Json>, after: Option<Json>, same: bool, reached: bool)
  {
    forall r, kind :: (exists entry :: entry in changes.List(r, kind) && entry.name == name) <==>
      (before != after && r == reached
       && kind == if before.None? then IsAdded
                  else if after.None? then IsRemoved
                  else if same then IsWordingOnly
                  else IsChanged)
  }

  /**
   * An unchanged name is in no list; a changed one is in one list of the group its reach decides,
   * once: as added, removed, reworded only, which is alike but for wording, or changed.
   */
  lemma {:induction false} EachChangeOnce(
      changes: Changes, names: seq<string>, previous: Entries, current: Entries, reachable: string -> bool,
      name: string)
    requires Holds(changes, names, previous, current, reachable) && name in names
    ensures var before, after := Lookup(previous, name), Lookup(current, name);
      var alike := before.Some? && after.Some? && Alike(Comparable(before.value), Comparable(after.value), None);
      IsListed(changes, name, before, after, alike, reachable(name))
    ensures forall r, kind, i, j | 0 <= i < j < |changes.List(r, kind)| ::
      changes.List(r, kind)[i].name != changes.List(r, kind)[j].name
  {
    hide Diff, Alike, Comparable, NewExperiments, Before;
    var before, after := Lookup(previous, name), Lookup(current, name);
    if before.Some? && after.Some? && before != after {
      EmptyMeansAlike(Comparable(before.value), Comparable(after.value), [], None);
    }
    var verdict := VerdictOn(name, previous, current);
    forall r, kind
      ensures HoldsList(changes.List(r, kind), r, kind, names, previous, current, reachable)
    {}
    if verdict.value.Listed? {
      assert verdict.value.entry in changes.List(reachable(name), verdict.value.kind);
    }
    forall r, kind, i, j | 0 <= i < j < |changes.List(r, kind)|
      ensures changes.List(r, kind)[i].name != changes.List(r, kind)[j].name
    {
      BeforeIsTotal(changes.List(r, kind)[i].name, changes.List(r, kind)[i].name);
    }
  }

  /** Without one-sided inherited names, a changed entry is reworded only exactly if its meaning stays. */
  lemma {:induction false} RewordedKeepsMeaning(
      changes: Changes, names: seq<string>, previous: Entries, current: Entries, reachable: string -> bool,
      name: string)
    requires Holds(changes, names, previous, current, reachable) && name in names
    requires name in previous && name in current && Clear(Comparable(previous[name]), Comparable(current[name]))
    ensures var same := Denote(Comparable(previous[name]), None) == Denote(Comparable(current[name]), None);
      IsListed(changes, name, Some(previous[name]), Some(current[name]), same, reachable(name))
  {
    hide Diff, Denote, Clear, Alike, Comparable, Holds, IsListed;
    EachChangeOnce(changes, names, previous, current, reachable, name);
    EmptyMeansSame(Comparable(previous[name]), Comparable(current[name]), [], None);
    EmptyMeansAlike(Comparable(previous[name]), Comparable(current[name]), [], None);
  }
}
