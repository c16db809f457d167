/** Sorting texts by their characters, as `<` compares strings. */
module Ordering {

  predicate Before(a: string, b: string) {
    if b == [] then false
    else if a == [] then true
    else a[0] < b[0] || (a[0] == b[0] && Before(a[1..], b[1..]))
  }

  lemma {:induction false} BeforeIsTransitive(a: string, b: string, c: string)
    requires Before(a, b) && Before(b, c)
    ensures Before(a, c)
  {
    if a != [] && a[0] == b[0] == c[0] {
      BeforeIsTransitive(a[1..], b[1..], c[1..]);
    }
  }

  lemma {:induction false} BeforeIsTotal(a: string, b: string)
    ensures Before(a, b) || a == b || Before(b, a)
    ensures !(Before(a, b) && Before(b, a)) && !Before(a, a)
  {
    if a != [] {
      BeforeIsTotal(a[1..], if b == [] then [] else b[1..]);
      BeforeIsTotal(a[1..], a[1..]);
      if b != [] && a[0] == b[0] && a[1..] == b[1..] {
        assert a == [a[0]] + a[1..] && b == [b[0]] + b[1..];
      }
    }
  }

  predicate Ascending(names: seq<string>) {
    forall i, j | 0 <= i < j < |names| :: Before(names[i], names[j])
  }

  /** Adds a name to an ascending list, unless it is there. */
  function Insert(name: string, names: seq<string>): (all: seq<string>)
    requires Ascending(names)
    ensures Ascending(all)
    ensures forall other :: other in all <==> other == name || other in names
  {
    BeforeIsTotal(name, if names == [] then [] else names[0]);
    if names == [] then [name]
    else if name == names[0] then names
    else if Before(name, names[0]) then
      var all := [name] + names;
      assert Ascending(all) by {
        forall i, j | 0 <= i < j < |all| ensures Before(all[i], all[j]) {
          if i == 0 && j > 1 { BeforeIsTransitive(name, names[0], names[j - 1]); }
        }
      }
      all
    else
      var rest := Insert(name, names[1..]);
      var all := [names[0]] + rest;
      assert Ascending(all) by {
        forall i, j | 0 <= i < j < |all| ensures Before(all[i], all[j]) {
          if i == 0 { assert rest[j - 1] in rest; }
        }
      }
      assert forall other :: other in names <==> other == names[0] || other in names[1..] by {
        assert names == [names[0]] + names[1..];
      }
      all
  }

  /** `[...new Set(names)].sort(compare)` */
  function Sorted(names: seq<string>): (sorted: seq<string>)
    ensures Ascending(sorted)
    ensures forall name :: name in sorted <==> name in names
  {
    if names == [] then [] else Insert(names[0], Sorted(names[1..]))
  }

  /** A set of names can be listed in ascending order in one way only. */
  lemma {:induction false} AscendingIsUnique(one: seq<string>, other: seq<string>)
    requires Ascending(one) && Ascending(other)
    requires forall name :: name in one <==> name in other
    ensures one == other
  {
    HoldsSome(other);
    if one != [] {
      assert one[0] in other;
      assert other[0] in one;
      BeforeIsTotal(one[0], other[0]);
      assert one[0] == other[0];
      TailOf(one);
      TailOf(other);
      AscendingIsUnique(one[1..], other[1..]);
    }
  }

  lemma HoldsSome(names: seq<string>)
    ensures names != [] ==> exists name :: name in names
  {
    if names != [] {
      assert names[0] in names;
    }
  }

  lemma TailOf(names: seq<string>)
    requires Ascending(names) && names != []
    ensures forall name :: name in names[1..] <==> name in names && name != names[0]
  {
    BeforeIsTotal(names[0], names[0]);
    assert forall name :: name in names <==> name == names[0] || name in names[1..] by {
      assert names == [names[0]] + names[1..];
    }
    assert forall i | 1 <= i < |names| :: Before(names[0], names[i]);
    assert names[0] !in names[1..];
  }

  /** Lists the members of a set, in some order. */
  method ListSet(names: set<string>) returns (list: seq<string>)
    ensures forall name :: name in list <==> name in names
  {
    list := [];
    var rest := names;
    while rest != {}
      invariant rest <= names && forall name :: name in list <==> name in names - rest
      decreases |rest|
    {
      var name :| name in rest;
      list, rest := list + [name], rest - {name};
    }
  }
}
