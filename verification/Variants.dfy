/** Which branches of a document's unions the generated examples show, and which bounds beside a union they keep. */
module Variants {
  import opened Wrappers
  import opened Schemas
  import opened Examples

  // ---------------------------------------------------------------- the branches of a variant

  /** The branches that variant `k` asks for: the one of that number at every site of the base example that has it. */
  function VariantChoices(sites: map<string, seq<nat>>, k: nat): map<string, nat> {
    map site | site in sites && k < |sites[site]| :: sites[site][k]
  }

  /** At a site of the base example a variant takes its own branch or, like anywhere else, the first. */
  lemma ChosenInVariant(sites: map<string, seq<nat>>, k: nat, site: string, options: seq<nat>)
    requires options != [] && (site in sites ==> sites[site] == options)
    ensures Chosen(VariantChoices(sites, k), site, options)
         == options[if site in sites && k < |options| then k else 0]
  {}

  /** A union of two branches or more on the way to a place, and the branch that leads on. */
  datatype Turn = Turn(branches: nat, taken: nat)

  predicate IsWay(way: seq<Turn>) {
    forall turn <- way :: turn.branches >= 2 && turn.taken < turn.branches
  }

  predicate IsFirst(way: seq<Turn>) {
    forall turn <- way :: turn.taken == 0
  }

  /** The branch that variant `k` takes at a union; the base example, variant 0, meets it behind first branches only. */
  function Taken(way: seq<Turn>, i: nat, k: nat): nat
    requires i < |way|
  {
    if IsFirst(way[..i]) && k < way[i].branches then k else 0
  }

  /** Variant `k` goes this way, up to and with its last branch. */
  predicate Goes(way: seq<Turn>, k: nat) {
    forall i | 0 <= i < |way| :: Taken(way, i, k) == way[i].taken
  }

  /** The one turn to another branch than the first, which the unions around it do not have. */
  predicate IsOnlyTurn(way: seq<Turn>, i: nat) {
    && i < |way| && way[i].taken > 0 && IsFirst(way[..i]) && IsFirst(way[i + 1..])
    && forall turn <- way[..i] :: turn.branches <= way[i].taken
  }

  /**
   * A branch appears in some example exactly if only first branches lead to it and it is the first, or it is another,
   * or leads by first branches to one, and the unions around it have no branch of its number.
   */
  lemma {:induction false} BranchAppears(way: seq<Turn>)
    requires IsWay(way)
    ensures (exists k: nat :: Goes(way, k)) <==> IsFirst(way) || exists i: nat :: IsOnlyTurn(way, i)
  {
    hide Goes;
    if IsFirst(way) {
      FirstGoes(way);
    } else if i: nat :| IsOnlyTurn(way, i) {
      TurnGoes(way, i);
    } else if k: nat :| Goes(way, k) {
      var i := GoesByOneTurn(way, k);
    }
  }

  lemma {:induction false} FirstGoes(way: seq<Turn>)
    requires IsWay(way) && IsFirst(way)
    ensures Goes(way, 0)
  {
    forall i | 0 <= i < |way| ensures Taken(way, i, 0) == way[i].taken {
      assert way[i] in way;
    }
  }

  lemma {:induction false} TurnGoes(way: seq<Turn>, i: nat)
    requires IsWay(way) && IsOnlyTurn(way, i)
    ensures Goes(way, way[i].taken)
  {
    var k := way[i].taken;
    forall j | 0 <= j < |way| ensures Taken(way, j, k) == way[j].taken {
      assert way[j] in way;
      if j < i {
        assert way[..i][j] == way[j] && way[j] in way[..i];
      } else if j > i {
        assert way[..j][i] == way[i] && way[i] in way[..j];
        assert way[i + 1..][j - i - 1] == way[j] && way[j] in way[i + 1..];
      }
    }
  }

  lemma {:induction false} FirstTurn(way: seq<Turn>) returns (i: nat)
    requires !IsFirst(way)
    ensures i < |way| && way[i].taken > 0 && IsFirst(way[..i])
  {
    if way[0].taken > 0 {
      i := 0;
    } else {
      assert way == [way[0]] + way[1..];
      i := FirstTurn(way[1..]);
      i := i + 1;
      assert way[..i] == [way[0]] + way[1..][..i - 1];
    }
  }

  lemma {:induction false} GoesByOneTurn(way: seq<Turn>, k: nat) returns (i: nat)
    requires IsWay(way) && !IsFirst(way) && Goes(way, k)
    ensures IsOnlyTurn(way, i)
  {
    i := FirstTurn(way);
    assert Taken(way, i, k) == way[i].taken == k;
    forall turn | turn in way[..i] ensures turn.branches <= k {
      var j :| 0 <= j < i && way[..i][j] == turn;
      assert way[..j] == way[..i][..j];
      assert Taken(way, j, k) == way[j].taken == 0;
    }
    forall turn | turn in way[i + 1..] ensures turn.taken == 0 {
      var j :| 0 <= j < |way| - i - 1 && way[i + 1..][j] == turn;
      var at := i + 1 + j;
      assert way[..at][i] == way[i] && way[i] in way[..at];
      assert Taken(way, at, k) == way[at].taken;
    }
  }

  /** The second branch of a union inside the first branch of another of two appears in no example. */
  lemma LostBranch()
    ensures var way := [Turn(2, 0), Turn(2, 1)]; IsWay(way) && forall k: nat :: !Goes(way, k)
  {
    var way := [Turn(2, 0), Turn(2, 1)];
    forall k: nat ensures !Goes(way, k) {
      assert way[..0] == [] && way[..1] == [Turn(2, 0)];
      assert Taken(way, 0, k) == Taken(way, 1, k) && way[0].taken != way[1].taken;
    }
  }

  // ---------------------------------------------------------------- bounds beside a union

  /** A keyword of the branch replaces the one that stands beside the union. */
  function Override<T>(beside: Option<T>, branch: Option<T>): Option<T> {
    if branch.Some? then branch else beside
  }

  predicate InBounds(least: Option<int>, most: Option<int>, n: int) {
    AtLeast(n, least) && AtMost(n, most)
  }

  /** The two integers generated for a branch with the bounds that stand beside its union. */
  predicate KeepsBounds(besideLeast: Option<int>, besideMost: Option<int>, least: Option<int>, most: Option<int>) {
    var minimal := IntegerOf(Override(besideLeast, least), Override(besideMost, most), Minimal);
    var full := IntegerOf(Override(besideLeast, least), Override(besideMost, most), Full);
    && InBounds(besideLeast, besideMost, minimal) && InBounds(least, most, minimal)
    && InBounds(besideLeast, besideMost, full) && InBounds(least, most, full)
  }

  /** Both conform to the union and to what stands beside it exactly if the branch only narrows, to bounds that suit. */
  lemma BesideBounds(besideLeast: Option<int>, besideMost: Option<int>, least: Option<int>, most: Option<int>)
    ensures KeepsBounds(besideLeast, besideMost, least, most) <==>
      && IntegerSuits(Override(besideLeast, least), Override(besideMost, most))
      && (besideLeast.Some? && least.Some? ==> besideLeast.value <= least.value)
      && (besideMost.Some? && most.Some? ==> most.value <= besideMost.value)
  {}

  /** A minimum of 5 beside a union is lost to a branch with a minimum of 0. */
  lemma LostBound()
    ensures !KeepsBounds(Some(5), None, Some(0), None)
    ensures IntegerOf(Override(Some(5), Some(0)), Override(None, None), Minimal) == 0
  {
    BesideBounds(Some(5), None, Some(0), None);
  }
}
