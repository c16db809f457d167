/** Which schemas a document's routes reach through references, computed in two ways. */
module Reachability {
  import opened Wrappers
  import opened Json
  import opened Ordering

  /** The names each schema mentions. */
  type Graph = map<string, set<string>>

  /** A chain of schemas, each but the first mentioned by the one before it. */
  predicate IsChain(chain: seq<string>, roots: set<string>, graph: Graph) {
    && chain != []
    && chain[0] in roots
    && (forall i | 0 <= i < |chain| :: chain[i] in graph)
    && (forall i | 0 <= i < |chain| - 1 :: chain[i + 1] in graph[chain[i]])
  }

  ghost predicate Reachable(name: string, roots: set<string>, graph: Graph) {
    exists chain :: IsChain(chain, roots, graph) && chain[|chain| - 1] == name
  }

  lemma RootIsReachable(name: string, roots: set<string>, graph: Graph)
    requires name in roots && name in graph
    ensures Reachable(name, roots, graph)
  {
    assert IsChain([name], roots, graph);
  }

  lemma MentionIsReachable(from: string, name: string, roots: set<string>, graph: Graph)
    requires Reachable(from, roots, graph) && name in graph[from] && name in graph
    ensures Reachable(name, roots, graph)
  {
    var chain :| IsChain(chain, roots, graph) && chain[|chain| - 1] == from;
    assert IsChain(chain + [name], roots, graph);
  }

  /** Names that hold every root and everything they mention hold all that is reachable. */
  predicate IsClosed(names: set<string>, roots: set<string>, graph: Graph) {
    && (forall name <- roots | name in graph :: name in names)
    && (forall from <- names | from in graph :: forall name <- graph[from] | name in graph :: name in names)
  }

  lemma {:induction false} ClosedHoldsChain(names: set<string>, chain: seq<string>, roots: set<string>, graph: Graph)
    requires IsClosed(names, roots, graph) && IsChain(chain, roots, graph)
    ensures chain[|chain| - 1] in names
    decreases |chain|
  {
    if |chain| > 1 {
      var prefix := chain[..|chain| - 1];
      ClosedHoldsChain(names, prefix, roots, graph);
      assert chain[|prefix|] in graph[chain[|prefix| - 1]];
    }
  }

  lemma ClosedHoldsReachable(names: set<string>, roots: set<string>, graph: Graph)
    requires IsClosed(names, roots, graph)
    ensures forall name | Reachable(name, roots, graph) :: name in names
  {
    forall name | Reachable(name, roots, graph) ensures name in names {
      var chain :| IsChain(chain, roots, graph) && chain[|chain| - 1] == name;
      ClosedHoldsChain(names, chain, roots, graph);
    }
  }

  /** A search half done: `done` is explored, and whatever else is reachable is reached through `pending`. */
  ghost predicate Explored(done: set<string>, pending: set<string>, roots: set<string>, graph: Graph) {
    && done <= graph.Keys
    && (forall name | name in graph && (name in done || name in pending) :: Reachable(name, roots, graph))
    && roots * graph.Keys <= done + pending
    && (forall name | name in done :: graph[name] * graph.Keys <= done + pending)
  }

  lemma ExploreStart(roots: set<string>, graph: Graph)
    ensures Explored({}, roots, roots, graph)
  {
    forall name | name in roots && name in graph ensures Reachable(name, roots, graph) {
      RootIsReachable(name, roots, graph);
    }
  }

  /** Taking up a name adds what it mentions to what is pending. */
  lemma ExploreStep(
      done: set<string>, pending: set<string>, name: string, rest: set<string>, roots: set<string>, graph: Graph)
    requires Explored(done, pending, roots, graph)
    requires name in pending && name in graph && pending - {name} <= rest <= pending
    ensures Explored(done + {name}, rest + graph[name], roots, graph)
  {
    hide Reachable;
    forall other | other in graph && other in graph[name] ensures Reachable(other, roots, graph) {
      MentionIsReachable(name, other, roots, graph);
    }
  }

  lemma ExploreSkip(
      done: set<string>, pending: set<string>, name: string, rest: set<string>, roots: set<string>, graph: Graph)
    requires Explored(done, pending, roots, graph)
    requires (name in done || name !in graph) && pending - {name} <= rest <= pending
    ensures Explored(done, rest, roots, graph)
  {
    hide Reachable;
  }

  lemma ExploreEnd(done: set<string>, roots: set<string>, graph: Graph)
    requires Explored(done, {}, roots, graph)
    ensures forall name :: name in done <==> Reachable(name, roots, graph)
  {
    hide Reachable;
    assert IsClosed(done, roots, graph);
    ClosedHoldsReachable(done, roots, graph);
  }

  // ---------------------------------------------------------------- a stack of names to visit

  const REFERENCE := "$ref"
  const SCHEMA_PREFIX := "#/components/schemas/"
  const APPLICATION_SCHEMES: set<string> := {"botToken", "oauth2Token", "bearerToken"}

  datatype Operation = Operation(tokens: seq<string>, operation: Json)

  /** Whether a bot or an OAuth2 application can call an operation that lists these schemes. */
  predicate ReachableBy(tokens: seq<string>) {
    tokens == [] || exists token <- tokens :: token in APPLICATION_SCHEMES
  }

  /** Every text under one key, anywhere in a value, in the order JSON writes it. */
  function Texts(value: Json, key: string): seq<string>
    decreases value, 1, 0
  {
    match value
    case Arr(items) => ItemTexts(items, key, value)
    case Obj(fields) => FieldTexts(fields, key, value)
    case _ => []
  }

  function ItemTexts(items: seq<Json>, key: string, ghost within: Json): seq<string>
    requires forall i | 0 <= i < |items| :: items[i] < within
    decreases within, 0, |items|
  {
    if items == [] then [] else Texts(items[0], key) + ItemTexts(items[1..], key, within)
  }

  function FieldTexts(fields: seq<Field>, key: string, ghost within: Json): seq<string>
    requires forall i | 0 <= i < |fields| :: fields[i].value < within
    decreases within, 0, |fields|
  {
    if fields == [] then []
    else
      var own := if fields[0].key == key && fields[0].value.Str? then [fields[0].value.s] else [];
      own + Texts(fields[0].value, key) + FieldTexts(fields[1..], key, within)
  }

  /** The schemas that a list of references names. */
  function Named(references: seq<string>): (names: seq<string>)
    ensures forall name :: name in names <==> SCHEMA_PREFIX + name in references
  {
    if references == [] then []
    else
      var first, rest := references[0], Named(references[1..]);
      assert forall reference :: reference in references <==> reference == first || reference in references[1..] by {
        assert references == [first] + references[1..];
      }
      if SCHEMA_PREFIX <= first then
        assert first == SCHEMA_PREFIX + first[|SCHEMA_PREFIX|..];
        [first[|SCHEMA_PREFIX|..]] + rest
      else rest
  }

  function Mentions(value: Json): seq<string> {
    Named(Texts(value, REFERENCE))
  }

  function SchemaGraph(schemas: seq<Field>): (graph: Graph)
    ensures forall name :: name in graph <==> HasKey(schemas, name)
    ensures forall name | name in graph :: graph[name] == set other | other in Mentions(Get(schemas, name).value)
  {
    map name | name in Keys(schemas) :: set other | other in Mentions(Get(schemas, name).value)
  }

  /** What the operations that an application can call mention. */
  function RootNames(operations: seq<Operation>): seq<string> {
    if operations == [] then []
    else
      var first := operations[0];
      (if ReachableBy(first.tokens) then Mentions(first.operation) else []) + RootNames(operations[1..])
  }

  function Roots(operations: seq<Operation>): set<string> {
    set name | name in RootNames(operations)
  }

  method CollectRoots(operations: seq<Operation>) returns (pending: seq<string>)
    ensures pending == RootNames(operations)
  {
    hide Mentions;
    pending := [];
    var i := 0;
    while i < |operations|
      invariant 0 <= i <= |operations|
      invariant pending + RootNames(operations[i..]) == RootNames(operations)
    {
      assert operations[i..][1..] == operations[i + 1..];
      if ReachableBy(operations[i].tokens) {
        pending := pending + Mentions(operations[i].operation);
      }
      i := i + 1;
    }
  }

  function ToSet(names: seq<string>): set<string> {
    set name | name in names
  }

  method ReachableSchemas(schemas: seq<Field>, operations: seq<Operation>) returns (seen: set<string>)
    ensures forall name :: name in seen <==> Reachable(name, Roots(operations), SchemaGraph(schemas))
  {
    hide Mentions, Reachable, Explored, HasKey, Get;
    ghost var roots, graph := Roots(operations), SchemaGraph(schemas);
    var pending := CollectRoots(operations);
    seen := {};
    ExploreStart(roots, graph);
    while pending != []
      invariant Explored(seen, ToSet(pending), roots, graph)
      decreases graph.Keys - seen, |pending|
    {
      var name, rest := pending[|pending| - 1], pending[..|pending| - 1];
      assert pending == rest + [name];
      if name in seen || !HasKey(schemas, name) {
        ExploreSkip(seen, ToSet(pending), name, ToSet(rest), roots, graph);
        pending := rest;
      } else {
        var mentions := Mentions(Get(schemas, name).value);
        ExploreStep(seen, ToSet(pending), name, ToSet(rest), roots, graph);
        assert ToSet(rest + mentions) == ToSet(rest) + graph[name];
        seen, pending := seen + {name}, rest + mentions;
      }
    }
    assert ToSet(pending) == {};
    ExploreEnd(seen, roots, graph);
  }

  // ---------------------------------------------------------------- rounds of declarations

  /** What writing a schema's type yields: the named schemas in it, or an error. */
  datatype Writing = Written(reached: set<string>) | Refused

  /** Writing a type resolves each name it mentions against the schemas. */
  ghost predicate Resolves(schemas: map<string, Writing>) {
    forall name | name in schemas && schemas[name].Written? :: schemas[name].reached <= schemas.Keys
  }

  function WritingGraph(schemas: map<string, Writing>): Graph {
    map name | name in schemas :: if schemas[name].Written? then schemas[name].reached else {}
  }

  /**
   * Declares what the routes reached, then what those declarations reached, until a round adds
   * nothing: each reachable schema once, and no other, unless the type of one cannot be written.
   */
  method Declare(schemas: map<string, Writing>, reachedByRoutes: set<string>)
    returns (declarations: Option<seq<string>>)
    requires Resolves(schemas) && reachedByRoutes <= schemas.Keys
    ensures var graph := WritingGraph(schemas);
      match declarations
      case Some(names) =>
        && (forall i, j | 0 <= i < j < |names| :: names[i] != names[j])
        && (forall name :: name in names <==> Reachable(name, reachedByRoutes, graph))
        && (forall name <- names :: name in schemas && schemas[name].Written?)
      case None => exists name :: name in schemas && Reachable(name, reachedByRoutes, graph) && schemas[name].Refused?
  {
    hide Reachable, Explored, Ascending;
    ghost var graph := WritingGraph(schemas);
    var reached, names := reachedByRoutes, [];
    var declared: set<string> := {};
    ExploreStart(reachedByRoutes, graph);
    assert reached - declared == reachedByRoutes;
    while reached - declared != {}
      invariant declared <= reached <= schemas.Keys
      invariant Explored(declared, reached - declared, reachedByRoutes, graph)
      invariant forall name :: name in names <==> name in declared
      invariant forall i, j | 0 <= i < j < |names| :: names[i] != names[j]
      invariant forall name <- declared :: schemas[name].Written?
      decreases schemas.Keys - declared
    {
      var list := ListSet(reached - declared);
      var pending := Sorted(list);
      assert pending != [] by { var name :| name in reached - declared; }
      AscendingIsDistinct(pending);
      ghost var start := declared;
      var i := 0;
      while i < |pending|
        invariant 0 <= i <= |pending|
        invariant start <= declared <= reached <= schemas.Keys
        invariant forall name <- declared :: name in start || name in pending[..i]
        invariant i > 0 ==> pending[0] in declared
        invariant forall name <- pending :: name in reached && name !in start
        invariant Explored(declared, reached - declared, reachedByRoutes, graph)
        invariant forall name :: name in names <==> name in declared
        invariant forall i, j | 0 <= i < j < |names| :: names[i] != names[j]
        invariant forall name <- declared :: schemas[name].Written?
      {
        var name := pending[i];
        assert name !in declared;
        assert pending[..i + 1] == pending[..i] + [name];
        match schemas[name]
        case Refused =>
          ExploredIsReachable(name, declared, reached, reachedByRoutes, graph);
          return None;
        case Written(more) =>
          Round(declared, reached, name, more, reachedByRoutes, graph);
          declared, reached, names := declared + {name}, reached + more, names + [name];
        i := i + 1;
      }
    }
    assert reached - declared == {};
    ExploreEnd(declared, reachedByRoutes, graph);
    return Some(names);
  }

  lemma ExploredIsReachable(
      name: string, declared: set<string>, reached: set<string>, roots: set<string>, graph: Graph)
    requires Explored(declared, reached - declared, roots, graph) && name in reached - declared && name in graph
    ensures Reachable(name, roots, graph)
  {}

  /** Declaring one more schema, and reaching what its type mentions. */
  lemma Round(
      declared: set<string>, reached: set<string>, name: string, more: set<string>, roots: set<string>, graph: Graph)
    requires declared <= reached <= graph.Keys && name in reached - declared && graph[name] == more <= graph.Keys
    requires Explored(declared, reached - declared, roots, graph)
    ensures Explored(declared + {name}, reached + more - (declared + {name}), roots, graph)
  {
    hide Reachable;
    ExploreStep(declared, reached - declared, name, reached - declared - {name}, roots, graph);
    assert reached + more - (declared + {name}) == (reached - declared - {name}) + more - (declared + {name});
  }

  lemma AscendingIsDistinct(names: seq<string>)
    requires Ascending(names)
    ensures forall i, j | 0 <= i < j < |names| :: names[i] != names[j]
  {
    forall i, j | 0 <= i < j < |names| ensures names[i] != names[j] {
      BeforeIsTotal(names[i], names[j]);
    }
  }
}
