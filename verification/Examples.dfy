/** Generates example values for the schemas of a document, cutting recursion after one repeat of a name. */
module Examples {
  import opened Wrappers
  import opened Text
  import opened Schemas

  const MAXIMUM_REPEATS := 2

  // ---------------------------------------------------------------- the recursion bound

  function Occurrences(stack: seq<string>, name: string): (count: nat)
    ensures count <= |stack|
  {
    if stack == [] then 0 else (if stack[0] == name then 1 else 0) + Occurrences(stack[1..], name)
  }

  /** Every name on the path is a schema's, and none is there more than twice. */
  predicate Bounded(stack: seq<string>, names: set<string>) {
    forall name <- stack :: name in names && Occurrences(stack, name) <= MAXIMUM_REPEATS
  }

  function Without(stack: seq<string>, name: string): (rest: seq<string>)
    ensures |rest| + Occurrences(stack, name) == |stack|
    ensures forall other :: other in rest <==> other in stack && other != name
    ensures forall other | other != name :: Occurrences(rest, other) == Occurrences(stack, other)
  {
    if stack == [] then []
    else
      var rest := Without(stack[1..], name);
      assert stack == [stack[0]] + stack[1..];
      if stack[0] == name then rest
      else
        assert ([stack[0]] + rest)[1..] == rest;
        [stack[0]] + rest
  }

  /** A path holds each schema at most twice, so it is at most twice as long as there are schemas. */
  lemma {:induction false} StackBound(stack: seq<string>, names: set<string>)
    requires Bounded(stack, names)
    ensures |stack| <= MAXIMUM_REPEATS * |names|
    decreases |stack|
  {
    if stack != [] {
      var name := stack[0];
      var rest := Without(stack, name);
      StackBound(rest, names - {name});
      assert names == (names - {name}) + {name};
    }
  }

  lemma {:induction false} OccurrencesAfter(stack: seq<string>, name: string, other: string)
    ensures Occurrences(stack + [name], other) == Occurrences(stack, other) + if other == name then 1 else 0
  {
    if stack == [] {
      assert stack + [name] == [name] && [name][1..] == [];
    } else {
      OccurrencesAfter(stack[1..], name, other);
      assert (stack + [name])[1..] == stack[1..] + [name];
    }
  }

  lemma {:induction false} NotOnStack(stack: seq<string>, name: string)
    requires name !in stack
    ensures Occurrences(stack, name) == 0
  {
    if stack != [] {
      assert stack[0] in stack;
      NotOnStack(stack[1..], name);
    }
  }

  lemma {:induction false} PushKeepsBound(stack: seq<string>, name: string, names: set<string>)
    requires Bounded(stack, names) && name in names && Occurrences(stack, name) < MAXIMUM_REPEATS
    ensures Bounded(stack + [name], names) && |stack| + 1 <= MAXIMUM_REPEATS * |names|
  {
    forall other <- stack + [name]
      ensures other in names && Occurrences(stack + [name], other) <= MAXIMUM_REPEATS
    {
      OccurrencesAfter(stack, name, other);
    }
    StackBound(stack + [name], names);
  }

  // ---------------------------------------------------------------- documents without cycles

  /** The schemas a schema refers to. */
  function Refs(schema: Schema): set<string> {
    match schema
    case Ref(name) => {name}
    case AnyOf(branches) => set i, name | 0 <= i < |branches| && name in Refs(branches[i]) :: name
    case TypeList(options) => set i, name | 0 <= i < |options| && name in Refs(options[i]) :: name
    case Object(properties, _, additional) =>
      (set i, name | 0 <= i < |properties| && name in Refs(properties[i].schema) :: name)
      + if additional.Keyed? then Refs(additional.schema) else {}
    case Array(items, _, _) => Refs(items)
    case _ => {}
  }

  /** References lead to schemas of lower rank only, so none leads back to where it started. */
  ghost predicate Ranked(components: Components, rank: string -> nat) {
    forall name, other | name in components && other in Refs(components[name]) :: rank(other) < rank(name)
  }

  /** Every schema that may still be entered ranks below those on the path. */
  ghost predicate RanksBelow(schema: Schema, stack: seq<string>, rank: string -> nat) {
    forall name, other | name in Refs(schema) && other in stack :: rank(name) < rank(other)
  }

  lemma {:induction false} RanksBelowTarget(
      name: string, stack: seq<string>, components: Components, rank: string -> nat)
    requires Ranked(components, rank) && name in components && RanksBelow(Ref(name), stack, rank)
    ensures Occurrences(stack, name) == 0 && RanksBelow(components[name], stack + [name], rank)
  {
    assert name in Refs(Ref(name));
    NotOnStack(stack, name);
  }

  // ---------------------------------------------------------------- consistent schemas

  predicate IntegerSuits(least: Option<int>, most: Option<int>) {
    most.Some? ==> OrElse(least, 0) <= most.value
  }

  predicate NumberSuits(minimum: Option<real>, maximum: Option<real>) {
    if maximum.Some? then OrElse(minimum, 0.0) <= maximum.value else OrElse(minimum, 0.0) <= 1.5
  }

  predicate TextSuits(text: TextSchema, name: Option<string>, hash: Hash) {
    PatternSuits(text) && BoundsSuit(text, Minimal, name, hash) && BoundsSuit(text, Full, name, hash)
  }

  predicate UniqueProperties(properties: seq<Property>) {
    forall i, j | 0 <= i < j < |properties| :: properties[i].key != properties[j].key
  }

  /** Bounds that admit the generator's values, supported keywords and references that resolve, `n` references deep. */
  predicate Consistent(n: nat, schema: Schema, name: Option<string>, components: Components, hash: Hash)
    decreases n, schema
  {
    match schema
    case Ref(target) =>
      target in components && (n > 0 ==> Consistent(n - 1, components[target], name, components, hash))
    case Const(_) => true
    case Enum(values) => values != []
    case AnyOf(branches) =>
      && (exists i | 0 <= i < |branches| :: !branches[i].NullType?)
      && (forall i | 0 <= i < |branches| :: Consistent(n, branches[i], name, components, hash))
    case TypeList(options) =>
      options != [] && forall i | 0 <= i < |options| :: Consistent(n, options[i], name, components, hash)
    case Object(properties, required, additional) =>
      && UniqueProperties(properties) && required <= Keys(properties)
      && (forall i | 0 <= i < |properties| ::
            Consistent(n, properties[i].schema, Some(properties[i].key), components, hash))
      && (additional.Keyed? ==>
            && additional.supportedKeys && SnowflakeOf(name, hash) !in Keys(properties)
            && Consistent(n, additional.schema, name, components, hash))
    case Array(items, minItems, maxItems) =>
      && (maxItems.Some? ==> OrElse(minItems, 0) <= maxItems.value)
      && Consistent(n, items, name, components, hash)
    case Text(text) => TextSuits(text, name, hash)
    case Integer(least, most) => IntegerSuits(least, most)
    case Number(minimum, maximum) => NumberSuits(minimum, maximum)
    case Boolean => true
    case NullType => true
    case Unsupported => false
  }

  // ---------------------------------------------------------------- single values

  /** A built value, or none where the recursion bound leaves no value to build. */
  type Built = Result<Option<Value>, Fault>

  predicate IsLeaf(schema: Schema) {
    !schema.Ref? && !schema.AnyOf? && !schema.TypeList? && !schema.Object? && !schema.Array?
  }

  /** Lower bounds and first enum values for a minimal instance, upper bounds and last values for a full one. */
  function LeafOf(schema: Schema, mode: Mode, name: Option<string>, hash: Hash): Built
    requires IsLeaf(schema)
  {
    match schema
    case Const(value) => Ok(Some(value))
    case Enum(values) =>
      if values == [] then Err(UnsupportedSchema)
      else Ok(Some(if mode.Minimal? then values[0] else values[|values| - 1]))
    case Text(text) =>
      var words :- TextOf(text, mode, name, hash);
      Ok(Some(Words(words)))
    case Integer(least, most) => Ok(Some(Numeric(IntegerOf(least, most, mode) as real)))
    case Number(minimum, maximum) => Ok(Some(Numeric(NumberOf(minimum, maximum, mode))))
    case Boolean => Ok(Some(Truth(mode.Full?)))
    case NullType => Ok(Some(Nothing))
    case _ => Err(UnsupportedSchema)
  }

  lemma {:induction false} LeafConforms(
      n: nat, schema: Schema, mode: Mode, name: Option<string>, components: Components, hash: Hash)
    requires IsLeaf(schema)
    ensures var built := LeafOf(schema, mode, name, hash);
      && built != Ok(None)
      && (Consistent(n, schema, name, components, hash) ==>
            built.Ok? && Conforms(n, built.value.value, schema, components))
  {
    hide TextOf, TextConforms, PatternSuits, BoundsSuit;
    match schema
    case Text(text) => TextConformance(text, mode, name, hash);
    case Integer(least, most) =>
      IntegerConformance(least, most, mode);
      assert (IntegerOf(least, most, mode) as real).Floor == IntegerOf(least, most, mode);
    case Number(minimum, maximum) => NumberConformance(minimum, maximum, mode);
    case _ =>
  }

  predicate TakesNull(schema: Schema) {
    (schema.AnyOf? && NullType in schema.branches) || (schema.TypeList? && NullType in schema.options)
  }

  /** The branch for a site: the requested one where it is an option, or else the first. */
  function Chosen(choices: map<string, nat>, site: string, options: seq<nat>): (index: nat)
    requires options != []
    ensures index in options
  {
    if |options| >= 2 && site in choices && choices[site] in options then choices[site] else options[0]
  }

  // ---------------------------------------------------------------- the generator

  datatype Position = Position(owner: string, local: string, stack: seq<string>, name: Option<string>)

  class Generator {
    const components: Components
    const hash: Hash
    const nulls: bool
    const choices: map<string, nat>
    var sites: map<string, seq<nat>>
    var expanded: set<string>
    /** A ranking of the schemas, which is one of a document without cycles if there is such. */
    ghost const rank: string -> nat
    /** How often a reference was refused because its name was on the path twice. */
    ghost var refusals: nat

    constructor (
        components: Components, hash: Hash, nulls: bool, choices: map<string, nat>, root: string,
        ghost rank: string -> nat)
      ensures this.components == components && this.hash == hash && this.nulls == nulls && this.choices == choices
      ensures sites == map[] && expanded == {root} && refusals == 0 && this.rank == rank
    {
      this.rank := rank;
      this.components, this.hash, this.nulls, this.choices := components, hash, nulls, choices;
      sites, expanded, refusals := map[], {root}, 0;
    }

    function Budget(stack: seq<string>): (left: nat)
      requires Bounded(stack, components.Keys)
    {
      StackBound(stack, components.Keys);
      MAXIMUM_REPEATS * |components.Keys| - |stack|
    }

    /**
     * What every building method promises: on a consistent schema nothing fails, a value is left out
     * only where the recursion bound refused a reference, which it does on cycles only, and a built
     * value conforms.
     */
    ghost predicate Keeps(built: Built, schema: Schema, at: Position, refused: bool)
      requires Bounded(at.stack, components.Keys)
    {
      && (built == Ok(None) ==> refused)
      && (Ranked(components, rank) && RanksBelow(schema, at.stack, rank) ==> !refused)
      && (Consistent(Budget(at.stack), schema, at.name, components, hash) ==>
            built.Ok? && (built.value.Some? ==>
              Conforms(Budget(at.stack), built.value.value, schema, components)))
    }

    /** Picks the branch for a site, registering the site so that other branches get variants of their own. */
    method Choose(site: string, options: seq<nat>) returns (index: Option<nat>)
      modifies this`sites
      ensures index.None? <==> options == []
      ensures index.Some? ==> index.value in options && index.value == Chosen(choices, site, options)
      ensures |options| == 1 ==> index == Some(options[0])
      ensures sites == if |options| < 2 || site in old(sites) then old(sites) else old(sites)[site := options]
    {
      if options == [] {
        return None;
      }
      if |options| < 2 {
        return Some(options[0]);
      }
      if site !in sites {
        sites := sites[site := options];
      }
      return Some(if site in choices && choices[site] in options then choices[site] else options[0]);
    }

    method Build(schema: Schema, mode: Mode, at: Position, notNull: bool) returns (built: Built)
      requires Bounded(at.stack, components.Keys)
      modifies this
      ensures old(refusals) <= refusals && old(expanded) <= expanded
      ensures Keeps(built, schema, at, old(refusals) < refusals)
      ensures IsLeaf(schema) ==> built == LeafOf(schema, mode, at.name, hash)
      ensures nulls && !notNull && TakesNull(schema) ==> built == Ok(Some(Nothing))
      decreases Budget(at.stack), schema, 2
    {
      match schema
      case Ref(name) => built := BuildRef(name, mode, at, notNull);
      case AnyOf(branches) => built := BuildUnion(branches, mode, at, notNull);
      case TypeList(options) => built := BuildTypeList(options, mode, at, notNull);
      case Object(properties, required, additional) =>
        built := BuildObject(properties, required, additional, mode, at);
      case Array(items, minItems, maxItems) => built := BuildArray(items, minItems, maxItems, mode, at);
      case _ =>
        LeafConforms(Budget(at.stack), schema, mode, at.name, components, hash);
        built := LeafOf(schema, mode, at.name, hash);
    }

    method BuildRef(name: string, mode: Mode, at: Position, notNull: bool) returns (built: Built)
      requires Bounded(at.stack, components.Keys)
      modifies this
      ensures old(refusals) <= refusals && old(expanded) <= expanded
      ensures Keeps(built, Ref(name), at, old(refusals) < refusals)
      ensures name !in components ==> built == Err(UnresolvableReference)
      ensures name in components && Occurrences(at.stack, name) >= MAXIMUM_REPEATS ==>
        built == Ok(None) && refusals == old(refusals) + 1 && expanded == old(expanded) && sites == old(sites)
      ensures name in components && Occurrences(at.stack, name) < MAXIMUM_REPEATS ==> name in expanded
      decreases Budget(at.stack), Ref(name), 0
    {
      hide Ranked, RanksBelow;
      if name !in components {
        return Err(UnresolvableReference);
      }
      var target := components[name];
      if Ranked(components, rank) && RanksBelow(Ref(name), at.stack, rank) {
        RanksBelowTarget(name, at.stack, components, rank);
      }
      if Occurrences(at.stack, name) >= MAXIMUM_REPEATS {
        refusals := refusals + 1;
        return Ok(None);
      }
      var repeated := mode.Full? && target.Object? && name in expanded;
      expanded := expanded + {name};
      PushKeepsBound(at.stack, name, components.Keys);
      built := Build(
        target, if repeated then Minimal else mode, Position(name, "", at.stack + [name], at.name), notNull);
    }

    method BuildUnion(branches: seq<Schema>, mode: Mode, at: Position, notNull: bool) returns (built: Built)
      requires Bounded(at.stack, components.Keys)
      modifies this
      ensures old(refusals) <= refusals && old(expanded) <= expanded
      ensures Keeps(built, AnyOf(branches), at, old(refusals) < refusals)
      ensures nulls && !notNull && TakesNull(AnyOf(branches)) ==> built == Ok(Some(Nothing))
      decreases Budget(at.stack), AnyOf(branches), 0
    {
      hide Bounded, Consistent, Conforms;
      var nullable := FirstNull(branches, 0);
      NullConforms(Budget(at.stack), branches, components);
      if nulls && nullable.Some? && !notNull {
        return Ok(Some(Nothing));
      }
      var options := OptionsBut(|branches|, nullable);
      SomeBranchIsOption(Budget(at.stack), branches, nullable, at.name, components, hash);
      var index := Choose(at.owner + at.local, options);
      assert index.Some? ==> Refs(branches[index.value]) <= Refs(AnyOf(branches));
      if index.None? {
        return Err(UnsupportedSchema);
      }
      built := Build(branches[index.value], mode, at, false);
      BranchConforms(Budget(at.stack), branches, index.value, built, at.name, components, hash);
      if built == Ok(None) && nullable.Some? {
        built := Ok(Some(Nothing));
      }
    }

    method BuildTypeList(options: seq<Schema>, mode: Mode, at: Position, notNull: bool) returns (built: Built)
      requires Bounded(at.stack, components.Keys)
      modifies this
      ensures old(refusals) <= refusals && old(expanded) <= expanded
      ensures Keeps(built, TypeList(options), at, old(refusals) < refusals)
      ensures nulls && !notNull && TakesNull(TypeList(options)) ==> built == Ok(Some(Nothing))
      decreases Budget(at.stack), TypeList(options), 0
    {
      hide Bounded, Consistent, Conforms;
      var nullable := FirstNull(options, 0);
      NullConforms(Budget(at.stack), options, components);
      if nulls && nullable.Some? && !notNull {
        return Ok(Some(Nothing));
      }
      var types := NotNull(options);
      if types == [] {
        NoTypes(Budget(at.stack), options, at.name, components, hash);
        return Ok(Some(Nothing));
      }
      var index := Choose(at.owner + at.local, Indices(|types|));
      assert types[index.value] in options;
      ghost var i :| 0 <= i < |options| && options[i] == types[index.value];
      assert Refs(options[i]) <= Refs(TypeList(options));
      built := Build(types[index.value], mode, at, false);
      BranchConforms(Budget(at.stack), options, i, built, at.name, components, hash);
      if built == Ok(None) && nullable.Some? {
        built := Ok(Some(Nothing));
      }
    }
  
    method BuildObject(
        properties: seq<Property>, required: set<string>, additional: Additional, mode: Mode, at: Position)
      returns (built: Built)
      requires Bounded(at.stack, components.Keys)
      modifies this
      ensures old(refusals) <= refusals && old(expanded) <= expanded
      ensures Keeps(built, Object(properties, required, additional), at, old(refusals) < refusals)
      ensures built.Ok? && built.value.Some? ==>
        && built.value.value.Record?
        && HoldsFields(built.value.value.fields, properties, required, mode, old(refusals) == refusals)
      decreases Budget(at.stack), Object(properties, required, additional), 1
    {
      hide Consistent, Conforms, FieldsConform, Filled, Bounded;
      ghost var n := Budget(at.stack);
      var schema := Object(properties, required, additional);
      var fields: map<string, Value> := map[];
      NothingFilled(n, properties, required, mode, components);
      var i := 0;
      while i < |properties|
        invariant 0 <= i <= |properties|
        invariant old(refusals) <= refusals && old(expanded) <= expanded
        invariant Filled(fields, properties, i, required, mode, old(refusals) == refusals)
        invariant Ranked(components, rank) && RanksBelow(schema, at.stack, rank) ==> old(refusals) == refusals
        invariant Consistent(n, schema, at.name, components, hash) ==>
          FieldsConform(n, fields, properties, i, components)
      {
        var key, property := properties[i].key, properties[i].schema;
        if mode.Minimal? && key !in required {
          FieldSkipped(n, fields, i, mode, old(refusals) == refusals, schema, at.name, components, hash);
          i := i + 1;
          continue;
        }
        ghost var unrefused := old(refusals) == refusals;
        assert Refs(property) <= Refs(schema);
        var item := Build(property, mode, Position(at.owner, at.local + "." + key, at.stack, Some(key)), false);
        if item.Err? {
          FieldBuilt(n, fields, i, mode, unrefused, item, false, schema, at.name, components, hash);
          return item;
        }
        if item.value.None? && key in required {
          return Ok(None);
        }
        FieldBuilt(n, fields, i, mode, unrefused, item, old(refusals) == refusals, schema, at.name, components, hash);
        if item.value.Some? {
          fields := fields[key := item.value.value];
        }
        i := i + 1;
      }
      RequiredHasProperty(n, schema, fields, mode, old(refusals) == refusals, at.name, components, hash);
      if !(required <= fields.Keys) {
        return Err(RequiredHasNoSchema);
      }
      built := BuildAdditional(fields, schema, mode, at);
    }

    /** Adds an entry under an ID key to a full object that is also a map. */
    method BuildAdditional(fields: map<string, Value>, schema: Schema, mode: Mode, at: Position) returns (built: Built)
      requires Bounded(at.stack, components.Keys)
      requires schema.Object? && schema.required <= fields.Keys <= Keys(schema.properties)
      requires Consistent(Budget(at.stack), schema, at.name, components, hash) ==>
        FieldsConform(Budget(at.stack), fields, schema.properties, |schema.properties|, components)
      modifies this
      ensures old(refusals) <= refusals && old(expanded) <= expanded
      ensures Keeps(built, schema, at, old(refusals) < refusals)
      ensures built.Ok? ==>
        && built.value.Some? && built.value.value.Record?
        && fields.Keys <= built.value.value.fields.Keys
        && (mode.Minimal? ==> built.value.value.fields == fields)
      decreases Budget(at.stack), schema, 0
    {
      hide Consistent, Conforms, FieldsConform, Bounded;
      ghost var n := Budget(at.stack);
      if !(mode.Full? && schema.additional.Keyed?) {
        PlainObjectConforms(n, fields, schema, at.name, components, hash);
        return Ok(Some(Record(fields)));
      }
      if !schema.additional.supportedKeys {
        KeysAreSupported(n, schema, at.name, components, hash);
        return Err(UnsupportedKeys);
      }
      var key := SnowflakeOf(at.name, hash);
      assert Refs(schema.additional.schema) <= Refs(schema);
      var item := Build(schema.additional.schema, mode, Position(at.owner, at.local + ".*", at.stack, at.name), false);
      ObjectConforms(n, fields, key, item, schema, at.name, components, hash);
      if item.Err? {
        return item;
      }
      built := Ok(Some(Record(if item.value.Some? then fields[key := item.value.value] else fields)));
    }

    method BuildArray(items: Schema, minItems: Option<nat>, maxItems: Option<nat>, mode: Mode, at: Position)
      returns (built: Built)
      requires Bounded(at.stack, components.Keys)
      modifies this
      ensures old(refusals) <= refusals && old(expanded) <= expanded
      ensures Keeps(built, Array(items, minItems, maxItems), at, old(refusals) < refusals)
      decreases Budget(at.stack), Array(items, minItems, maxItems), 0
    {
      hide Conforms, Consistent, Ranked, RanksBelow;
      ghost var n := Budget(at.stack);
      ghost var consistent := Consistent(n, Array(items, minItems, maxItems), at.name, components, hash);
      ArrayParts(n, items, minItems, maxItems, at, components, hash, rank);
      var minimum := OrElse(minItems, 0);
      var wanted := if mode.Full? then Max(1, minimum) else minimum;
      var count := if maxItems.Some? then Min(wanted, maxItems.value) else wanted;
      var list: seq<Value> := [];
      while |list| < count
        invariant |list| <= count
        invariant old(refusals) <= refusals && old(expanded) <= expanded
        invariant consistent ==> forall i | 0 <= i < |list| :: Conforms(n, list[i], items, components)
        invariant Ranked(components, rank) && RanksBelow(items, at.stack, rank) ==> old(refusals) == refusals
      {
        var item := Build(items, mode, Position(at.owner, at.local + "[]", at.stack, at.name), false);
        if item.Err? {
          return item;
        }
        if item.value.None? {
          ListConforms(n, [], items, minItems, maxItems, components);
          return if minimum == 0 then Ok(Some(List([]))) else Ok(None);
        }
        list := list + [item.value.value];
      }
      ListConforms(n, list, items, minItems, maxItems, components);
      return Ok(Some(List(list)));
    }
  }

  lemma ArrayParts(
      n: nat, items: Schema, minItems: Option<nat>, maxItems: Option<nat>, at: Position, components: Components,
      hash: Hash, rank: string -> nat)
    ensures Consistent(n, Array(items, minItems, maxItems), at.name, components, hash) ==>
      && (maxItems.Some? ==> OrElse(minItems, 0) <= maxItems.value)
      && Consistent(n, items, at.name, components, hash)
    ensures RanksBelow(Array(items, minItems, maxItems), at.stack, rank) <==> RanksBelow(items, at.stack, rank)
  {}

  lemma ListConforms(
      n: nat, list: seq<Value>, items: Schema, minItems: Option<nat>, maxItems: Option<nat>, components: Components)
    ensures LengthFits(|list|, minItems, maxItems) && (forall i | 0 <= i < |list| :: Conforms(n, list[i], items, components))
      ==> Conforms(n, List(list), Array(items, minItems, maxItems), components)
  {}

  /** A minimal object holds what is required and no more, a full one every property that could be built. */
  predicate HoldsFields(
      fields: map<string, Value>, properties: seq<Property>, required: set<string>, mode: Mode, unrefused: bool)
  {
    && required <= fields.Keys
    && (mode.Minimal? ==> fields.Keys == required)
    && (mode.Full? && unrefused ==> Keys(properties) <= fields.Keys)
  }

  // ---------------------------------------------------------------- the fields of an object

  /** Each of the first properties that is present conforms. */
  ghost predicate FieldsConform(
      n: nat, fields: map<string, Value>, properties: seq<Property>, count: nat, components: Components)
    requires count <= |properties|
  {
    forall i | 0 <= i < count && properties[i].key in fields ::
      Conforms(n, fields[properties[i].key], properties[i].schema, components)
  }

  /** The fields after the first properties: which are there, by what is required and what could be built. */
  predicate Filled(
      fields: map<string, Value>, properties: seq<Property>, count: nat, required: set<string>, mode: Mode,
      unrefused: bool)
    requires count <= |properties|
  {
    var keys := Keys(properties[..count]);
    && keys * required <= fields.Keys <= keys
    && (mode.Minimal? ==> fields.Keys <= required)
    && (mode.Full? && unrefused ==> keys <= fields.Keys)
  }

  lemma NothingFilled(n: nat, properties: seq<Property>, required: set<string>, mode: Mode, components: Components)
    ensures Filled(map[], properties, 0, required, mode, true)
    ensures FieldsConform(n, map[], properties, 0, components)
  {
    assert Keys(properties[..0]) == {};
  }

  lemma KeysAfter(properties: seq<Property>, i: nat)
    requires i < |properties|
    ensures Keys(properties[..i + 1]) == Keys(properties[..i]) + {properties[i].key}
  {
    assert forall j | 0 <= j < i :: properties[..i + 1][j] == properties[..i][j];
    assert properties[..i + 1][i] == properties[i];
  }

  lemma {:induction false} FieldSkipped(
      n: nat, fields: map<string, Value>, i: nat, mode: Mode, unrefused: bool, schema: Schema,
      name: Option<string>, components: Components, hash: Hash)
    requires schema.Object? && i < |schema.properties|
    requires mode.Minimal? && schema.properties[i].key !in schema.required
    requires Filled(fields, schema.properties, i, schema.required, mode, unrefused)
    requires Consistent(n, schema, name, components, hash) ==>
      FieldsConform(n, fields, schema.properties, i, components)
    ensures Filled(fields, schema.properties, i + 1, schema.required, mode, unrefused)
    ensures Consistent(n, schema, name, components, hash) ==>
      FieldsConform(n, fields, schema.properties, i + 1, components)
  {
    hide Conforms;
    KeysAfter(schema.properties, i);
    KeyIsNew(n, fields, i, schema, name, components, hash);
  }

  /** An object has each key once, so a property's key is in no field before it is built. */
  lemma {:induction false} KeyIsNew(
      n: nat, fields: map<string, Value>, i: nat, schema: Schema, name: Option<string>, components: Components,
      hash: Hash)
    requires schema.Object? && i < |schema.properties| && fields.Keys <= Keys(schema.properties[..i])
    ensures Consistent(n, schema, name, components, hash) ==> schema.properties[i].key !in fields
  {
    assert forall j | 0 <= j < i :: schema.properties[..i][j] == schema.properties[j];
  }

  lemma {:induction false} FieldBuilt(
      n: nat, fields: map<string, Value>, i: nat, mode: Mode, unrefused: bool, item: Built, unrefusedAfter: bool,
      schema: Schema, name: Option<string>, components: Components, hash: Hash)
    requires schema.Object? && i < |schema.properties|
    requires mode.Full? || schema.properties[i].key in schema.required
    requires Filled(fields, schema.properties, i, schema.required, mode, unrefused)
    requires unrefusedAfter ==> unrefused && item != Ok(None)
    requires Consistent(n, schema, name, components, hash) ==>
      FieldsConform(n, fields, schema.properties, i, components)
    requires var property := schema.properties[i];
      Consistent(n, property.schema, Some(property.key), components, hash) ==>
        item.Ok? && (item.value.Some? ==> Conforms(n, item.value.value, property.schema, components))
    ensures Consistent(n, schema, name, components, hash) ==> item.Ok?
    ensures item.Ok? && (item.value.Some? || schema.properties[i].key !in schema.required) ==>
      var after := if item.value.Some? then fields[schema.properties[i].key := item.value.value] else fields;
      && Filled(after, schema.properties, i + 1, schema.required, mode, unrefusedAfter)
      && (Consistent(n, schema, name, components, hash) ==>
            FieldsConform(n, after, schema.properties, i + 1, components))
  {
    hide Conforms, Consistent;
    PropertyConsistent(n, schema, i, name, components, hash);
    KeysAfter(schema.properties, i);
    KeyIsNew(n, fields, i, schema, name, components, hash);
  }

  lemma PropertyConsistent(
      n: nat, schema: Schema, i: nat, name: Option<string>, components: Components, hash: Hash)
    requires schema.Object? && i < |schema.properties|
    ensures Consistent(n, schema, name, components, hash) ==>
      && UniqueProperties(schema.properties)
      && Consistent(n, schema.properties[i].schema, Some(schema.properties[i].key), components, hash)
  {}

  lemma {:induction false} RequiredHasProperty(
      n: nat, schema: Schema, fields: map<string, Value>, mode: Mode, unrefused: bool, name: Option<string>,
      components: Components, hash: Hash)
    requires schema.Object?
    requires Filled(fields, schema.properties, |schema.properties|, schema.required, mode, unrefused)
    ensures fields.Keys <= Keys(schema.properties)
    ensures Consistent(n, schema, name, components, hash) ==> schema.required <= fields.Keys
    ensures schema.required <= fields.Keys ==> HoldsFields(fields, schema.properties, schema.required, mode, unrefused)
  {
    assert schema.properties[..|schema.properties|] == schema.properties;
  }

  lemma KeysAreSupported(n: nat, schema: Schema, name: Option<string>, components: Components, hash: Hash)
    requires schema.Object? && schema.additional.Keyed?
    ensures Consistent(n, schema, name, components, hash) ==> schema.additional.supportedKeys
  {}

  lemma {:induction false} PlainObjectConforms(
      n: nat, fields: map<string, Value>, schema: Schema, name: Option<string>, components: Components, hash: Hash)
    requires schema.Object? && schema.required <= fields.Keys <= Keys(schema.properties)
    requires Consistent(n, schema, name, components, hash) ==>
      FieldsConform(n, fields, schema.properties, |schema.properties|, components)
    ensures Consistent(n, schema, name, components, hash) ==> Conforms(n, Record(fields), schema, components)
  {}

  lemma {:induction false} ObjectConforms(
      n: nat, fields: map<string, Value>, key: string, item: Built, schema: Schema, name: Option<string>,
      components: Components, hash: Hash)
    requires schema.Object? && schema.additional.Keyed? && schema.required <= fields.Keys <= Keys(schema.properties)
    requires key == SnowflakeOf(name, hash)
    requires Consistent(n, schema, name, components, hash) ==>
      && FieldsConform(n, fields, schema.properties, |schema.properties|, components)
      && (Consistent(n, schema.additional.schema, name, components, hash) ==>
            item.Ok? && (item.value.Some? ==> Conforms(n, item.value.value, schema.additional.schema, components)))
    ensures Consistent(n, schema, name, components, hash) ==>
      && item.Ok?
      && (item.value.None? ==> Conforms(n, Record(fields), schema, components))
      && (item.value.Some? ==> Conforms(n, Record(fields[key := item.value.value]), schema, components))
  {
    if Consistent(n, schema, name, components, hash) && item.Ok? && item.value.Some? {
      var after := fields[key := item.value.value];
      forall i | 0 <= i < |schema.properties| && schema.properties[i].key in after
        ensures Conforms(n, after[schema.properties[i].key], schema.properties[i].schema, components)
      {
        assert schema.properties[i].key in Keys(schema.properties);
      }
    }
  }

  function FirstNull(schemas: seq<Schema>, from: nat): (index: Option<nat>)
    requires from <= |schemas|
    ensures index.Some? ==> from <= index.value < |schemas| && schemas[index.value].NullType?
    ensures index.None? ==> forall i | from <= i < |schemas| :: !schemas[i].NullType?
    decreases |schemas| - from
  {
    if from == |schemas| then None
    else if schemas[from].NullType? then Some(from)
    else FirstNull(schemas, from + 1)
  }

  function Indices(count: nat): (indices: seq<nat>)
    ensures |indices| == count && forall i | 0 <= i < count :: indices[i] == i
  {
    seq(count, i requires 0 <= i < count => i)
  }

  /** The indices below a count, but for one. */
  function OptionsBut(count: nat, excluded: Option<nat>): (options: seq<nat>)
    ensures forall i :: i in options <==> 0 <= i < count && Some(i) != excluded
  {
    if count == 0 then []
    else OptionsBut(count - 1, excluded) + if Some(count - 1) == excluded then [] else [count - 1]
  }

  lemma SomeBranchIsOption(
      n: nat, branches: seq<Schema>, nullable: Option<nat>, name: Option<string>, components: Components, hash: Hash)
    requires nullable.Some? ==> nullable.value < |branches| && branches[nullable.value].NullType?
    ensures Consistent(n, AnyOf(branches), name, components, hash) ==> OptionsBut(|branches|, nullable) != []
  {
    if i :| 0 <= i < |branches| && !branches[i].NullType? {
      assert i in OptionsBut(|branches|, nullable);
    }
  }

  lemma NoTypes(n: nat, options: seq<Schema>, name: Option<string>, components: Components, hash: Hash)
    requires NotNull(options) == []
    ensures Consistent(n, TypeList(options), name, components, hash) ==>
      Conforms(n, Nothing, TypeList(options), components)
  {
    if options != [] {
      assert options[0] in options && options[0] !in NotNull(options);
      assert Conforms(n, Nothing, options[0], components);
    }
  }

  lemma NullConforms(n: nat, branches: seq<Schema>, components: Components)
    ensures NullType in branches ==>
      Conforms(n, Nothing, AnyOf(branches), components) && Conforms(n, Nothing, TypeList(branches), components)
  {
    if NullType in branches {
      var i :| 0 <= i < |branches| && branches[i] == NullType;
      assert Conforms(n, Nothing, branches[i], components);
    }
  }

  /** A value built for one branch does for the union. */
  lemma {:induction false} BranchConforms(
      n: nat, branches: seq<Schema>, i: nat, built: Built, name: Option<string>, components: Components, hash: Hash)
    requires i < |branches|
    requires Consistent(n, branches[i], name, components, hash) ==>
      built.Ok? && (built.value.Some? ==> Conforms(n, built.value.value, branches[i], components))
    ensures Consistent(n, AnyOf(branches), name, components, hash) ==>
      built.Ok? && (built.value.Some? ==> Conforms(n, built.value.value, AnyOf(branches), components))
    ensures Consistent(n, TypeList(branches), name, components, hash) ==>
      built.Ok? && (built.value.Some? ==> Conforms(n, built.value.value, TypeList(branches), components))
  {}

  function NotNull(options: seq<Schema>): (types: seq<Schema>)
    ensures forall option :: option in types <==> option in options && !option.NullType?
  {
    if options == [] then []
    else (if options[0].NullType? then [] else [options[0]]) + NotNull(options[1..])
  }

  // ---------------------------------------------------------------- one example

  lemma {:induction false} RootIsBounded(root: string, names: set<string>)
    requires root in names
    ensures Bounded([root], names) && |[root]| <= MAXIMUM_REPEATS * |names|
  {
    assert [root][1..] == [];
    assert names == (names - {root}) + {root};
  }

  /**
   * One example of a root schema: a value that conforms, unless the recursion bound leaves none, as
   * it can in a document with cycles only.
   */
  method Generate(
      components: Components, hash: Hash, root: string, mode: Mode, nulls: bool, choices: map<string, nat>,
      ghost rank: string -> nat)
    returns (result: Result<Value, Fault>, sites: map<string, seq<nat>>)
    ensures root !in components ==> result == Err(UnresolvableReference)
    ensures root in components ==>
      var n := MAXIMUM_REPEATS * |components.Keys| - 1;
      n >= 0 && (Consistent(n, components[root], None, components, hash) ==>
        && (result.Ok? ==> Conforms(n, result.value, components[root], components))
        && (result.Err? ==> result == Err(Unbuildable) && !Ranked(components, rank)))
  {
    sites := map[];
    if root !in components {
      return Err(UnresolvableReference), sites;
    }
    RootIsBounded(root, components.Keys);
    var generator := new Generator(components, hash, nulls, choices, root, rank);
    var built := generator.Build(components[root], mode, Position(root, "", [root], None), false);
    sites := generator.sites;
    if built.Err? {
      return Err(built.error), sites;
    }
    result := if built.value.Some? then Ok(built.value.value) else Err(Unbuildable);
  }

  // ---------------------------------------------------------------- bounds the generator overlooks

  predicate IntegerConforms(least: Option<int>, most: Option<int>, mode: Mode) {
    var n := IntegerOf(least, most, mode);
    AtLeast(n, least) && AtMost(n, most)
  }

  predicate NumberConforms(minimum: Option<real>, maximum: Option<real>, mode: Mode) {
    RealFits(NumberOf(minimum, maximum, mode), minimum, maximum)
  }

  predicate GeneratedTextConforms(text: TextSchema, mode: Mode, name: Option<string>, hash: Hash) {
    var result := TextOf(text, mode, name, hash);
    result.Ok? && TextConforms(result.value, text)
  }

  /** Consistency of single values is no more than the generated ones need: each condition is exact. */
  lemma SuitsExactly(
      least: Option<int>, most: Option<int>, minimum: Option<real>, maximum: Option<real>, text: TextSchema,
      name: Option<string>, hash: Hash)
    ensures IntegerSuits(least, most) <==> IntegerConforms(least, most, Minimal) && IntegerConforms(least, most, Full)
    ensures NumberSuits(minimum, maximum) <==>
      NumberConforms(minimum, maximum, Minimal) && NumberConforms(minimum, maximum, Full)
    ensures TextSuits(text, name, hash) <==>
      GeneratedTextConforms(text, Minimal, name, hash) && GeneratedTextConforms(text, Full, name, hash)
  {
    hide TextOf, TextConforms, PatternSuits, BoundsSuit;
    TextConformance(text, Minimal, name, hash);
    TextConformance(text, Full, name, hash);
  }

  /** Number schemas that some value conforms to, and the generated one does not. */
  lemma OverlookedNumbers(components: Components)
    ensures !NumberConforms(Some(2.0), None, Full) && Conforms(0, Numeric(2.0), Number(Some(2.0), None), components)
    ensures !IntegerConforms(None, Some(-5), Minimal)
      && Conforms(0, Numeric((-5) as real), Integer(None, Some(-5)), components)
  {
    assert ((-5) as real).Floor == -5;
  }

  function LimitedText(limit: nat): TextSchema {
    TextSchema(NoFormat, NoPattern, None, Some(limit), None)
  }

  /** Text schemas that the empty text conforms to, and the generated one does not. */
  lemma OverlookedLengths(components: Components, hash: Hash)
    ensures !GeneratedTextConforms(LimitedText(0), Full, None, hash)
    ensures !GeneratedTextConforms(LimitedText(8), Full, Some("sent_at"), hash)
    ensures Conforms(0, Words(""), Text(LimitedText(0)), components)
    ensures Conforms(0, Words(""), Text(LimitedText(8)), components)
  {
    PlainTextLength(LimitedText(0), None);
    var name := "sent_at";
    assert name[4..] == "_at" && name[4..][1] != "_id"[1] && name[3..][1] != "_ids"[1];
  }
}
