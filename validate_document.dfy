/**
 * The definition-document pre-filter and validator run on the user's type
 * definitions before any schema object is built (`filterDocument` and
 * `validateDocument`).
 *
 * Collaborators defined elsewhere are parameters: the reserved-name table,
 * the root-type test and `pluralize` form an `Env`, and graphql-js schema
 * construction plus `validateSchema` is a function from the filtered
 * document to a `Result`: `Err` is the error `extendSchema` throws on a
 * document that is not valid SDL, `Ok` the diagnostics of `validateSchema`.
 */
module DocumentValidation {
  import opened Ast
  import opened Results
  import opened Seqs
  import opened NamePatterns

  /** One entry of the reserved type-name table: its regex test and the error it raises. */
  datatype ReservedName = ReservedName(matches: string -> bool, error: string)

  datatype Env = Env(
    reservedTypeNames: seq<ReservedName>,
    isRootType: Definition -> bool,
    pluralize: string -> string)

  /** A diagnostic of schema validation: `message`, and its string form used by `join`. */
  datatype Diagnostic = Diagnostic(message: string, text: string)

  /** The one diagnostic `validateDocument` discards. */
  const QueryRootMissing := "Query root type must be provided."

  // ---------------------------------------------------------------- reserved names

  /** The definition kinds whose names are checked against the reserved table. */
  predicate IsTypeDefinition(d: Definition) {
    !d.OtherDefinition?
  }

  /** The first entry of `table` at or after `from` whose test accepts `name`. */
  function FirstReserved(table: seq<ReservedName>, name: string, from: nat): (r: Option<nat>)
    requires from <= |table|
    ensures r.Some? ==> from <= r.value < |table| && table[r.value].matches(name)
    ensures r.Some? ==> forall k :: from <= k < r.value ==> !table[k].matches(name)
    ensures r.None? ==> forall k :: from <= k < |table| ==> !table[k].matches(name)
    decreases |table| - from
  {
    if from == |table| then None
    else if table[from].matches(name) then Some(from)
    else FirstReserved(table, name, from + 1)
  }

  /** A type definition at `defIndex` whose name is accepted by reserved entry `entry`. */
  ghost predicate Violates(table: seq<ReservedName>, defs: seq<Definition>, defIndex: int, entry: int) {
    && 0 <= defIndex < |defs|
    && IsTypeDefinition(defs[defIndex])
    && 0 <= entry < |table|
    && table[entry].matches(defs[defIndex].name)
  }

  /**
   * The reserved-name check over `defs[from..]`: definitions are visited in
   * order and, for each type definition, the table in order; the result is
   * the first (definition, entry) pair whose test accepts the name.
   */
  function FirstViolation(table: seq<ReservedName>, defs: seq<Definition>, from: nat): (r: Option<(nat, nat)>)
    requires from <= |defs|
    ensures r.Some? ==> from <= r.value.0 && Violates(table, defs, r.value.0, r.value.1)
    ensures r.Some? ==> forall d, e :: from <= d < r.value.0 ==> !Violates(table, defs, d, e)
    ensures r.Some? ==> forall e :: 0 <= e < r.value.1 ==> !Violates(table, defs, r.value.0, e)
    ensures r.None? ==> forall d, e :: from <= d ==> !Violates(table, defs, d, e)
    decreases |defs| - from
  {
    if from == |defs| then None
    else
      var entry := if IsTypeDefinition(defs[from]) then FirstReserved(table, defs[from].name, 0) else None;
      match entry
      case Some(e) => Some((from, e))
      case None => FirstViolation(table, defs, from + 1)
  }

  /** The message of the error the reserved-name check throws, if it throws. */
  function ReservedNameError(table: seq<ReservedName>, defs: seq<Definition>): (r: Option<string>)
    ensures r.None? <==> forall d, e :: !Violates(table, defs, d, e)
    ensures r.Some? ==> exists d, e ::
      && Violates(table, defs, d, e) && r.value == table[e].error
      && (forall d', e' :: 0 <= d' < d ==> !Violates(table, defs, d', e'))
      && (forall e' :: 0 <= e' < e ==> !Violates(table, defs, d, e'))
  {
    match FirstViolation(table, defs, 0)
    case Some((d, e)) => Some(table[e].error)
    case None => None
  }

  // ---------------------------------------------------------------- node names

  /** Object types that are not root types: the definitions the generator turns into nodes. */
  predicate IsNode(env: Env, d: Definition) {
    d.ObjectTypeDefinition? && !env.isRootType(d)
  }

  /** `nodeNames`: the names of the node definitions, in document order. */
  function NodeNames(env: Env, defs: seq<Definition>): (r: seq<string>)
    ensures |r| <= |defs|
    ensures forall n :: n in r <==> exists k :: 0 <= k < |defs| && IsNode(env, defs[k]) && defs[k].name == n
  {
    if defs == [] then []
    else
      var rest := NodeNames(env, defs[1..]);
      assert forall k :: 0 < k < |defs| ==> defs[k] == defs[1..][k - 1];
      if IsNode(env, defs[0]) then [defs[0].name] + rest else rest
  }

  /** Node names are collected definition by definition: in document order, nothing else. */
  lemma {:induction false} NodeNamesAppend(env: Env, a: seq<Definition>, b: seq<Definition>)
    ensures NodeNames(env, a + b) == NodeNames(env, a) + NodeNames(env, b)
  {
    if a == [] {
      assert a + b == b;
    } else {
      assert (a + b)[1..] == a[1..] + b;
      NodeNamesAppend(env, a[1..], b);
    }
  }

  /** A single definition contributes its name exactly when it is a node. */
  lemma NodeNamesSingle(env: Env, d: Definition)
    ensures NodeNames(env, [d]) == if IsNode(env, d) then [d.name] else []
  {
    assert [d][1..] == [];
  }

  /** `nodeNames.map(pluralize)`. */
  function Plurals(env: Env, nodeNames: seq<string>): (r: seq<string>)
    ensures |r| == |nodeNames|
    ensures forall n :: n in r <==> exists k :: 0 <= k < |nodeNames| && env.pluralize(nodeNames[k]) == n
  {
    if nodeNames == [] then []
    else
      var rest := Plurals(env, nodeNames[1..]);
      assert forall k :: 0 < k < |nodeNames| ==> nodeNames[k] == nodeNames[1..][k - 1];
      [env.pluralize(nodeNames[0])] + rest
  }

  // ---------------------------------------------------------------- argument types

  /**
   * `getArgumentType`: the name of the named type under all list and non-null
   * wrappers; `t` is exactly its own wrappers around that name.
   */
  function ArgumentType(t: TypeRef): (r: string)
    ensures Wrapped(Wrappers(t), r) == t
  {
    match t
    case ListType(inner) =>
      assert ([List] + Wrappers(inner))[1..] == Wrappers(inner);
      ArgumentType(inner)
    case NonNullType(inner) =>
      assert ([NonNull] + Wrappers(inner))[1..] == Wrappers(inner);
      ArgumentType(inner)
    case NamedType(name) => name
  }

  /** A wrapper around a type reference. */
  datatype Wrapper = List | NonNull

  /** The type reference obtained by applying `ws` (outermost first) around the named type `name`. */
  function Wrapped(ws: seq<Wrapper>, name: string): (r: TypeRef)
    ensures Wrappers(r) == ws
  {
    if ws == [] then NamedType(name)
    else if ws[0] == List then ListType(Wrapped(ws[1..], name))
    else NonNullType(Wrapped(ws[1..], name))
  }

  /** The wrappers of `t`, outermost first. */
  function Wrappers(t: TypeRef): (ws: seq<Wrapper>) {
    match t
    case ListType(inner) => [List] + Wrappers(inner)
    case NonNullType(inner) => [NonNull] + Wrappers(inner)
    case NamedType(_) => []
  }

  /** Unwrapping returns the innermost name, however many wrappers of either kind surround it. */
  lemma {:induction false} ArgumentTypeOfWrapped(ws: seq<Wrapper>, name: string)
    ensures ArgumentType(Wrapped(ws, name)) == name
  {
    if ws != [] {
      ArgumentTypeOfWrapped(ws[1..], name);
    }
  }

  // ---------------------------------------------------------------- input values

  /**
   * An input value whose type name looks like a generated input (`<Node>Where`,
   * ...) of an existing node: the group of the pattern's `exec` match on the
   * unwrapped type name is a node name.
   */
  function CollidesWithNode(nodeNames: seq<string>, v: InputValueDef): (r: bool)
    ensures r <==> exists i, j ::
      IsExecMatch(NodeInputPattern, ArgumentType(v.typeRef), i, j) && ArgumentType(v.typeRef)[i..j] in nodeNames
  {
    var t := ArgumentType(v.typeRef);
    match NodeInputName(t)
    case Some(node) =>
      node in nodeNames
    case None => false
  }

  /**
   * An input value typed with a generated input of an existing node, under any
   * wrappers (`[MovieWhere!]!` when `Movie` is a node), is a collision.
   */
  lemma GeneratedInputCollides(nodeNames: seq<string>, v: InputValueDef, ws: seq<Wrapper>, node: string, suffix: string)
    requires node in nodeNames && |node| > 0 && SingleLine(node)
    requires suffix in NodeInputSuffixes && suffix != "ConnectWhere"
    requires v.typeRef == Wrapped(ws, node + suffix)
    ensures CollidesWithNode(nodeNames, v)
  {
    ArgumentTypeOfWrapped(ws, node + suffix);
    GeneratedInputName(node, suffix);
  }

  /** `filterInputTypes`: drops colliding input values; an absent list stays absent. */
  function FilterInputValues(nodeNames: seq<string>, vs: Option<seq<InputValueDef>>): (r: Option<seq<InputValueDef>>)
    ensures r.Some? <==> vs.Some?
    ensures r.Some? ==> |r.value| <= |vs.value|
    ensures r.Some? ==> forall v :: v in r.value <==> v in vs.value && !CollidesWithNode(nodeNames, v)
    ensures r.Some? ==> (|r.value| == 0 <==> forall v :: v in vs.value ==> CollidesWithNode(nodeNames, v))
  {
    match vs
    case None => None
    case Some(values) =>
      var kept := Filter(values, v => !CollidesWithNode(nodeNames, v));
      assert |kept| > 0 ==> kept[0] in kept;
      Some(kept)
  }

  /** Input values are filtered one by one, so the kept ones keep their order. */
  lemma FilterInputValuesAppend(nodeNames: seq<string>, a: seq<InputValueDef>, b: seq<InputValueDef>)
    ensures FilterInputValues(nodeNames, Some(a + b)).value ==
      FilterInputValues(nodeNames, Some(a)).value + FilterInputValues(nodeNames, Some(b)).value
  {
    FilterAppend(a, b, v => !CollidesWithNode(nodeNames, v));
  }

  // ---------------------------------------------------------------- fields

  /**
   * A field whose type looks like `Create<Plural>MutationResponse` or
   * `Update<Plural>MutationResponse` of an existing node: the group of the
   * pattern's `exec` match on the unwrapped type name is a node's plural.
   */
  function CollidesWithMutation(plurals: seq<string>, f: FieldDef): (r: bool)
    ensures r <==> exists i, j ::
      IsExecMatch(MutationResponsePattern, ArgumentType(f.typeRef), i, j) && ArgumentType(f.typeRef)[i + 6..j] in plurals
  {
    var t := ArgumentType(f.typeRef);
    match MutationResponseName(t)
    case Some(plural) =>
      plural in plurals
    case None => false
  }

  /**
   * A field typed with the create or update response of an existing node, under
   * any wrappers (`CreateMoviesMutationResponse!` when `Movie` is a node and
   * pluralises to `Movies`), is a collision.
   */
  lemma GeneratedResponseCollides(env: Env, nodeNames: seq<string>, f: FieldDef, ws: seq<Wrapper>, verb: string, node: string)
    requires verb == "Create" || verb == "Update"
    requires node in nodeNames
    requires |env.pluralize(node)| > 0 && SingleLine(env.pluralize(node))
    requires f.typeRef == Wrapped(ws, verb + env.pluralize(node) + "MutationResponse")
    ensures CollidesWithMutation(Plurals(env, nodeNames), f)
  {
    ArgumentTypeOfWrapped(ws, verb + env.pluralize(node) + "MutationResponse");
    GeneratedMutationResponseName(verb, env.pluralize(node));
    var k :| 0 <= k < |nodeNames| && nodeNames[k] == node;
    assert env.pluralize(nodeNames[k]) in Plurals(env, nodeNames);
  }

  predicate IsAuth(d: Directive) {
    d.name == "auth"
  }

  /** `directives?.filter((x) => !["auth"].includes(x.name.value))`. */
  function StripAuth(ds: Option<seq<Directive>>): (r: Option<seq<Directive>>)
    ensures r.Some? <==> ds.Some?
    ensures r.Some? ==> |r.value| <= |ds.value|
    ensures r.Some? ==> forall d :: d in r.value <==> d in ds.value && !IsAuth(d)
  {
    match ds
    case None => None
    case Some(directives) => Some(Filter(directives, d => !IsAuth(d)))
  }

  /** A surviving field: its arguments filtered and its `auth` directives removed, all else kept. */
  function TrimField(nodeNames: seq<string>, f: FieldDef): (g: FieldDef)
    ensures g.name == f.name && g.typeRef == f.typeRef && g.info == f.info
    ensures g.arguments == FilterInputValues(nodeNames, f.arguments) && g.directives == StripAuth(f.directives)
    ensures g.arguments.Some? <==> f.arguments.Some?
    ensures g.arguments.Some? ==> forall v :: v in g.arguments.value <==> v in f.arguments.value && !CollidesWithNode(nodeNames, v)
    ensures g.directives.Some? <==> f.directives.Some?
    ensures g.directives.Some? ==> forall d :: d in g.directives.value <==> d in f.directives.value && !IsAuth(d)
  {
    f.(arguments := FilterInputValues(nodeNames, f.arguments), directives := StripAuth(f.directives))
  }

  /** `.map(...)` over the kept fields. */
  function TrimFields(nodeNames: seq<string>, fs: seq<FieldDef>): (r: seq<FieldDef>)
    ensures |r| == |fs|
    ensures forall k :: 0 <= k < |fs| ==> r[k] == TrimField(nodeNames, fs[k])
  {
    if fs == [] then [] else [TrimField(nodeNames, fs[0])] + TrimFields(nodeNames, fs[1..])
  }

  /** Trimming works field by field. */
  lemma {:induction false} TrimFieldsAppend(nodeNames: seq<string>, a: seq<FieldDef>, b: seq<FieldDef>)
    ensures TrimFields(nodeNames, a + b) == TrimFields(nodeNames, a) + TrimFields(nodeNames, b)
  {
    if a == [] {
      assert a + b == b;
    } else {
      assert (a + b)[1..] == a[1..] + b;
      TrimFieldsAppend(nodeNames, a[1..], b);
    }
  }

  /** `filterFields`: drops colliding fields and trims the others, keeping their order. */
  function FilterFields(nodeNames: seq<string>, plurals: seq<string>, fs: Option<seq<FieldDef>>): (r: Option<seq<FieldDef>>)
    ensures r.Some? <==> fs.Some?
    ensures r.Some? ==> |r.value| <= |fs.value|
    ensures r.Some? ==> forall f :: f in fs.value && !CollidesWithMutation(plurals, f) ==> TrimField(nodeNames, f) in r.value
    ensures r.Some? ==> forall g :: g in r.value ==> exists f :: f in fs.value && !CollidesWithMutation(plurals, f) && g == TrimField(nodeNames, f)
    ensures r.Some? ==> (|r.value| == 0 <==> forall f :: f in fs.value ==> CollidesWithMutation(plurals, f))
  {
    match fs
    case None => None
    case Some(fields) =>
      var kept := Filter(fields, f => !CollidesWithMutation(plurals, f));
      var trimmed := TrimFields(nodeNames, kept);
      assert forall f :: f in kept ==> TrimField(nodeNames, f) in trimmed by {
        forall f | f in kept ensures TrimField(nodeNames, f) in trimmed {
          var k :| 0 <= k < |kept| && kept[k] == f;
          assert trimmed[k] == TrimField(nodeNames, f);
        }
      }
      assert forall g :: g in trimmed ==> exists f :: f in kept && g == TrimField(nodeNames, f) by {
        forall g | g in trimmed ensures exists f :: f in kept && g == TrimField(nodeNames, f) {
          var k :| 0 <= k < |trimmed| && trimmed[k] == g;
          assert kept[k] in kept;
        }
      }
      Some(trimmed)
  }

  /** Fields are filtered and trimmed one by one, so the kept ones keep their order. */
  lemma FilterFieldsAppend(nodeNames: seq<string>, plurals: seq<string>, a: seq<FieldDef>, b: seq<FieldDef>)
    ensures FilterFields(nodeNames, plurals, Some(a + b)).value ==
      FilterFields(nodeNames, plurals, Some(a)).value + FilterFields(nodeNames, plurals, Some(b)).value
  {
    var keep := f => !CollidesWithMutation(plurals, f);
    FilterAppend(a, b, keep);
    TrimFieldsAppend(nodeNames, Filter(a, keep), Filter(b, keep));
  }

  /** Directives are stripped one by one, so the kept ones keep their order. */
  lemma StripAuthAppend(a: seq<Directive>, b: seq<Directive>)
    ensures StripAuth(Some(a + b)).value == StripAuth(Some(a)).value + StripAuth(Some(b)).value
  {
    FilterAppend(a, b, d => !IsAuth(d));
  }

  // ---------------------------------------------------------------- definitions

  /** The names the collision filters compare against. */
  datatype Names = Names(nodeNames: seq<string>, plurals: seq<string>)

  /** One step of the definitions `reduce`: the definition to emit, or `None` to drop it. */
  function FilterDefinition(names: Names, d: Definition): (r: Option<Definition>)
    ensures PassesThrough(d) ==> r == Some(d)
    ensures r.Some? ==> r.value.info == d.info && PassesThrough(r.value) == PassesThrough(d)
  {
    match d
    case InputObjectTypeDefinition(name, directives, inputFields, info) =>
      var fields := FilterInputValues(names.nodeNames, inputFields);
      if fields.None? || |fields.value| == 0 then None
      else Some(InputObjectTypeDefinition(name, directives, fields, info))
    case ObjectTypeDefinition(name, directives, fields, info) =>
      var kept := FilterFields(names.nodeNames, names.plurals, fields);
      if kept.None? || |kept.value| == 0 then None
      else Some(ObjectTypeDefinition(name, StripAuth(directives), kept, info))
    case InterfaceTypeDefinition(name, directives, fields, info) =>
      var kept := FilterFields(names.nodeNames, names.plurals, fields);
      if kept.None? || |kept.value| == 0 then None
      else Some(InterfaceTypeDefinition(name, StripAuth(directives), kept, info))
    case _ => Some(d)
  }

  /**
   * What one step of the `reduce` does: input objects, objects and interfaces
   * are dropped exactly when their filtered field list is absent or empty and
   * are otherwise re-emitted with only the filtered parts replaced; every
   * other definition passes through unchanged.
   */
  lemma FilterDefinitionCases(names: Names, d: Definition)
    ensures d.InputObjectTypeDefinition? ==>
      (FilterDefinition(names, d).None? <==> d.inputFields.None? || forall v :: v in d.inputFields.value ==> CollidesWithNode(names.nodeNames, v))
    ensures d.InputObjectTypeDefinition? && FilterDefinition(names, d).Some? ==>
      FilterDefinition(names, d).value == InputObjectTypeDefinition(d.name, d.directives, FilterInputValues(names.nodeNames, d.inputFields), d.info)
    ensures (d.ObjectTypeDefinition? || d.InterfaceTypeDefinition?) ==>
      (FilterDefinition(names, d).None? <==> d.fields.None? || forall f :: f in d.fields.value ==> CollidesWithMutation(names.plurals, f))
    ensures d.ObjectTypeDefinition? && FilterDefinition(names, d).Some? ==>
      FilterDefinition(names, d).value == ObjectTypeDefinition(d.name, StripAuth(d.directives), FilterFields(names.nodeNames, names.plurals, d.fields), d.info)
    ensures d.InterfaceTypeDefinition? && FilterDefinition(names, d).Some? ==>
      FilterDefinition(names, d).value == InterfaceTypeDefinition(d.name, StripAuth(d.directives), FilterFields(names.nodeNames, names.plurals, d.fields), d.info)
    ensures !(d.InputObjectTypeDefinition? || d.ObjectTypeDefinition? || d.InterfaceTypeDefinition?) ==> FilterDefinition(names, d) == Some(d)
  {
  }

  /** The `reduce` over the definitions: every definition in order, each emitted or dropped. */
  function FilterDefinitions(names: Names, defs: seq<Definition>): (r: seq<Definition>)
    ensures |r| <= |defs|
    ensures forall k :: 0 <= k < |defs| && FilterDefinition(names, defs[k]).Some? ==>
      FilterDefinition(names, defs[k]).value in r
    ensures forall d :: d in r ==> exists k :: 0 <= k < |defs| && FilterDefinition(names, defs[k]) == Some(d)
  {
    var step := d => FilterDefinition(names, d);
    CollectMembers(defs, step);
    Collect(defs, step)
  }

  /** The `reduce` works definition by definition, so the output keeps the input's order. */
  lemma FilterDefinitionsAppend(names: Names, a: seq<Definition>, b: seq<Definition>)
    ensures FilterDefinitions(names, a + b) == FilterDefinitions(names, a) + FilterDefinitions(names, b)
  {
    CollectAppend(a, b, d => FilterDefinition(names, d));
  }

  /** Definitions the `reduce` copies through untouched. */
  predicate PassesThrough(d: Definition) {
    !(d.InputObjectTypeDefinition? || d.ObjectTypeDefinition? || d.InterfaceTypeDefinition?)
  }

  /** A document made only of scalars, enums, unions and other definitions comes out unchanged. */
  lemma PassThroughUnchanged(names: Names, defs: seq<Definition>)
    requires forall k :: 0 <= k < |defs| ==> PassesThrough(defs[k])
    ensures FilterDefinitions(names, defs) == defs
  {
    CollectKeepsAll(defs, d => FilterDefinition(names, d));
  }

  // ---------------------------------------------------------------- a second pass

  /** A trimmed field has nothing left to trim. */
  lemma TrimFieldTwice(nodeNames: seq<string>, f: FieldDef)
    ensures TrimField(nodeNames, TrimField(nodeNames, f)) == TrimField(nodeNames, f)
  {
    var g := TrimField(nodeNames, f);
    if g.arguments.Some? {
      FilterKeepsAll(g.arguments.value, v => !CollidesWithNode(nodeNames, v));
    }
    if g.directives.Some? {
      FilterKeepsAll(g.directives.value, d => !IsAuth(d));
    }
  }

  /** Trimming fields that survive the collision test yields fields that survive it and need no more trimming. */
  lemma {:induction false} TrimFieldsTwice(nodeNames: seq<string>, plurals: seq<string>, kept: seq<FieldDef>)
    requires forall k :: 0 <= k < |kept| ==> !CollidesWithMutation(plurals, kept[k])
    ensures Filter(TrimFields(nodeNames, kept), f => !CollidesWithMutation(plurals, f)) == TrimFields(nodeNames, kept)
    ensures TrimFields(nodeNames, TrimFields(nodeNames, kept)) == TrimFields(nodeNames, kept)
  {
    if kept != [] {
      var trimmed := TrimFields(nodeNames, kept);
      assert trimmed == [TrimField(nodeNames, kept[0])] + TrimFields(nodeNames, kept[1..]);
      assert trimmed[1..] == TrimFields(nodeNames, kept[1..]);
      TrimFieldTwice(nodeNames, kept[0]);
      TrimFieldsTwice(nodeNames, plurals, kept[1..]);
    }
  }

  /** Filtering a field list that was already filtered against the same names changes nothing. */
  lemma FilterFieldsTwice(nodeNames: seq<string>, plurals: seq<string>, fs: Option<seq<FieldDef>>)
    ensures FilterFields(nodeNames, plurals, FilterFields(nodeNames, plurals, fs)) == FilterFields(nodeNames, plurals, fs)
  {
    if fs.Some? {
      var keep := f => !CollidesWithMutation(plurals, f);
      var kept := Filter(fs.value, keep);
      assert forall k :: 0 <= k < |kept| ==> !CollidesWithMutation(plurals, kept[k]) by {
        forall k | 0 <= k < |kept| ensures !CollidesWithMutation(plurals, kept[k]) {
          assert kept[k] in kept;
        }
      }
      TrimFieldsTwice(nodeNames, plurals, kept);
    }
  }

  /** Filtering input values that were already filtered against the same node names changes nothing. */
  lemma FilterInputValuesTwice(nodeNames: seq<string>, vs: Option<seq<InputValueDef>>)
    ensures FilterInputValues(nodeNames, FilterInputValues(nodeNames, vs)) == FilterInputValues(nodeNames, vs)
  {
    if vs.Some? {
      FilterKeepsAll(FilterInputValues(nodeNames, vs).value, v => !CollidesWithNode(nodeNames, v));
    }
  }

  /** Removing `auth` directives twice is removing them once. */
  lemma StripAuthTwice(ds: Option<seq<Directive>>)
    ensures StripAuth(StripAuth(ds)) == StripAuth(ds)
  {
    if ds.Some? {
      FilterKeepsAll(StripAuth(ds).value, d => !IsAuth(d));
    }
  }

  /** A definition the `reduce` emitted is emitted unchanged by a second step with the same names. */
  lemma FilterDefinitionTwice(names: Names, d: Definition)
    requires FilterDefinition(names, d).Some?
    ensures FilterDefinition(names, FilterDefinition(names, d).value) == FilterDefinition(names, d)
  {
    match d
    case InputObjectTypeDefinition(name, directives, inputFields, info) =>
      var vs := FilterInputValues(names.nodeNames, inputFields);
      var e := InputObjectTypeDefinition(name, directives, vs, info);
      assert FilterDefinition(names, d) == Some(e);
      FilterInputValuesTwice(names.nodeNames, inputFields);
      assert FilterDefinition(names, e) == Some(e);
    case ObjectTypeDefinition(name, directives, fields, info) =>
      var kept := FilterFields(names.nodeNames, names.plurals, fields);
      var e := ObjectTypeDefinition(name, StripAuth(directives), kept, info);
      assert FilterDefinition(names, d) == Some(e);
      FilterFieldsTwice(names.nodeNames, names.plurals, fields);
      StripAuthTwice(directives);
      assert FilterDefinition(names, e) == Some(e);
    case InterfaceTypeDefinition(name, directives, fields, info) =>
      var kept := FilterFields(names.nodeNames, names.plurals, fields);
      var e := InterfaceTypeDefinition(name, StripAuth(directives), kept, info);
      assert FilterDefinition(names, d) == Some(e);
      FilterFieldsTwice(names.nodeNames, names.plurals, fields);
      StripAuthTwice(directives);
      assert FilterDefinition(names, e) == Some(e);
    case _ =>
  }

  /** With the node names held fixed, the filtered definitions hold nothing more to strip. */
  lemma FilterDefinitionsTwice(names: Names, defs: seq<Definition>)
    ensures FilterDefinitions(names, FilterDefinitions(names, defs)) == FilterDefinitions(names, defs)
  {
    var once := FilterDefinitions(names, defs);
    forall k | 0 <= k < |once| ensures FilterDefinition(names, once[k]) == Some(once[k]) {
      assert once[k] in once;
      var j :| 0 <= j < |defs| && FilterDefinition(names, defs[j]) == Some(once[k]);
      FilterDefinitionTwice(names, defs[j]);
    }
    CollectKeepsAll(once, d => FilterDefinition(names, d));
  }

  // ---------------------------------------------------------------- the document

  /** The names `filterDocument` computes from the whole, unfiltered document. */
  function DocumentNames(env: Env, doc: Document): (names: Names)
    ensures |names.plurals| == |names.nodeNames| <= |doc.definitions|
    ensures forall n :: n in names.nodeNames <==>
      exists k :: 0 <= k < |doc.definitions| && IsNode(env, doc.definitions[k]) && doc.definitions[k].name == n
    ensures forall p :: p in names.plurals <==> exists n :: n in names.nodeNames && env.pluralize(n) == p
  {
    var nodeNames := NodeNames(env, doc.definitions);
    Names(nodeNames, Plurals(env, nodeNames))
  }

  /**
   * `filterDocument`: fails with the first reserved-name error; otherwise the
   * document with its definitions filtered and its other properties kept.
   */
  function FilterDocument(env: Env, doc: Document): (r: Result<Document>)
    ensures r.Err? <==> exists d, e :: Violates(env.reservedTypeNames, doc.definitions, d, e)
    ensures r.Err? ==> Some(r.error) == ReservedNameError(env.reservedTypeNames, doc.definitions)
    ensures r.Ok? ==> r.value.info == doc.info
    ensures r.Ok? ==> |r.value.definitions| <= |doc.definitions|
    ensures r.Ok? ==> r.value.definitions == FilterDefinitions(DocumentNames(env, doc), doc.definitions)
    ensures r.Ok? ==> forall d :: d in doc.definitions && PassesThrough(d) ==> d in r.value.definitions
  {
    match ReservedNameError(env.reservedTypeNames, doc.definitions)
    case Some(message) => Err(message)
    case None =>
      var names := DocumentNames(env, doc);
      var defs := FilterDefinitions(names, doc.definitions);
      assert forall d :: d in doc.definitions && PassesThrough(d) ==> d in defs by {
        forall d | d in doc.definitions && PassesThrough(d) ensures d in defs {
          var k :| 0 <= k < |doc.definitions| && doc.definitions[k] == d;
        }
      }
      Ok(Document(defs, doc.info))
  }

  /** The string forms of diagnostics, in order. */
  function Texts(ds: seq<Diagnostic>): (r: seq<string>)
    ensures |r| == |ds|
    ensures forall k :: 0 <= k < |ds| ==> r[k] == ds[k].text
  {
    if ds == [] then [] else [ds[0].text] + Texts(ds[1..])
  }

  /** The diagnostics `validateDocument` reports: all but the missing-query-root one. */
  function Reported(diagnostics: seq<Diagnostic>): (r: seq<Diagnostic>)
    ensures |r| <= |diagnostics|
    ensures forall e :: e in r <==> e in diagnostics && e.message != QueryRootMissing
    ensures |r| == 0 <==> forall e :: e in diagnostics ==> e.message == QueryRootMissing
  {
    var reported := Filter(diagnostics, (e: Diagnostic) => e.message != QueryRootMissing);
    assert |reported| > 0 ==> reported[0] in reported;
    reported
  }

  /** Diagnostics are filtered one by one, so the reported ones keep the order schema validation gave them. */
  lemma ReportedAppend(a: seq<Diagnostic>, b: seq<Diagnostic>)
    ensures Reported(a + b) == Reported(a) + Reported(b)
  {
    FilterAppend(a, b, (e: Diagnostic) => e.message != QueryRootMissing);
  }

  /** String forms are taken one by one. */
  lemma {:induction false} TextsAppend(a: seq<Diagnostic>, b: seq<Diagnostic>)
    ensures Texts(a + b) == Texts(a) + Texts(b)
  {
    assert forall k :: 0 <= k < |a + b| ==> (a + b)[k].text == (Texts(a) + Texts(b))[k];
  }

  /**
   * `validateDocument`: the reserved-name failure comes first, before the
   * schema is built. `schemaDiagnostics` stands for graphql-js schema
   * construction and validation: `Err` is the error `extendSchema` throws
   * when the filtered document is not valid SDL, passed on unchanged;
   * `Ok` holds the diagnostics of `validateSchema`. The call then fails
   * exactly when a diagnostic other than the missing query root remains,
   * with their string forms joined by newlines.
   */
  function ValidateDocument(env: Env, schemaDiagnostics: Document -> Result<seq<Diagnostic>>, doc: Document): (r: Outcome)
    ensures FilterDocument(env, doc).Err? ==> r == Fail(FilterDocument(env, doc).error)
    ensures FilterDocument(env, doc).Ok? && schemaDiagnostics(FilterDocument(env, doc).value).Err? ==>
      r == Fail(schemaDiagnostics(FilterDocument(env, doc).value).error)
    ensures FilterDocument(env, doc).Ok? && schemaDiagnostics(FilterDocument(env, doc).value).Ok? ==>
      (r.Pass? <==> forall e :: e in schemaDiagnostics(FilterDocument(env, doc).value).value ==> e.message == QueryRootMissing)
    ensures FilterDocument(env, doc).Ok? && schemaDiagnostics(FilterDocument(env, doc).value).Ok? && r.Fail? ==>
      r.error == Join(Texts(Reported(schemaDiagnostics(FilterDocument(env, doc).value).value)), "\n")
  {
    match FilterDocument(env, doc)
    case Err(message) => Fail(message)
    case Ok(filtered) =>
      match schemaDiagnostics(filtered)
      case Err(message) => Fail(message)
      case Ok(diagnostics) =>
        var reported := Reported(diagnostics);
        if |reported| > 0 then Fail(Join(Texts(reported), "\n")) else Pass
  }

  /** When no diagnostic's string form spans lines, the failure message lists each reported diagnostic on its own line. */
  lemma ValidationMessageLines(env: Env, schemaDiagnostics: Document -> Result<seq<Diagnostic>>, doc: Document)
    requires FilterDocument(env, doc).Ok? && schemaDiagnostics(FilterDocument(env, doc).value).Ok?
    requires forall e :: e in schemaDiagnostics(FilterDocument(env, doc).value).value ==> '\n' !in e.text
    ensures ValidateDocument(env, schemaDiagnostics, doc).Fail? ==>
      Split(ValidateDocument(env, schemaDiagnostics, doc).error, '\n') == Texts(Reported(schemaDiagnostics(FilterDocument(env, doc).value).value))
  {
    var reported := Reported(schemaDiagnostics(FilterDocument(env, doc).value).value);
    if |reported| > 0 {
      var texts := Texts(reported);
      assert forall k :: 0 <= k < |texts| ==> '\n' !in texts[k] by {
        forall k | 0 <= k < |texts| ensures '\n' !in texts[k] {
          assert reported[k] in reported;
        }
      }
      SplitJoin(texts, '\n');
    }
  }
}
