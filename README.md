# Definition-document validator, modelled in Dafny

This project models the pre-filter and validator that the GraphQL library
(`@neo4j/graphql`) runs on a user's type definitions before it builds any
schema object: `filterDocument` and `validateDocument` in
`packages/graphql/src/schema/validation/validate-document.ts`.

The validator does the following:

- It checks the name of every object, scalar, interface, union, enum and input-object definition against a reserved-name table. The first hit is a fatal error.
- It collects the names of the non-root object types. These are the "nodes".
- It removes arguments and input fields whose type looks like a generated input of a node (`MovieWhere`, `MovieCreateInput`, ...).
- It removes fields whose type looks like a generated mutation response of a node (`CreateMoviesMutationResponse`).
- It removes `@auth` directives from fields, objects and interfaces.
- It drops input objects, objects and interfaces whose field list ends up empty or absent.
- It extends a base schema with the result (`extendSchema`). If the filtered document is not valid SDL (an unknown type or directive, a duplicate name), `extendSchema` throws its own error. That error fails the call unchanged, and the query-root filter never sees it.
- Otherwise it runs graphql-js schema validation on the extended schema. The diagnostic "Query root type must be provided." is ignored. Any other diagnostic fails the call, and the failure message is the string forms of all of them joined with newlines.

Files:

- `ast.dfy` (module `Ast`): the definition document. It has type references with list and non-null wrappers, directives, input values, fields, the six checked definition kinds, and one catch-all for every other kind. Properties the validator copies without reading are kept in an `info` list, so "everything else unchanged" is stated as equality.
- `name_patterns.dfy` (module `NamePatterns`): the two regular expressions, run with the semantics of JavaScript `exec`. The match is unanchored and starts at the leftmost position where any match exists. The `.+` group is greedy, and `.` matches any character except `\n`, `\r`, U+2028 and U+2029. One engine handles both patterns, because both have the shape "fixed alternatives, greedy group, fixed alternatives".
- `validate_document.dfy` (module `DocumentValidation`): the reserved-name check, node names, `getArgumentType`, the two collision filters, `@auth` stripping, the definition `reduce`, `filterDocument` and `validateDocument`.
- `seqs.dfy` (module `Seqs`): `Array.prototype.filter`, `join` and the `reduce` that appends at most one value per step, with their laws.
- `results.dfy` (module `Results`): `Option`, `Result` and `Outcome`. A thrown `Error` becomes `Err`/`Fail` carrying the message.

How the code behaves, as the model states it:

- **The input-name pattern is not anchored.** A suffix does not have to end the type name. `BookWhereClause` gives the node name `Book`. The group is the longest non-empty prefix that some suffix follows (`NodeInputNameIsLongestPrefix`).
- **The `ConnectWhere` alternative never decides the result.** `ConnectWhere` ends in `Where`, and the greedy group always reaches that later `Where`. So `<Node>ConnectWhere` gives `<Node>Connect`, not `<Node>` (`ConnectWhereName`). An argument typed `MovieConnectWhere` is therefore kept even when `Movie` is a node, unless `MovieConnect` is a node name too. The other nine suffixes round-trip (`GeneratedInputName`).
- **The missing-query-root diagnostic is always discarded.** Line 184 drops every "Query root type must be provided." diagnostic, whatever the document holds.
- **The joined failure message uses each error's string form.** `join` turns each `GraphQLError` into a string with `toString`, not with `message`. A diagnostic therefore has both a `message` (used by the filter) and a `text` (used by the join).

## Model

| member | source | states |
|---|---|---|
| Seqs.Filter | packages/graphql/src/schema/validation/validate-document.ts:87 | `filter` keeps exactly the elements its test accepts and is never longer than its input |
| Seqs.FilterAppend | packages/graphql/src/schema/validation/validate-document.ts:87 | `filter` distributes over concatenation, so kept elements keep their order |
| Seqs.Join | packages/graphql/src/schema/validation/validate-document.ts:187 | `join` of no parts is the empty string, of one part is that part, and always starts with the first part |
| Seqs.JoinAppend | packages/graphql/src/schema/validation/validate-document.ts:187 | joining two non-empty lists is joining each and putting one separator between them |
| Seqs.Collect | packages/graphql/src/schema/validation/validate-document.ts:124 | the `reduce` that appends at most one value per definition never yields more values than it reads |
| NamePatterns.LineEnd | packages/graphql/src/schema/validation/validate-document.ts:90 | the greedy `.+` from a position reaches exactly the next line terminator or the end, and every character it passes is matched by `.` |
| NamePatterns.LastTrail | packages/graphql/src/schema/validation/validate-document.ts:90 | backtracking the greedy group finds the last position in the reachable range where a trailing alternative occurs, or reports that none does |
| NamePatterns.MatchFrom | packages/graphql/src/schema/validation/validate-document.ts:89-92 | the reported match really matches, no match starts earlier, and no longer group exists from the same start; no report means no match at any later start |
| NamePatterns.ExecGroup | packages/graphql/src/schema/validation/validate-document.ts:89-93 | `exec(...).groups.nodeName` is absent exactly when the pattern matches nowhere; otherwise it is the non-empty group of the leftmost, greedy match |
| NamePatterns.NodeInputName | packages/graphql/src/schema/validation/validate-document.ts:89-93 | the node name the ten-suffix pattern captures: absent iff no match, else the group of the exec match |
| NamePatterns.MutationResponseName | packages/graphql/src/schema/validation/validate-document.ts:107-108 | the group the Create-or-Update mutation response pattern captures: absent iff no match, else the text between the verb and `MutationResponse` of the exec match |
| NamePatterns.NodeInputNameIsLongestPrefix | packages/graphql/src/schema/validation/validate-document.ts:89-93 | on a single-line name the node name is the longest non-empty prefix directly followed by one of the ten suffixes (the suffix need not end the name); absent iff no such prefix |
| NamePatterns.MutationResponseNameAfterVerb | packages/graphql/src/schema/validation/validate-document.ts:107-108 | on a single-line name starting with `Create` or `Update`, the group runs from after the verb to the last `MutationResponse`; absent iff there is none |
| NamePatterns.GeneratedInputName | packages/graphql/src/schema/validation/validate-document.ts:89-93 | a generated name `<node><suffix>` gives back `<node>`, for every suffix except `ConnectWhere` |
| NamePatterns.ConnectWhereName | packages/graphql/src/schema/validation/validate-document.ts:90 | `<node>ConnectWhere` gives `<node>Connect`: the `ConnectWhere` alternative never decides the result |
| NamePatterns.GeneratedMutationResponseName | packages/graphql/src/schema/validation/validate-document.ts:107-108 | `Create<plural>MutationResponse` and `Update<plural>MutationResponse` give back `<plural>` |
| DocumentValidation.FirstReserved | packages/graphql/src/schema/validation/validate-document.ts:57-61 | the first reserved entry, in table order, whose test accepts the name; none iff no entry accepts it |
| DocumentValidation.FirstViolation | packages/graphql/src/schema/validation/validate-document.ts:47-62 | the first (definition, entry) pair in document order, then table order, where a definition of one of the six type kinds has a reserved name; none iff there is no such pair |
| DocumentValidation.ReservedNameError | packages/graphql/src/schema/validation/validate-document.ts:48-62 | the check throws iff some type definition has a reserved name, and the message is the error of the first matching entry for the first offending definition; other definition kinds are never checked |
| DocumentValidation.NodeNames | packages/graphql/src/schema/validation/validate-document.ts:64-71 | a name is a node name iff some object type definition that is not a root type has it; there are never more names than definitions |
| DocumentValidation.NodeNamesAppend | packages/graphql/src/schema/validation/validate-document.ts:47-71 | node names are collected definition by definition, so the list follows document order |
| DocumentValidation.NodeNamesSingle | packages/graphql/src/schema/validation/validate-document.ts:64-69 | one definition contributes its name iff it is a non-root object type; interfaces, unions, enums, inputs and root types contribute nothing |
| DocumentValidation.Plurals | packages/graphql/src/schema/validation/validate-document.ts:109 | a name is in `nodeNames.map(pluralize)` iff it is the plural of some node name |
| DocumentValidation.ArgumentType | packages/graphql/src/schema/validation/validate-document.ts:73-83 | the unwrapped name is the one that, put back under the reference's own list and non-null wrappers, rebuilds the reference |
| DocumentValidation.Wrapped | packages/graphql/src/schema/validation/validate-document.ts:73-83 | wrapping a name in a sequence of list and non-null wrappers gives a reference whose wrappers are exactly that sequence |
| DocumentValidation.ArgumentTypeOfWrapped | packages/graphql/src/schema/validation/validate-document.ts:73-83 | unwrapping returns the named type's name under any sequence of list and non-null wrappers, and a bare named type's own name |
| DocumentValidation.CollidesWithNode | packages/graphql/src/schema/validation/validate-document.ts:86-99 | an input value collides iff the group of the input-name pattern's `exec` match on its unwrapped type name is a node name |
| DocumentValidation.GeneratedInputCollides | packages/graphql/src/schema/validation/validate-document.ts:85-97 | an input value typed `<node><suffix>` under any wrappers collides when `<node>` is a node, for every suffix except `ConnectWhere` |
| DocumentValidation.FilterInputValues | packages/graphql/src/schema/validation/validate-document.ts:85-101 | an absent list stays absent; a value is kept iff its type does not name a generated input of a node; the result is empty iff every value collides |
| DocumentValidation.FilterInputValuesAppend | packages/graphql/src/schema/validation/validate-document.ts:86-100 | input values are filtered one by one, so the kept ones keep their order |
| DocumentValidation.CollidesWithMutation | packages/graphql/src/schema/validation/validate-document.ts:105-114 | a field collides iff the group of the mutation-response pattern's `exec` match on its unwrapped type name is the plural of a node name |
| DocumentValidation.GeneratedResponseCollides | packages/graphql/src/schema/validation/validate-document.ts:103-112 | a field typed `Create<plural>MutationResponse` or `Update<plural>MutationResponse` under any wrappers collides when `<plural>` is `pluralize` of a node name |
| DocumentValidation.StripAuth | packages/graphql/src/schema/validation/validate-document.ts:118 | an absent list stays absent; a directive is kept iff it is not named `auth`, and the result is never longer than the input |
| DocumentValidation.StripAuthAppend | packages/graphql/src/schema/validation/validate-document.ts:118 | directives are stripped one by one, so the kept ones keep their order |
| DocumentValidation.TrimField | packages/graphql/src/schema/validation/validate-document.ts:115-119 | a surviving field keeps its name, type and other properties; its arguments are exactly the input-value filter of its arguments and its directives exactly its directives with `auth` removed, so their order and count follow those filters |
| DocumentValidation.TrimFields | packages/graphql/src/schema/validation/validate-document.ts:115-119 | the kept fields are trimmed position by position into new field values: same length, and each position holds the trimmed field from that position |
| DocumentValidation.TrimFieldsAppend | packages/graphql/src/schema/validation/validate-document.ts:115-119 | trimming works field by field |
| DocumentValidation.FilterFields | packages/graphql/src/schema/validation/validate-document.ts:103-120 | an absent list stays absent; every non-colliding field appears trimmed, every output field is the trimmed form of a non-colliding input field, and the result is empty iff every field collides |
| DocumentValidation.FilterFieldsAppend | packages/graphql/src/schema/validation/validate-document.ts:103-120 | fields are filtered and trimmed one by one, so the kept ones keep their order |
| DocumentValidation.FilterDefinition | packages/graphql/src/schema/validation/validate-document.ts:125-158 | one step of the `reduce` emits a scalar, enum, union or other definition unchanged, and never changes a definition's kind group or its other properties |
| DocumentValidation.FilterDefinitionCases | packages/graphql/src/schema/validation/validate-document.ts:125-158 | input objects, objects and interfaces are dropped iff their field list is absent or every field collides; otherwise they are re-emitted with only the fields (and, for objects and interfaces, the `auth` directives) changed; every other kind passes through unchanged |
| DocumentValidation.FilterDefinitions | packages/graphql/src/schema/validation/validate-document.ts:124-159 | the output holds exactly the definitions the steps emit and is never longer than the input |
| DocumentValidation.FilterDefinitionsAppend | packages/graphql/src/schema/validation/validate-document.ts:124-159 | the `reduce` works definition by definition, so output order follows input order |
| DocumentValidation.PassThroughUnchanged | packages/graphql/src/schema/validation/validate-document.ts:124-159 | a document with no input object, object or interface definitions is returned unchanged |
| DocumentValidation.TrimFieldTwice | packages/graphql/src/schema/validation/validate-document.ts:115-119 | a trimmed field has nothing left to trim |
| DocumentValidation.TrimFieldsTwice | packages/graphql/src/schema/validation/validate-document.ts:103-120 | trimmed surviving fields still survive and need no more trimming |
| DocumentValidation.FilterFieldsTwice | packages/graphql/src/schema/validation/validate-document.ts:103-120 | filtering an already filtered field list with the same names changes nothing |
| DocumentValidation.FilterInputValuesTwice | packages/graphql/src/schema/validation/validate-document.ts:85-101 | filtering already filtered input values with the same node names changes nothing |
| DocumentValidation.StripAuthTwice | packages/graphql/src/schema/validation/validate-document.ts:118 | removing `auth` directives twice is removing them once |
| DocumentValidation.FilterDefinitionTwice | packages/graphql/src/schema/validation/validate-document.ts:125-158 | an emitted definition is emitted unchanged by a second step with the same names |
| DocumentValidation.FilterDefinitionsTwice | packages/graphql/src/schema/validation/validate-document.ts:122-160 | with the node names held fixed, the filtered definitions contain nothing more to strip |
| DocumentValidation.DocumentNames | packages/graphql/src/schema/validation/validate-document.ts:47-109 | the node names are exactly the names of the non-root object types of the whole unfiltered document, and the plurals are exactly their `pluralize` images, one per node name |
| DocumentValidation.FilterDocument | packages/graphql/src/schema/validation/validate-document.ts:46-161 | fails iff some type definition has a reserved name, with the first error; otherwise keeps the document's other properties, filters its definitions, never adds one, and keeps every pass-through definition |
| DocumentValidation.Reported | packages/graphql/src/schema/validation/validate-document.ts:184 | a diagnostic is reported iff its message is not "Query root type must be provided."; nothing is reported iff every diagnostic is that one; never more are reported than were given |
| DocumentValidation.Texts | packages/graphql/src/schema/validation/validate-document.ts:187 | the string form `join` takes of each diagnostic, one per diagnostic, in order |
| DocumentValidation.ReportedAppend | packages/graphql/src/schema/validation/validate-document.ts:184 | diagnostics are filtered one by one, so the reported ones keep the order schema validation gave them |
| DocumentValidation.TextsAppend | packages/graphql/src/schema/validation/validate-document.ts:187 | string forms are taken one diagnostic at a time, in order |
| DocumentValidation.ValidateDocument | packages/graphql/src/schema/validation/validate-document.ts:163-189 | a reserved-name failure is returned before any schema is built; an error thrown while extending the schema is returned unchanged; otherwise the call passes iff every `validateSchema` diagnostic is the missing-query-root one, and a failure's message is the string forms of the reported diagnostics joined with newlines |
| DocumentValidation.ValidationMessageLines | packages/graphql/src/schema/validation/validate-document.ts:184-188 | when the schema builds and no diagnostic's string form spans lines, splitting the failure message at newlines gives back the reported diagnostics' string forms, in order |

## Left out

- graphql-js schema construction, `extendSchema` and `validateSchema` (`validate-document.ts:166-182`) belong to a foreign library. They are the parameter `schemaDiagnostics` of `ValidateDocument`, a function from the filtered document to a `Result`. `Err` carries the message of the error `extendSchema` throws (graphql-js joins its SDL errors' messages with blank lines). `Ok` carries the diagnostics of `validateSchema`.
- The built-in scalars, enums, directives and point types that seed the base schema (`validate-document.ts:34-42`, `:167-177`) are static tables with no logic. They exist only inside `schemaDiagnostics`.
- `pluralize`, `RESERVED_TYPE_NAMES` and `isRootType` are defined in other files, which are not part of this model. They are fields of `Env`: an arbitrary total function, a sequence of (test, message) pairs, and an arbitrary predicate on definitions.
- A reserved-name entry's test is modelled as a pure predicate. If one of those regexes had the `g` flag, its `test` would depend on `lastIndex` state. The table is not part of this model, so this case cannot be checked.
- Only the two fixed patterns of the validator are modelled, not JavaScript regular expressions in general.
- AST properties the validator never reads (locations, descriptions, default values, interfaces, union members, enum values, argument values of directives) are opaque `info` lists. The model does not describe them further.
- GraphQL name syntax is not enforced, so names are arbitrary strings. The pattern lemmas that describe the result as a prefix assume a name without line terminators, which every GraphQL name satisfies. The general contracts cover every string.
- The schema generator, the Cypher translator and the index assertor are separate components of the library and are not modelled.
- Exceptions are values. `filterDocument` and `validateDocument` return `Result` and `Outcome` instead of throwing.
- The `kind` of an `OtherDefinition` is not constrained. A value whose tag names one of the six explicit kinds does not represent a real definition, because such definitions always have their own constructor. The model treats every `OtherDefinition` as pass-through whatever its tag says.
