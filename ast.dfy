/**
 * The part of a GraphQL type-definition document that the validator looks at.
 * Every node keeps the properties the validator never reads (description,
 * location, default value, implemented interfaces, union members, enum
 * values, ...) in an `info` list, so that "all other attributes unchanged"
 * can be stated as equality.
 */
module Ast {
  import opened Results

  /** The properties of an AST node that the validator copies without reading. */
  type Info = seq<(string, string)>

  /** A type reference: a named type, possibly wrapped in list and non-null wrappers. */
  datatype TypeRef =
    | NamedType(name: string)
    | ListType(ofType: TypeRef)
    | NonNullType(ofType: TypeRef)

  /** A directive application such as `@auth(rules: [...])`; its arguments live in `info`. */
  datatype Directive = Directive(name: string, info: Info)

  /** An argument of a field, or a field of an input object type. */
  datatype InputValueDef = InputValueDef(name: string, typeRef: TypeRef, info: Info)

  /** A field of an object or interface type; the two lists may be absent in the AST. */
  datatype FieldDef = FieldDef(
    name: string,
    typeRef: TypeRef,
    arguments: Option<seq<InputValueDef>>,
    directives: Option<seq<Directive>>,
    info: Info)

  /**
   * A definition of the document. The six type-definition kinds are explicit;
   * every other kind (directive definitions, schema definitions, type
   * extensions, operations, fragments) is `OtherDefinition` with its kind tag.
   * An `OtherDefinition` never carries one of the six explicit kinds as its
   * `kind`: a definition of those kinds is always its own constructor, so the
   * tag is only descriptive and nothing in the model reads it.
   */
  datatype Definition =
    | ObjectTypeDefinition(name: string, directives: Option<seq<Directive>>, fields: Option<seq<FieldDef>>, info: Info)
    | InterfaceTypeDefinition(name: string, directives: Option<seq<Directive>>, fields: Option<seq<FieldDef>>, info: Info)
    | InputObjectTypeDefinition(name: string, directives: Option<seq<Directive>>, inputFields: Option<seq<InputValueDef>>, info: Info)
    | ScalarTypeDefinition(name: string, directives: Option<seq<Directive>>, info: Info)
    | UnionTypeDefinition(name: string, directives: Option<seq<Directive>>, info: Info)
    | EnumTypeDefinition(name: string, directives: Option<seq<Directive>>, info: Info)
    | OtherDefinition(kind: string, otherName: Option<string>, info: Info)

  /** A document: its definitions in order, and its other properties. */
  datatype Document = Document(definitions: seq<Definition>, info: Info)
}
