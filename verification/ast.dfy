/** The parts of a TypeScript syntax tree that the synchroniser looks at.

    A service source is a list of function declarations; the typings module is the
    list of type aliases inside `declare namespace API { ... }`. Only the node
    shapes the scanner tests for are distinguished; every other shape is one
    catch-all constructor. */
module Ast {
  import opened Wrappers

  /** The name of a type reference: `API.Foo` is `Qualified("API", "Foo")`,
      a bare `Foo` (or `Foo<Bar>`, kept as its whole text) is `Identifier`. */
  datatype TypeName = Qualified(left: string, right: string) | Identifier(id: string)

  /** A type annotation: a type reference, an array type `T[]`, or anything else
      (keyword types, unions, literals, function types, ...). */
  datatype TypeExpr =
    | Reference(name: TypeName)
    | ArrayOf(element: TypeExpr)
    | OtherType

  /** A member of a type literal: a property signature `p?: T` with its annotation
      (`OtherType` when it has none), or any other member kind (methods, index
      signatures), which the scanner ignores. */
  datatype Member = PropertySignature(annotation: TypeExpr) | OtherMember

  /** What a type alias node holds as its fourth child: a type literal `{ ... }` with
      its members, or something else. A plain `type X = { ... }` has the literal
      there; an exported or generic alias, or one whose type is not a literal, does not. */
  datatype AliasBody = TypeLiteral(members: seq<Member>) | OtherBody

  /** A type alias of the typings module. `text` is the type's source text (the
      `type` field of its structure); `body` is the parsed shape of the same type. */
  datatype TypeAlias = TypeAlias(name: string, text: string, body: AliasBody)

  /** The first return statement of a function body: none at all, one whose
      expression is a call with the given type arguments `f<...>(...)`, or one
      returning anything else. */
  datatype ReturnStmt = NoReturn | ReturnCall(typeArgs: seq<TypeExpr>) | ReturnOther

  /** A function declaration of a service source: one type annotation per
      parameter (`OtherType` when absent) and its first return statement. */
  datatype FunctionDecl = FunctionDecl(params: seq<TypeExpr>, ret: ReturnStmt)

  /** The source text of a reference name, as `getText()` prints it. */
  function Text(n: TypeName): string {
    match n
    case Qualified(l, r) => l + "." + r
    case Identifier(id) => id
  }

  /** The type reference found in an annotation, directly or one array level down:
      the `TypeReference` child of the node, else that of its `ArrayType` child.
      `Foo[][]` yields nothing. */
  function ReferenceIn(t: TypeExpr): (r: Option<TypeName>)
    ensures r.Some? <==> t.Reference? || (t.ArrayOf? && t.element.Reference?)
    ensures t.Reference? ==> r == Some(t.name)
    ensures t.ArrayOf? && t.element.Reference? ==> r == Some(t.element.name)
  {
    match t
    case Reference(n) => Some(n)
    case ArrayOf(Reference(n)) => Some(n)
    case _ => None
  }

  /** The names of some aliases, position by position. */
  function Names(ds: seq<TypeAlias>): (r: seq<string>)
    ensures |r| == |ds|
    ensures forall i :: 0 <= i < |ds| ==> r[i] == ds[i].name
  {
    seq(|ds|, i requires 0 <= i < |ds| => ds[i].name)
  }
}
