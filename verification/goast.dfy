/** The part of a Go syntax tree (package `go/ast`) that the reader inspects. The
    parser itself is not modelled: these values are what it would hand over. */
module GoAst {
  import opened Results

  /** A type expression. */
  datatype Expr =
    | Ident(name: string)                       // `int64`, `Toy`
    | Selector(qualifier: string, sel: string)  // `second.Toy`, `context.Context`
    | ArrayType(elt: Expr)                      // `[]T`, and also `[N]T`: the length is never consulted
    | MapType(key: Expr, value: Expr)           // `map[K]V`
    | OtherExpr                                 // pointers, funcs, channels, struct and interface literals, ...

  /** A field of a struct, or a parameter or result of a function: `a, b T` has two
      names, an unnamed parameter or an embedded struct field has none. */
  datatype Field = Field(names: seq<string>, typ: Expr)

  /** A function type. The parser always supplies a parameter list, but leaves the
      result list nil (`None`) when the function declares no results. */
  datatype FuncType = FuncType(params: seq<Field>, results: Option<seq<Field>>)

  /** An entry of an interface: a method, or an embedded interface. */
  datatype InterfaceEntry =
    | Method(name: string, sig: FuncType)
    | Embedded(typ: Expr)

  /** The right-hand side of a type declaration. */
  datatype TypeBody =
    | StructType(fields: seq<Field>)
    | InterfaceType(entries: seq<InterfaceEntry>)
    | OtherType(underlying: Expr)               // `type Role int`, `type IDs []int64`, ...

  /** A type declaration `type Name Body`. */
  datatype TypeSpec = TypeSpec(name: string, body: TypeBody)

  /** A source file as the reader's walk meets it. Go's grammar puts every import
      before every other declaration, so the walk visits all import paths (as quoted
      literals) first, then the type declarations, including those local to function
      bodies, in source order. */
  datatype GoFile = GoFile(imports: seq<string>, specs: seq<TypeSpec>)
}
