/**
  The part of a Rust source file the promotion tool reads and rewrites, as
  abstract syntax: struct and enum declarations, the paths and types that
  appear in an `impl` header, the bodies the code synthesizer emits, and the
  top-level items of a file. Field types are opaque labels: the tool never
  looks inside them.
*/
module RustSyntax {
  import opened Wrappers

  type Ident = string

  /** A field's type as written in the declaration (`f64`, `B`, `Vec<bool>`, ...). */
  type TypeLabel = string

  // ---------------------------------------------------------------------
  // Declarations (syn's ItemStruct, ItemEnum, Variant, Fields)
  // ---------------------------------------------------------------------

  datatype Field = Field(ident: Ident, ty: TypeLabel)

  /** The three shapes of a struct body or of an enum variant. */
  datatype Fields =
    | Named(named: seq<Field>)            // `{ a: T, b: U }`
    | Unnamed(unnamed: seq<TypeLabel>)    // `(T, U)`
    | Unit                                // no fields at all

  datatype ItemStruct = ItemStruct(ident: Ident, fields: Fields)

  datatype Variant = Variant(ident: Ident, fields: Fields)

  datatype ItemEnum = ItemEnum(ident: Ident, variants: seq<Variant>)

  /** The field names of a named-field body, in declaration order. */
  function FieldIdents(fields: seq<Field>): (r: seq<Ident>)
    ensures |r| == |fields|
    ensures forall i :: 0 <= i < |fields| ==> r[i] == fields[i].ident
  {
    seq(|fields|, i requires 0 <= i < |fields| => fields[i].ident)
  }

  // ---------------------------------------------------------------------
  // Paths and types in an impl header (syn's Path, PathSegment, Type)
  // ---------------------------------------------------------------------

  datatype Path = Path(leadingColon: bool, segments: seq<PathSegment>)

  datatype PathSegment = PathSegment(ident: Ident, arguments: PathArguments)

  datatype PathArguments =
    | NoArguments
    | AngleBracketed(args: seq<GenericArgument>)   // `<A, B>`
    | Parenthesized                                // `Fn(A) -> B`

  datatype GenericArgument =
    | TypeArgument(ty: Type)
    | LifetimeArgument
    | ConstArgument
    | OtherArgument          // associated type bindings and constraints

  datatype Type =
    | TypePath(path: Path)
    | OtherType              // references, tuples, slices, ...

  /** A path of one plain segment: `ident`. */
  function SimplePath(ident: Ident): Path {
    Path(false, [PathSegment(ident, NoArguments)])
  }

  // ---------------------------------------------------------------------
  // The code the synthesizer emits
  // ---------------------------------------------------------------------

  /** The receiver of a `.migrate()` call: `self.f` or a name bound by a match arm. */
  datatype Place = SelfField(field: Ident) | Binding(name: Ident)

  /** `field: source.migrate()` in a struct or struct-variant literal. */
  datatype FieldInit = FieldInit(field: Ident, source: Place)

  /** The pattern of a match arm; every pattern path is `prev::Enum::Variant`. */
  datatype Pattern =
    | NamedPattern(enumIdent: Ident, variant: Ident, bindings: seq<Ident>)   // `prev::E::V { a, b }`
    | TuplePattern(enumIdent: Ident, variant: Ident, bindings: seq<Ident>)   // `prev::E::V(x, y)`
    | UnitPattern(enumIdent: Ident, variant: Ident)                          // `prev::E::V`

  /** The value a match arm builds; every path is `Enum::Variant`. */
  datatype Construct =
    | NamedConstruct(enumIdent: Ident, variant: Ident, inits: seq<FieldInit>)  // `E::V { a: a.migrate() }`
    | TupleConstruct(enumIdent: Ident, variant: Ident, args: seq<Place>)       // `E::V(x.migrate())`
    | UnitConstruct(enumIdent: Ident, variant: Ident)                          // `E::V`

  datatype Arm = Arm(pattern: Pattern, result: Construct)

  /** The body of a generated `fn migrate(self) -> T`. */
  datatype FnBody =
    | StructLiteral(ident: Ident, inits: seq<FieldInit>)   // `T { f: self.f.migrate(), }`
    | MatchSelf(arms: seq<Arm>)                            // `match self { arms }`

  /** The items of an impl block: a generated `migrate` or code a developer wrote. */
  datatype ImplItems =
    | MigrateFn(output: Ident, body: FnBody)
    | Handwritten(code: string)

  /** `impl [trait_ for] selfTy { items }`; `trait_` is None for an inherent impl. */
  datatype ItemImpl = ItemImpl(trait_: Option<Path>, selfTy: Type, items: ImplItems)

  /** A top-level item of a source file. */
  datatype Item =
    | Struct(s: ItemStruct)
    | Enum(e: ItemEnum)
    | Impl(i: ItemImpl)
    | Use(tree: string)
    | Other(text: string)     // functions, traits, macros, modules, ...
}
