/**
  What a freshly reset migration module does at run time: the "identity
  migration" a new alpha module starts as (migrations/alpha/src/lib.rs:1-5).

  Values of the module's types are trees: a leaf value of an opaque field
  type, a struct value, or an enum value with its variant. `Convert` runs
  `value.migrate()`: for a type the module declares it dispatches to the
  module's `impl MigrateInto<T> for prev::T` and evaluates its generated body,
  each `.migrate()` inside it recursively; for any other type it dispatches to
  the `migration_utils` crate. After a promotion the declarations of `prev`
  and of the new module are the same, so every call converts a value of
  `prev::T` into a `T` with the same label.

  The theorem: in a module that the reset pass leaves unchanged, where every
  declaration has its impl and every leaf field type has a reflexive
  instance, `migrate` returns its argument, field by field, all the way down.
*/
module IdentityMigration {
  import opened Wrappers
  import opened RustSyntax
  import opened Synthesis
  import opened Reset
  import MigrationUtils

  // ---------------------------------------------------------------------
  // Values
  // ---------------------------------------------------------------------

  datatype Value =
    | Leaf(ty: TypeLabel, repr: int)                          // a value of a type the module does not declare
    | StructValue(ident: Ident, payload: Payload)
    | EnumValue(ident: Ident, variant: Ident, payload: Payload)

  /** The contents of a struct or of an enum variant, in the shape of its declaration. */
  datatype Payload =
    | NamedPayload(fields: seq<FieldValue>)
    | TuplePayload(elems: seq<Value>)
    | UnitPayload

  datatype FieldValue = FieldValue(name: Ident, value: Value)

  /** The type label of a value. */
  function TypeOf(v: Value): TypeLabel {
    if v.Leaf? then v.ty else v.ident
  }

  function FieldValueNames(fvs: seq<FieldValue>): (r: seq<Ident>)
    ensures |r| == |fvs|
    ensures forall i :: 0 <= i < |fvs| ==> r[i] == fvs[i].name
  {
    seq(|fvs|, i requires 0 <= i < |fvs| => fvs[i].name)
  }

  // ---------------------------------------------------------------------
  // Lookups
  // ---------------------------------------------------------------------

  predicate Distinct(names: seq<Ident>) {
    forall i, j :: 0 <= i < j < |names| ==> names[i] != names[j]
  }

  /** The position of the first occurrence of `x`. */
  function IndexOf(names: seq<Ident>, x: Ident): (r: Option<nat>)
    ensures r.None? <==> x !in names
    ensures r.Some? ==> r.value < |names| && names[r.value] == x
    ensures r.Some? ==> forall j :: 0 <= j < r.value ==> names[j] != x
  {
    if |names| == 0 then None
    else if names[0] == x then Some(0)
    else
      match IndexOf(names[1..], x)
      case Some(j) => Some(j + 1)
      case None => None
  }

  /** Among pairwise different names, a name is found where it stands. */
  lemma IndexOfDistinct(names: seq<Ident>, i: nat)
    requires Distinct(names) && i < |names|
    ensures IndexOf(names, names[i]) == Some(i)
  {
  }

  /** The first variant with the given name. */
  function FindVariant(variants: seq<Variant>, ident: Ident): (r: Option<nat>)
    ensures r.None? <==> forall i :: 0 <= i < |variants| ==> variants[i].ident != ident
    ensures r.Some? ==> r.value < |variants| && variants[r.value].ident == ident
    ensures r.Some? ==> forall j :: 0 <= j < r.value ==> variants[j].ident != ident
  {
    if |variants| == 0 then None
    else if variants[0].ident == ident then Some(0)
    else
      match FindVariant(variants[1..], ident)
      case Some(j) => Some(j + 1)
      case None => None
  }

  predicate DeclaredIn(m: seq<Item>, ty: TypeLabel) {
    Declared(StructsOf(m), EnumsOf(m), ty)
  }

  /** The item is `impl MigrateInto<ty> for prev::ty`. */
  predicate Implements(item: Item, ty: Ident) {
    item.Impl? && item.i.trait_ == Some(MigrateIntoPath(ty)) && item.i.selfTy == PrevType(ty)
  }

  /** The impl a call `prev::ty`.migrate() -> `ty` resolves to: the module's first impl of that trait for that type. */
  function FindImpl(m: seq<Item>, ty: Ident): (r: Option<ItemImpl>)
    ensures r.None? <==> forall i :: 0 <= i < |m| ==> !Implements(m[i], ty)
    ensures r.Some? ==> Impl(r.value) in m && Implements(Impl(r.value), ty)
  {
    if |m| == 0 then None
    else if Implements(m[0], ty) then Some(m[0].i)
    else
      var r := FindImpl(m[1..], ty);
      assert forall i :: 1 <= i < |m| ==> m[i] == m[1..][i - 1];
      r
  }

  // ---------------------------------------------------------------------
  // Evaluation
  // ---------------------------------------------------------------------

  /**
    `v.migrate()` into the type of the same label. A declared type dispatches
    to the module's impl (None if it has none: the program does not
    compile); any other type dispatches to `migration_utils`.
  */
  function Convert(m: seq<Item>, v: Value): Option<Value>
    decreases v, 2, 0
  {
    var ty := TypeOf(v);
    if DeclaredIn(m, ty) then
      match FindImpl(m, ty)
      case Some(impl) => RunImpl(m, impl, v)
      case None => None
    else if v.Leaf? then
      MigrationUtils.Migrate(ty, ty, v)
    else
      None
  }

  /**
    The body of an impl applied to its receiver. A struct literal builds a
    value of the named struct in the shape of its declaration; `match self`
    takes the first arm whose path names the receiver's variant. A
    hand-written body has no meaning here.
  */
  function RunImpl(m: seq<Item>, impl: ItemImpl, v: Value): Option<Value>
    decreases v, 1, 1
  {
    match impl.items
    case Handwritten(_) => None
    case MigrateFn(_, StructLiteral(ident, inits)) =>
      var fvs :- ConvertInits(m, v, None, inits);
      var decl :- FindStruct(StructsOf(m), ident);
      var payload :- LiteralPayload(decl.fields, fvs);
      Some(StructValue(ident, payload))
    case MigrateFn(_, MatchSelf(arms)) =>
      var k :- FindArm(arms, v);
      RunArm(m, v, arms[k])
  }

  /** The value the selected arm builds from the names its pattern binds. */
  function RunArm(m: seq<Item>, v: Value, arm: Arm): Option<Value>
    decreases v, 1, 0
  {
    match arm.result
    case NamedConstruct(e, variant, inits) =>
      var fvs :- ConvertInits(m, v, Some(arm.pattern), inits);
      Some(EnumValue(e, variant, NamedPayload(fvs)))
    case TupleConstruct(e, variant, args) =>
      var es :- ConvertArgs(m, v, Some(arm.pattern), args);
      Some(EnumValue(e, variant, TuplePayload(es)))
    case UnitConstruct(e, variant) =>
      Some(EnumValue(e, variant, UnitPayload))
  }

  /** The value a struct literal `ident { inits }` builds, for the struct's declared shape. */
  function LiteralPayload(decl: Fields, fvs: seq<FieldValue>): Option<Payload> {
    match decl
    case Named(_) => Some(NamedPayload(fvs))
    case Unnamed(ts) => if |ts| == 0 && |fvs| == 0 then Some(TuplePayload([])) else None
    case Unit => if |fvs| == 0 then Some(UnitPayload) else None
  }

  /** The pattern `prev::E::V…` tests the receiver's discriminant only. */
  predicate PatternSelects(p: Pattern, v: Value) {
    v.EnumValue? && p.enumIdent == v.ident && p.variant == v.variant
  }

  /** The first arm whose pattern selects the receiver. */
  function FindArm(arms: seq<Arm>, v: Value): (r: Option<nat>)
    ensures r.None? <==> forall i :: 0 <= i < |arms| ==> !PatternSelects(arms[i].pattern, v)
    ensures r.Some? ==> r.value < |arms| && PatternSelects(arms[r.value].pattern, v)
    ensures r.Some? ==> forall j :: 0 <= j < r.value ==> !PatternSelects(arms[j].pattern, v)
  {
    if |arms| == 0 then None
    else if PatternSelects(arms[0].pattern, v) then Some(0)
    else
      match FindArm(arms[1..], v)
      case Some(j) => Some(j + 1)
      case None => None
  }

  /**
    `place.migrate()`: `self.f` reads field `f` of the receiver struct; a
    name bound by the arm's pattern reads the field of that name (`V { a, .. }`)
    or the element at the name's position (`V(x, y)`).
  */
  function ConvertPlace(m: seq<Item>, v: Value, pattern: Option<Pattern>, place: Place): Option<Value>
    decreases v, 0, 0
  {
    match place
    case SelfField(f) =>
      if v.StructValue? && v.payload.NamedPayload? then
        var j :- IndexOf(FieldValueNames(v.payload.fields), f);
        Convert(m, v.payload.fields[j].value)
      else
        None
    case Binding(b) =>
      if !v.EnumValue? || pattern.None? then None
      else if pattern.value.NamedPattern? && v.payload.NamedPayload? then
        if b !in pattern.value.bindings then None
        else
          var j :- IndexOf(FieldValueNames(v.payload.fields), b);
          Convert(m, v.payload.fields[j].value)
      else if pattern.value.TuplePattern? && v.payload.TuplePayload? then
        var j :- IndexOf(pattern.value.bindings, b);
        if j < |v.payload.elems| then Convert(m, v.payload.elems[j]) else None
      else
        None
  }

  /** `f: place.migrate()` for every initializer, in order; the first failure fails the literal. */
  function ConvertInits(m: seq<Item>, v: Value, pattern: Option<Pattern>, inits: seq<FieldInit>): (r: Option<seq<FieldValue>>)
    decreases v, 0, |inits|
    ensures r.Some? <==> forall i :: 0 <= i < |inits| ==> ConvertPlace(m, v, pattern, inits[i].source).Some?
    ensures r.Some? ==>
      && |r.value| == |inits|
      && forall i :: 0 <= i < |inits| ==>
           r.value[i] == FieldValue(inits[i].field, ConvertPlace(m, v, pattern, inits[i].source).value)
  {
    if |inits| == 0 then Some([])
    else
      var x :- ConvertPlace(m, v, pattern, inits[0].source);
      var rest :- ConvertInits(m, v, pattern, inits[1..]);
      assert forall i :: 1 <= i < |inits| ==> inits[i] == inits[1..][i - 1];
      Some([FieldValue(inits[0].field, x)] + rest)
  }

  /** `place.migrate()` for every positional argument, in order. */
  function ConvertArgs(m: seq<Item>, v: Value, pattern: Option<Pattern>, args: seq<Place>): (r: Option<seq<Value>>)
    decreases v, 0, |args|
    ensures r.Some? <==> forall i :: 0 <= i < |args| ==> ConvertPlace(m, v, pattern, args[i]).Some?
    ensures r.Some? ==>
      && |r.value| == |args|
      && forall i :: 0 <= i < |args| ==> r.value[i] == ConvertPlace(m, v, pattern, args[i]).value
  {
    if |args| == 0 then Some([])
    else
      var x :- ConvertPlace(m, v, pattern, args[0]);
      var rest :- ConvertArgs(m, v, pattern, args[1..]);
      assert forall i :: 1 <= i < |args| ==> args[i] == args[1..][i - 1];
      Some([x] + rest)
  }

  // ---------------------------------------------------------------------
  // Well-typed values and well-formed modules
  // ---------------------------------------------------------------------

  /**
    `v` is a value of the module: a leaf of a type the module does not
    declare, or a struct or enum value that fits the declaration the reset
    pass would use for its name (the enum wins over a struct of that name).
  */
  ghost predicate HasType(m: seq<Item>, v: Value)
    decreases v, 1
  {
    match v
    case Leaf(ty, _) => !DeclaredIn(m, ty)
    case StructValue(s, _) =>
      && FindEnum(EnumsOf(m), s).None?
      && FindStruct(StructsOf(m), s).Some?
      && Fits(m, FindStruct(StructsOf(m), s).value.fields, v)
    case EnumValue(e, variant, _) =>
      && FindEnum(EnumsOf(m), e).Some?
      && FindVariant(FindEnum(EnumsOf(m), e).value.variants, variant).Some?
      && Fits(m, FindEnum(EnumsOf(m), e).value.variants[FindVariant(FindEnum(EnumsOf(m), e).value.variants, variant).value].fields, v)
  }

  /** The payload has the declared shape, field names, field types and well-typed contents. */
  ghost predicate Fits(m: seq<Item>, decl: Fields, v: Value)
    requires !v.Leaf?
    decreases v, 0
  {
    match decl
    case Named(fs) =>
      && v.payload.NamedPayload?
      && |v.payload.fields| == |fs|
      && forall i :: 0 <= i < |fs| ==>
           && v.payload.fields[i].name == fs[i].ident
           && TypeOf(v.payload.fields[i].value) == fs[i].ty
           && HasType(m, v.payload.fields[i].value)
    case Unnamed(ts) =>
      && v.payload.TuplePayload?
      && |v.payload.elems| == |ts|
      && forall i :: 0 <= i < |ts| ==> TypeOf(v.payload.elems[i]) == ts[i] && HasType(m, v.payload.elems[i])
    case Unit =>
      v.payload.UnitPayload?
  }

  /** rustc's rule: the fields of a struct or of a struct-like variant have pairwise different names. */
  ghost predicate DistinctFieldNames(m: seq<Item>) {
    && (forall s <- StructsOf(m) :: s.fields.Named? ==> Distinct(FieldIdents(s.fields.named)))
    && (forall e <- EnumsOf(m), v <- e.variants :: v.fields.Named? ==> Distinct(FieldIdents(v.fields.named)))
  }

  /** A field type converts: it is declared in the module or has a reflexive instance in `migration_utils`. */
  predicate Convertible(m: seq<Item>, ty: TypeLabel) {
    DeclaredIn(m, ty) || ty in MigrationUtils.ReflexiveTypes
  }

  ghost predicate FieldTypesConvertible(m: seq<Item>, decl: Fields) {
    match decl
    case Named(fs) => forall f <- fs :: Convertible(m, f.ty)
    case Unnamed(ts) => forall t <- ts :: Convertible(m, t)
    case Unit => true
  }

  /** Every leaf field type of every declaration has a reflexive instance. */
  ghost predicate LeafTypesReflexive(m: seq<Item>) {
    && (forall s <- StructsOf(m) :: FieldTypesConvertible(m, s.fields))
    && (forall e <- EnumsOf(m), v <- e.variants :: FieldTypesConvertible(m, v.fields))
  }

  /** Every declared type has its `impl MigrateInto<T> for prev::T` (the reset pass adds none). */
  ghost predicate EveryDeclarationImplemented(m: seq<Item>) {
    forall ty :: DeclaredIn(m, ty) ==> FindImpl(m, ty).Some?
  }

  /** The reset pass leaves the module as it is. */
  predicate Fresh(m: seq<Item>) {
    ResetFile(m) == Success(m)
  }

  ghost predicate IdentityPremises(m: seq<Item>) {
    && Fresh(m)
    && EveryDeclarationImplemented(m)
    && DistinctFieldNames(m)
    && LeafTypesReflexive(m)
  }

  // ---------------------------------------------------------------------
  // The identity theorem
  // ---------------------------------------------------------------------

  /** In a fresh module, the impl a declared type dispatches to is the one the synthesizer generates for it. */
  lemma FreshImplIsGenerated(m: seq<Item>, ty: Ident)
    requires Fresh(m) && DeclaredIn(m, ty) && FindImpl(m, ty).Some?
    ensures FindEnum(EnumsOf(m), ty).Some? ==>
      FindImpl(m, ty).value == GenerateMigrateIntoEnum(FindEnum(EnumsOf(m), ty).value)
    ensures FindEnum(EnumsOf(m), ty).None? ==>
      GenerateMigrateInto(FindStruct(StructsOf(m), ty).value) == Success(FindImpl(m, ty).value)
  {
    var impl := FindImpl(m, ty).value;
    var k :| 0 <= k < |m| && m[k] == Impl(impl);
    assert ResetItem(StructsOf(m), EnumsOf(m), m[k]) == Success(m[k]);
    assert TargetIdent(impl) == Some(ty);
    ResetImplUsesDeclaration(StructsOf(m), EnumsOf(m), impl, ty);
  }

  /** A field value's type is convertible: it is the declared field type. */
  lemma FieldOfDeclaredStruct(m: seq<Item>, ty: Ident)
    requires LeafTypesReflexive(m) && FindStruct(StructsOf(m), ty).Some?
    ensures FieldTypesConvertible(m, FindStruct(StructsOf(m), ty).value.fields)
  {
    FindStructFound(StructsOf(m), ty);
  }

  lemma FieldOfDeclaredVariant(m: seq<Item>, ty: Ident, k: nat)
    requires LeafTypesReflexive(m) && FindEnum(EnumsOf(m), ty).Some?
    requires k < |FindEnum(EnumsOf(m), ty).value.variants|
    ensures FieldTypesConvertible(m, FindEnum(EnumsOf(m), ty).value.variants[k].fields)
  {
    FindEnumFound(EnumsOf(m), ty);
    var e := FindEnum(EnumsOf(m), ty).value;
    assert e.variants[k] in e.variants;
  }

  lemma DistinctOfDeclaredStruct(m: seq<Item>, ty: Ident)
    requires DistinctFieldNames(m) && FindStruct(StructsOf(m), ty).Some?
    requires FindStruct(StructsOf(m), ty).value.fields.Named?
    ensures Distinct(FieldIdents(FindStruct(StructsOf(m), ty).value.fields.named))
  {
    FindStructFound(StructsOf(m), ty);
  }

  lemma DistinctOfDeclaredVariant(m: seq<Item>, ty: Ident, k: nat)
    requires DistinctFieldNames(m) && FindEnum(EnumsOf(m), ty).Some?
    requires k < |FindEnum(EnumsOf(m), ty).value.variants|
    requires FindEnum(EnumsOf(m), ty).value.variants[k].fields.Named?
    ensures Distinct(FieldIdents(FindEnum(EnumsOf(m), ty).value.variants[k].fields.named))
  {
    FindEnumFound(EnumsOf(m), ty);
    var e := FindEnum(EnumsOf(m), ty).value;
    assert e.variants[k] in e.variants;
  }

  /**
    The identity migration: in a fresh module where every declaration has
    its impl, field names are distinct and every leaf field type has a
    reflexive instance, `migrate` returns every well-typed value unchanged.
  */
  lemma {:induction false} MigrateIsIdentity(m: seq<Item>, v: Value)
    requires IdentityPremises(m)
    requires HasType(m, v) && Convertible(m, TypeOf(v))
    ensures Convert(m, v) == Some(v)
    decreases v, 4
  {
    match v
    case Leaf(ty, _) =>
    case StructValue(s, _) =>
      StructIdentity(m, v);
    case EnumValue(e, _, _) =>
      EnumIdentity(m, v);
  }

  /** Field `i` of a generated literal or named arm reads field `i` of the receiver, a well-typed value. */
  lemma NamedFieldReads(m: seq<Item>, v: Value, pattern: Option<Pattern>, inits: seq<FieldInit>, fs: seq<Field>, i: nat)
    requires !v.Leaf? && Fits(m, Named(fs), v) && Distinct(FieldIdents(fs)) && forall f <- fs :: Convertible(m, f.ty)
    requires AssignedFields(inits) == FieldIdents(fs)
    requires v.StructValue? ==> pattern.None? && forall init <- inits :: init.source == SelfField(init.field)
    requires v.EnumValue? ==>
      && pattern.Some? && pattern.value.NamedPattern? && pattern.value.bindings == FieldIdents(fs)
      && forall init <- inits :: init.source == Binding(init.field)
    requires i < |inits|
    ensures |v.payload.fields| == |inits| && v.payload.fields[i].name == inits[i].field
    ensures ConvertPlace(m, v, pattern, inits[i].source) == Convert(m, v.payload.fields[i].value)
    ensures HasType(m, v.payload.fields[i].value) && Convertible(m, TypeOf(v.payload.fields[i].value))
  {
    var fvs := v.payload.fields;
    assert FieldValueNames(fvs) == FieldIdents(fs);
    assert inits[i].field == fs[i].ident;
    assert inits[i] in inits;
    IndexOfDistinct(FieldIdents(fs), i);
    assert fs[i] in fs;
  }

  /** A named-field payload whose every field converts to itself converts to itself. */
  lemma {:induction false} NamedFieldsIdentity(m: seq<Item>, v: Value, pattern: Option<Pattern>, inits: seq<FieldInit>, fs: seq<Field>)
    requires IdentityPremises(m)
    requires !v.Leaf? && Fits(m, Named(fs), v) && Distinct(FieldIdents(fs)) && forall f <- fs :: Convertible(m, f.ty)
    requires AssignedFields(inits) == FieldIdents(fs)
    requires v.StructValue? ==> pattern.None? && forall init <- inits :: init.source == SelfField(init.field)
    requires v.EnumValue? ==>
      && pattern.Some? && pattern.value.NamedPattern? && pattern.value.bindings == FieldIdents(fs)
      && forall init <- inits :: init.source == Binding(init.field)
    ensures ConvertInits(m, v, pattern, inits) == Some(v.payload.fields)
    decreases v, 1
  {
    var fvs := v.payload.fields;
    assert |fvs| == |inits|;
    forall i | 0 <= i < |inits|
      ensures ConvertPlace(m, v, pattern, inits[i].source) == Some(fvs[i].value) && fvs[i].name == inits[i].field
    {
      NamedFieldReads(m, v, pattern, inits, fs, i);
      MigrateIsIdentity(m, fvs[i].value);
    }
    InitsFromPlaces(m, v, pattern, inits, fvs);
  }

  /** Initializers whose places convert to the given field values, under the same names, build exactly those values. */
  lemma InitsFromPlaces(m: seq<Item>, v: Value, pattern: Option<Pattern>, inits: seq<FieldInit>, fvs: seq<FieldValue>)
    requires |fvs| == |inits|
    requires forall i :: 0 <= i < |inits| ==>
      ConvertPlace(m, v, pattern, inits[i].source) == Some(fvs[i].value) && fvs[i].name == inits[i].field
    ensures ConvertInits(m, v, pattern, inits) == Some(fvs)
  {
    var r := ConvertInits(m, v, pattern, inits);
    assert r.Some?;
    assert forall i :: 0 <= i < |inits| ==> r.value[i] == fvs[i];
    assert r.value == fvs;
  }

  /** A generated struct conversion rebuilds its receiver field by field. */
  lemma {:induction false} StructIdentity(m: seq<Item>, v: Value)
    requires IdentityPremises(m)
    requires v.StructValue? && HasType(m, v)
    ensures Convert(m, v) == Some(v)
    decreases v, 3
  {
    var s := FindStruct(StructsOf(m), v.ident).value;
    FindStructFound(StructsOf(m), v.ident);
    assert DeclaredIn(m, v.ident);
    var impl := FindImpl(m, v.ident).value;
    FreshImplIsGenerated(m, v.ident);
    assert GenerateMigrateInto(s) == Success(impl);
    var inits := impl.items.body.inits;
    assert impl.items == MigrateFn(v.ident, StructLiteral(v.ident, inits));
    FieldOfDeclaredStruct(m, v.ident);
    var fvs: seq<FieldValue>;
    if s.fields.Named? {
      DistinctOfDeclaredStruct(m, v.ident);
      var fs := s.fields.named;
      assert Fits(m, Named(fs), v);
      assert forall f <- fs :: Convertible(m, f.ty);
      assert AssignedFields(inits) == FieldIdents(fs);
      assert forall init <- inits :: init.source == SelfField(init.field);
      NamedFieldsIdentity(m, v, None, inits, s.fields.named);
      fvs := v.payload.fields;
    } else {
      fvs := [];
    }
    assert ConvertInits(m, v, None, inits) == Some(fvs);
    assert LiteralPayload(s.fields, fvs) == Some(v.payload);
    assert RunImpl(m, impl, v) == Some(v);
  }

  /** The arm generated for a variant selects exactly the values of that variant. */
  lemma GeneratedArmSelects(e: ItemEnum, v: Value, i: nat)
    requires v.EnumValue? && v.ident == e.ident && i < |e.variants|
    ensures PatternSelects(GenerateMigrateIntoEnum(e).items.body.arms[i].pattern, v) <==> e.variants[i].ident == v.variant
  {
    assert ArmKeepsShape(e.ident, e.variants[i], GenerateMigrateIntoEnum(e).items.body.arms[i]);
  }

  /** The generated `match self` takes the arm of the receiver's variant. */
  lemma GeneratedArmFound(e: ItemEnum, v: Value, k: nat)
    requires v.EnumValue? && v.ident == e.ident
    requires FindVariant(e.variants, v.variant) == Some(k)
    ensures FindArm(GenerateMigrateIntoEnum(e).items.body.arms, v) == Some(k)
  {
    var arms := GenerateMigrateIntoEnum(e).items.body.arms;
    forall j | 0 <= j < |arms|
      ensures PatternSelects(arms[j].pattern, v) <==> e.variants[j].ident == v.variant
    {
      GeneratedArmSelects(e, v, j);
    }
    assert PatternSelects(arms[k].pattern, v);
    var found := FindArm(arms, v);
    assert found.Some? && found.value <= k;
    assert !(found.value < k);
  }

  /** A generated enum conversion rebuilds the receiver's variant with the same contents. */
  lemma {:induction false} EnumIdentity(m: seq<Item>, v: Value)
    requires IdentityPremises(m)
    requires v.EnumValue? && HasType(m, v)
    ensures Convert(m, v) == Some(v)
    decreases v, 3
  {
    var e := FindEnum(EnumsOf(m), v.ident).value;
    FindEnumFound(EnumsOf(m), v.ident);
    assert DeclaredIn(m, v.ident);
    var impl := FindImpl(m, v.ident).value;
    FreshImplIsGenerated(m, v.ident);
    var arms := impl.items.body.arms;
    var k := FindVariant(e.variants, v.variant).value;
    GeneratedArmFound(e, v, k);
    assert ArmKeepsShape(e.ident, e.variants[k], arms[k]);
    ArmIdentity(m, v, e, k, arms[k]);
    assert RunImpl(m, impl, v) == RunArm(m, v, arms[k]);
  }

  /** The arm generated for the receiver's variant rebuilds the receiver. */
  lemma {:induction false} ArmIdentity(m: seq<Item>, v: Value, e: ItemEnum, k: nat, arm: Arm)
    requires IdentityPremises(m)
    requires v.EnumValue? && HasType(m, v)
    requires FindEnum(EnumsOf(m), v.ident) == Some(e)
    requires FindVariant(e.variants, v.variant) == Some(k)
    requires ArmKeepsShape(v.ident, e.variants[k], arm)
    ensures RunArm(m, v, arm) == Some(v)
    decreases v, 2
  {
    FindEnumFound(EnumsOf(m), v.ident);
    FieldOfDeclaredVariant(m, v.ident, k);
    match e.variants[k].fields
    case Named(fs) =>
      DistinctOfDeclaredVariant(m, v.ident, k);
      NamedFieldsIdentity(m, v, Some(arm.pattern), arm.result.inits, fs);
    case Unnamed(ts) =>
      TupleElemsIdentity(m, v, arm.pattern, arm.result.args, ts);
    case Unit =>
  }

  /** A positional payload whose every element converts to itself converts to itself. */
  lemma {:induction false} TupleElemsIdentity(m: seq<Item>, v: Value, pattern: Pattern, args: seq<Place>, ts: seq<TypeLabel>)
    requires IdentityPremises(m)
    requires v.EnumValue? && Fits(m, Unnamed(ts), v) && forall t <- ts :: Convertible(m, t)
    requires pattern.TuplePattern? && pattern.bindings == PositionalIdents(|ts|)
    requires |args| == |ts| && forall i :: 0 <= i < |ts| ==> args[i] == Binding(pattern.bindings[i])
    ensures ConvertArgs(m, v, Some(pattern), args) == Some(v.payload.elems)
    decreases v, 1
  {
    forall i | 0 <= i < |args|
      ensures ConvertPlace(m, v, Some(pattern), args[i]) == Some(v.payload.elems[i])
    {
      TupleElemIdentity(m, v, pattern, ts, i);
    }
    assert ConvertArgs(m, v, Some(pattern), args).value == v.payload.elems;
  }

  lemma PositionalBindingsDistinct(n: nat)
    ensures Distinct(PositionalIdents(n))
  {
    forall a, b | 0 <= a < b < n
      ensures PositionalIdents(n)[a] != PositionalIdents(n)[b]
    {
      PositionalIdentsDistinct(n, a, b);
    }
  }

  /** The i-th positional binding of a generated arm reads the i-th element. */
  lemma TupleBindingReads(m: seq<Item>, v: Value, pattern: Pattern, n: nat, i: nat)
    requires v.EnumValue? && v.payload.TuplePayload? && |v.payload.elems| == n
    requires pattern.TuplePattern? && pattern.bindings == PositionalIdents(n)
    requires i < n
    ensures ConvertPlace(m, v, Some(pattern), Binding(pattern.bindings[i])) == Convert(m, v.payload.elems[i])
  {
    PositionalBindingsDistinct(n);
    IndexOfDistinct(pattern.bindings, i);
  }

  /** The i-th element of a positional payload is a well-typed, convertible value. */
  lemma TupleElemTyped(m: seq<Item>, v: Value, ts: seq<TypeLabel>, i: nat)
    requires v.EnumValue? && Fits(m, Unnamed(ts), v) && forall t <- ts :: Convertible(m, t)
    requires i < |ts|
    ensures v.payload.TuplePayload? && |v.payload.elems| == |ts|
    ensures HasType(m, v.payload.elems[i]) && Convertible(m, TypeOf(v.payload.elems[i]))
  {
    assert ts[i] in ts;
  }

  lemma {:induction false} TupleElemIdentity(m: seq<Item>, v: Value, pattern: Pattern, ts: seq<TypeLabel>, i: nat)
    requires IdentityPremises(m)
    requires v.EnumValue? && Fits(m, Unnamed(ts), v) && forall t <- ts :: Convertible(m, t)
    requires pattern.TuplePattern? && pattern.bindings == PositionalIdents(|ts|)
    requires i < |ts|
    ensures ConvertPlace(m, v, Some(pattern), Binding(pattern.bindings[i])) == Some(v.payload.elems[i])
    decreases v, 0
  {
    TupleElemTyped(m, v, ts, i);
    TupleBindingReads(m, v, pattern, |ts|, i);
    MigrateIsIdentity(m, v.payload.elems[i]);
  }

  /**
    The promise of a promotion: whatever module the reset pass produces is
    an identity migration, as long as each of its declarations has its impl
    and its leaf field types have reflexive instances.
  */
  lemma ResetModuleIsIdentity(m: seq<Item>, v: Value)
    requires ResetFile(m).Success?
    requires EveryDeclarationImplemented(ResetFile(m).value)
    requires DistinctFieldNames(ResetFile(m).value)
    requires LeafTypesReflexive(ResetFile(m).value)
    requires HasType(ResetFile(m).value, v) && Convertible(ResetFile(m).value, TypeOf(v))
    ensures Convert(ResetFile(m).value, v) == Some(v)
  {
    ResetIdempotent(m);
    MigrateIsIdentity(ResetFile(m).value, v);
  }
}
