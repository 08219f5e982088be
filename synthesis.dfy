/**
  The code synthesizer of the promotion tool: `generate_migrate_into` and
  `generate_migrate_into_enum` (tool/src/main.rs). Given a declaration of the
  module, each builds `impl MigrateInto<T> for prev::T` whose `migrate` rebuilds
  the value field by field, calling `.migrate()` on every field.
*/
module Synthesis {
  import opened Wrappers
  import opened RustSyntax

  /** `generate_migrate_into` cannot name the fields of a tuple struct. */
  datatype SynthesisError = UnnamedFields(structIdent: Ident)

  /** The trait path `MigrateInto<target>`. */
  function MigrateIntoPath(target: Ident): Path {
    Path(false, [PathSegment("MigrateInto", AngleBracketed([TypeArgument(TypePath(SimplePath(target)))]))])
  }

  /** The self type `prev::ident`. */
  function PrevType(ident: Ident): Type {
    TypePath(Path(false, [PathSegment("prev", NoArguments), PathSegment(ident, NoArguments)]))
  }

  /** The fields a struct literal names, in the order it names them. */
  function AssignedFields(inits: seq<FieldInit>): (r: seq<Ident>)
    ensures |r| == |inits|
    ensures forall i :: 0 <= i < |inits| ==> r[i] == inits[i].field
  {
    seq(|inits|, i requires 0 <= i < |inits| => inits[i].field)
  }

  // ---------------------------------------------------------------------
  // Structs
  // ---------------------------------------------------------------------

  /**
    Whether every field of a struct body has a name. A tuple struct with at
    least one field does not: quoting its missing identifiers yields
    `: self..migrate()`, which does not parse.
  */
  predicate HasFieldIdents(fields: Fields) {
    !fields.Unnamed? || |fields.unnamed| == 0
  }

  /** The field names `fields.iter()` yields for a struct whose fields all have names. */
  function DeclaredFieldIdents(fields: Fields): seq<Ident> {
    if fields.Named? then FieldIdents(fields.named) else []
  }

  /** `generate_migrate_into`: `impl MigrateInto<S> for prev::S { fn migrate(self) -> S { S { f: self.f.migrate(), ... } } }`. */
  function GenerateMigrateInto(s: ItemStruct): (r: Result<ItemImpl, SynthesisError>)
    ensures r.Success? <==> HasFieldIdents(s.fields)
    ensures r.Failure? ==> r.error == UnnamedFields(s.ident)
    ensures r.Success? ==>
      && r.value.trait_ == Some(MigrateIntoPath(s.ident))
      && r.value.selfTy == PrevType(s.ident)
      && r.value.items.MigrateFn?
      && r.value.items.output == s.ident
      && r.value.items.body.StructLiteral?
      && r.value.items.body.ident == s.ident
      // one assignment per declared field, in declaration order ...
      && AssignedFields(r.value.items.body.inits) == DeclaredFieldIdents(s.fields)
      // ... each of the form `f: self.f.migrate()`
      && forall init <- r.value.items.body.inits :: init.source == SelfField(init.field)
  {
    if !HasFieldIdents(s.fields) then
      Failure(UnnamedFields(s.ident))
    else
      var names := DeclaredFieldIdents(s.fields);
      var inits := seq(|names|, i requires 0 <= i < |names| => FieldInit(names[i], SelfField(names[i])));
      Success(ItemImpl(Some(MigrateIntoPath(s.ident)), PrevType(s.ident), MigrateFn(s.ident, StructLiteral(s.ident, inits))))
  }

  // ---------------------------------------------------------------------
  // Enums
  // ---------------------------------------------------------------------

  function DigitChar(d: nat): char
    requires d < 10
  {
    (48 + d) as char
  }

  /** What `format!("{}", n)` prints for a natural number. */
  function DecimalString(n: nat): (r: string)
    ensures |r| > 0
  {
    if n < 10 then [DigitChar(n)] else DecimalString(n / 10) + [DigitChar(n % 10)]
  }

  /** Different numbers print differently. */
  lemma {:induction false} DecimalStringInjective(a: nat, b: nat)
    requires DecimalString(a) == DecimalString(b)
    ensures a == b
  {
    var sa, sb := DecimalString(a), DecimalString(b);
    if a < 10 && b < 10 {
      assert DigitChar(a) == sa[0] == sb[0] == DigitChar(b);
    } else if a >= 10 && b >= 10 {
      assert sa[..|sa| - 1] == DecimalString(a / 10);
      assert sb[..|sb| - 1] == DecimalString(b / 10);
      DecimalStringInjective(a / 10, b / 10);
      assert DigitChar(a % 10) == sa[|sa| - 1] == sb[|sb| - 1] == DigitChar(b % 10);
    }
  }

  /** `field0, field1, …, field{n-1}`: the names a tuple-variant arm binds its fields to. */
  function PositionalIdents(n: nat): (r: seq<Ident>)
    ensures |r| == n
    ensures forall i :: 0 <= i < n ==> r[i] == "field" + DecimalString(i)
  {
    seq(n, i requires 0 <= i < n => "field" + DecimalString(i))
  }

  /** The positional binding names are pairwise different. */
  lemma PositionalIdentsDistinct(n: nat, i: nat, j: nat)
    requires i < n && j < n && i != j
    ensures PositionalIdents(n)[i] != PositionalIdents(n)[j]
  {
    var names := PositionalIdents(n);
    if names[i] == names[j] {
      assert names[i][5..] == DecimalString(i);
      assert names[j][5..] == DecimalString(j);
      DecimalStringInjective(i, j);
    }
  }

  /** The match arm `generate_migrate_into_enum` writes for one variant. */
  function VariantArm(enumIdent: Ident, v: Variant): Arm {
    match v.fields
    case Named(fs) =>
      var names := FieldIdents(fs);
      Arm(NamedPattern(enumIdent, v.ident, names),
          NamedConstruct(enumIdent, v.ident, seq(|names|, i requires 0 <= i < |names| => FieldInit(names[i], Binding(names[i])))))
    case Unnamed(ts) =>
      var names := PositionalIdents(|ts|);
      Arm(TuplePattern(enumIdent, v.ident, names),
          TupleConstruct(enumIdent, v.ident, seq(|names|, i requires 0 <= i < |names| => Binding(names[i]))))
    case Unit =>
      Arm(UnitPattern(enumIdent, v.ident), UnitConstruct(enumIdent, v.ident))
  }

  /**
    The arm takes the variant of `prev::E` apart and rebuilds the same variant
    of `E` with the same shape: a named variant binds its field names and
    rebuilds the same names from them, a positional variant of arity n binds
    `field0..field{n-1}` and rebuilds with n arguments, a unit variant maps to
    itself.
  */
  ghost predicate ArmKeepsShape(enumIdent: Ident, v: Variant, arm: Arm) {
    match v.fields
    case Named(fs) =>
      && arm.pattern == NamedPattern(enumIdent, v.ident, FieldIdents(fs))
      && arm.result.NamedConstruct?
      && arm.result.enumIdent == enumIdent && arm.result.variant == v.ident
      && AssignedFields(arm.result.inits) == FieldIdents(fs)
      && forall init <- arm.result.inits :: init.source == Binding(init.field)
    case Unnamed(ts) =>
      && arm.pattern == TuplePattern(enumIdent, v.ident, PositionalIdents(|ts|))
      && arm.result.TupleConstruct?
      && arm.result.enumIdent == enumIdent && arm.result.variant == v.ident
      && |arm.result.args| == |ts|
      && forall k :: 0 <= k < |ts| ==> arm.result.args[k] == Binding(arm.pattern.bindings[k])
    case Unit =>
      arm == Arm(UnitPattern(enumIdent, v.ident), UnitConstruct(enumIdent, v.ident))
  }

  /** `generate_migrate_into_enum`: `impl MigrateInto<E> for prev::E { fn migrate(self) -> E { match self { arms } } }`. */
  function GenerateMigrateIntoEnum(e: ItemEnum): (r: ItemImpl)
    ensures r.trait_ == Some(MigrateIntoPath(e.ident))
    ensures r.selfTy == PrevType(e.ident)
    ensures r.items.MigrateFn? && r.items.output == e.ident && r.items.body.MatchSelf?
    // exactly one arm per variant, in declaration order, each keeping its variant's shape
    ensures |r.items.body.arms| == |e.variants|
    ensures forall i :: 0 <= i < |e.variants| ==> ArmKeepsShape(e.ident, e.variants[i], r.items.body.arms[i])
  {
    var arms := seq(|e.variants|, i requires 0 <= i < |e.variants| => VariantArm(e.ident, e.variants[i]));
    ItemImpl(Some(MigrateIntoPath(e.ident)), PrevType(e.ident), MigrateFn(e.ident, MatchSelf(arms)))
  }
}
