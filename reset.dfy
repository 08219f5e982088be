/**
  The reset pass of the promotion tool (tool/src/main.rs): `ItemVisitor`
  collects every struct and enum of a file, and `MigrationReset` rewrites, in
  place, every `impl MigrateInto<X> for …` whose `X` names one of them, putting
  in its place the impl the synthesizer generates from that declaration.

  The functions give the pass's meaning on values; the two classes are the
  visitors themselves, and their methods are proved to compute those functions.
*/
module Reset {
  import opened Wrappers
  import opened RustSyntax
  import opened Synthesis

  // ---------------------------------------------------------------------
  // Which impls the pass looks at
  // ---------------------------------------------------------------------

  /** syn's `Path::get_ident`: the identifier of a path with no leading `::`, one segment and no arguments. */
  function GetIdent(p: Path): (r: Option<Ident>)
    ensures r.Some? <==> !p.leadingColon && |p.segments| == 1 && p.segments[0].arguments.NoArguments?
    ensures r.Some? ==> r.value == p.segments[0].ident
  {
    if !p.leadingColon && |p.segments| == 1 && p.segments[0].arguments.NoArguments? then
      Some(p.segments[0].ident)
    else
      None
  }

  /**
    The guard of `visit_item_impl_mut`: for a trait impl whose trait path ends
    in a segment `MigrateInto<A, …>` whose first argument `A` is a type path
    that is a single identifier, that identifier; None for any other impl.
  */
  function TargetIdent(node: ItemImpl): (r: Option<Ident>)
    // inherent impls are never selected
    ensures r.Some? ==> node.trait_.Some?
    // the trait is recognised by the last segment of its path only
    ensures r.Some? ==> |node.trait_.value.segments| > 0 && Last(node.trait_.value.segments).ident == "MigrateInto"
    // the impl is selected for `x` exactly when the first argument of that segment is the plain type `x`
    ensures forall x :: r == Some(x) <==>
      && node.trait_.Some?
      && |node.trait_.value.segments| > 0
      && Last(node.trait_.value.segments).ident == "MigrateInto"
      && Last(node.trait_.value.segments).arguments.AngleBracketed?
      && |Last(node.trait_.value.segments).arguments.args| > 0
      && Last(node.trait_.value.segments).arguments.args[0] == TypeArgument(TypePath(SimplePath(x)))
  {
    match node.trait_
    case None => None
    case Some(path) =>
      if |path.segments| == 0 || Last(path.segments).ident != "MigrateInto" then None
      else
        match Last(path.segments).arguments
        case AngleBracketed(args) =>
          if |args| == 0 then None
          else if args[0].TypeArgument? && args[0].ty.TypePath? then GetIdent(args[0].ty.path)
          else None
        case _ => None
  }

  function Last<T>(s: seq<T>): T
    requires |s| > 0
  {
    s[|s| - 1]
  }

  /** The impls the synthesizer writes are impls the pass selects, for the type they were generated from. */
  lemma TargetIdentOfGeneratedStruct(s: ItemStruct)
    requires GenerateMigrateInto(s).Success?
    ensures TargetIdent(GenerateMigrateInto(s).value) == Some(s.ident)
  {
  }

  lemma TargetIdentOfGeneratedEnum(e: ItemEnum)
    ensures TargetIdent(GenerateMigrateIntoEnum(e)) == Some(e.ident)
  {
  }

  // ---------------------------------------------------------------------
  // Declaration lookup (`self.structs.iter().find(…)`)
  // ---------------------------------------------------------------------

  /** The first struct of the list with the given name. */
  function FindStruct(structs: seq<ItemStruct>, ident: Ident): (r: Option<ItemStruct>)
    ensures r.None? <==> forall i :: 0 <= i < |structs| ==> structs[i].ident != ident
    ensures forall i :: (0 <= i < |structs| && structs[i].ident == ident &&
                         forall j :: 0 <= j < i ==> structs[j].ident != ident) ==> r == Some(structs[i])
  {
    if |structs| == 0 then None
    else if structs[0].ident == ident then Some(structs[0])
    else
      var r := FindStruct(structs[1..], ident);
      assert forall i :: 1 <= i < |structs| ==> structs[i] == structs[1..][i - 1];
      r
  }

  /** The first enum of the list with the given name. */
  function FindEnum(enums: seq<ItemEnum>, ident: Ident): (r: Option<ItemEnum>)
    ensures r.None? <==> forall i :: 0 <= i < |enums| ==> enums[i].ident != ident
    ensures forall i :: (0 <= i < |enums| && enums[i].ident == ident &&
                         forall j :: 0 <= j < i ==> enums[j].ident != ident) ==> r == Some(enums[i])
  {
    if |enums| == 0 then None
    else if enums[0].ident == ident then Some(enums[0])
    else
      var r := FindEnum(enums[1..], ident);
      assert forall i :: 1 <= i < |enums| ==> enums[i] == enums[1..][i - 1];
      r
  }

  /** A name found by the lookup belongs to a declaration in the list. */
  lemma {:induction false} FindStructFound(structs: seq<ItemStruct>, ident: Ident)
    requires FindStruct(structs, ident).Some?
    ensures FindStruct(structs, ident).value in structs
    ensures FindStruct(structs, ident).value.ident == ident
  {
    if structs[0].ident != ident {
      FindStructFound(structs[1..], ident);
    }
  }

  lemma {:induction false} FindEnumFound(enums: seq<ItemEnum>, ident: Ident)
    requires FindEnum(enums, ident).Some?
    ensures FindEnum(enums, ident).value in enums
    ensures FindEnum(enums, ident).value.ident == ident
  {
    if enums[0].ident != ident {
      FindEnumFound(enums[1..], ident);
    }
  }

  // ---------------------------------------------------------------------
  // The pass on values
  // ---------------------------------------------------------------------

  /** Whether some collected struct or enum carries the name. */
  predicate Declared(structs: seq<ItemStruct>, enums: seq<ItemEnum>, ident: Ident) {
    FindStruct(structs, ident).Some? || FindEnum(enums, ident).Some?
  }

  /**
    `visit_item_impl_mut` on one impl: a struct of the target's name is
    regenerated first, then an enum of that name overwrites the result; an
    impl the guard does not select, or whose target names no declaration, is
    returned as it is. Generating from a tuple struct fails.
  */
  function ResetImpl(structs: seq<ItemStruct>, enums: seq<ItemEnum>, node: ItemImpl): (r: Result<ItemImpl, SynthesisError>)
    // it fails exactly when the selected target's first struct is a tuple struct with fields
    ensures r.Failure? <==>
      && TargetIdent(node).Some?
      && FindStruct(structs, TargetIdent(node).value).Some?
      && !HasFieldIdents(FindStruct(structs, TargetIdent(node).value).value.fields)
    // only impls of `MigrateInto<X>` with X declared change
    ensures r.Success? && r.value != node ==>
      TargetIdent(node).Some? && Declared(structs, enums, TargetIdent(node).value)
  {
    match TargetIdent(node)
    case None => Success(node)
    case Some(ident) =>
      var afterStruct :- match FindStruct(structs, ident)
                         case Some(s) => GenerateMigrateInto(s)
                         case None => Success(node);
      match FindEnum(enums, ident)
      case Some(e) => Success(GenerateMigrateIntoEnum(e))
      case None => Success(afterStruct)
  }

  /**
    What the pass puts in place of a selected impl: the impl generated from
    the first enum of that name if there is one (it overwrites), else from
    the first struct of that name.
  */
  lemma ResetImplUsesDeclaration(structs: seq<ItemStruct>, enums: seq<ItemEnum>, node: ItemImpl, ident: Ident)
    requires TargetIdent(node) == Some(ident)
    requires ResetImpl(structs, enums, node).Success?
    ensures FindEnum(enums, ident).Some? ==>
      ResetImpl(structs, enums, node).value == GenerateMigrateIntoEnum(FindEnum(enums, ident).value)
    ensures FindEnum(enums, ident).None? && FindStruct(structs, ident).Some? ==>
      ResetImpl(structs, enums, node) == GenerateMigrateInto(FindStruct(structs, ident).value)
    ensures !Declared(structs, enums, ident) ==> ResetImpl(structs, enums, node).value == node
  {
  }

  function ResetItem(structs: seq<ItemStruct>, enums: seq<ItemEnum>, item: Item): (r: Result<Item, SynthesisError>)
    ensures r.Success? ==> (r.value.Impl? <==> item.Impl?)
    ensures r.Success? && !item.Impl? ==> r.value == item
  {
    match item
    case Impl(node) =>
      var updated :- ResetImpl(structs, enums, node);
      Success(Impl(updated))
    case _ => Success(item)
  }

  /** The position of the first item whose reset fails, if any. */
  function FirstFailing(structs: seq<ItemStruct>, enums: seq<ItemEnum>, items: seq<Item>): (r: Option<nat>)
    // together: there is a failing item exactly when the result names one
    ensures r.None? ==> forall i :: 0 <= i < |items| ==> ResetItem(structs, enums, items[i]).Success?
    ensures r.Some? ==> r.value < |items| && ResetItem(structs, enums, items[r.value]).Failure?
  {
    if |items| == 0 then None
    else if ResetItem(structs, enums, items[0]).Failure? then Some(0)
    else
      match FirstFailing(structs, enums, items[1..])
      case Some(j) =>
        assert items[j + 1] == items[1..][j];
        Some(j + 1)
      case None =>
        assert forall i :: 1 <= i < |items| ==> items[i] == items[1..][i - 1];
        None
  }

  /** Every item before the first failing one resets. */
  lemma {:induction false} BeforeFirstFailing(structs: seq<ItemStruct>, enums: seq<ItemEnum>, items: seq<Item>)
    requires FirstFailing(structs, enums, items).Some?
    ensures forall j :: 0 <= j < FirstFailing(structs, enums, items).value ==>
      ResetItem(structs, enums, items[j]).Success?
  {
    if ResetItem(structs, enums, items[0]).Success? {
      var rest := items[1..];
      BeforeFirstFailing(structs, enums, rest);
      forall j | 0 <= j < FirstFailing(structs, enums, items).value
        ensures ResetItem(structs, enums, items[j]).Success?
      {
        if j > 0 {
          assert items[j] == rest[j - 1];
        }
      }
    }
  }

  /** `visit_file_mut`: every item in file order; the first failure aborts the pass. */
  function ResetItems(structs: seq<ItemStruct>, enums: seq<ItemEnum>, items: seq<Item>): (r: Result<seq<Item>, SynthesisError>)
    ensures r.Success? <==> forall i :: 0 <= i < |items| ==> ResetItem(structs, enums, items[i]).Success?
    ensures r.Success? ==>
      && |r.value| == |items|
      && forall i :: 0 <= i < |items| ==> r.value[i] == ResetItem(structs, enums, items[i]).value
    ensures r.Failure? ==>
      && FirstFailing(structs, enums, items).Some?
      && r.error == ResetItem(structs, enums, items[FirstFailing(structs, enums, items).value]).error
  {
    if |items| == 0 then
      Success([])
    else
      match ResetItem(structs, enums, items[0])
      case Failure(e) => Failure(e)
      case Success(head) =>
        match ResetItems(structs, enums, items[1..])
        case Failure(e) =>
          var j := FirstFailing(structs, enums, items[1..]).value;
          assert FirstFailing(structs, enums, items) == Some(j + 1) && items[j + 1] == items[1..][j];
          Failure(e)
        case Success(tail) =>
          assert forall i :: 1 <= i < |items| ==> items[i] == items[1..][i - 1];
          Success([head] + tail)
  }

  /** The structs of a file, in file order. */
  function StructsOf(items: seq<Item>): (r: seq<ItemStruct>)
    ensures forall s :: s in r <==> Struct(s) in items
  {
    if |items| == 0 then []
    else
      var init := items[..|items| - 1];
      assert items == init + [Last(items)];
      StructsOf(init) + (if Last(items).Struct? then [Last(items).s] else [])
  }

  /** The enums of a file, in file order. */
  function EnumsOf(items: seq<Item>): (r: seq<ItemEnum>)
    ensures forall e :: e in r <==> Enum(e) in items
  {
    if |items| == 0 then []
    else
      var init := items[..|items| - 1];
      assert items == init + [Last(items)];
      EnumsOf(init) + (if Last(items).Enum? then [Last(items).e] else [])
  }

  /** The item rewrite of `reset_migration_for_file`: declarations are collected from the file as read. */
  function ResetFile(items: seq<Item>): Result<seq<Item>, SynthesisError> {
    ResetItems(StructsOf(items), EnumsOf(items), items)
  }

  // ---------------------------------------------------------------------
  // Properties of the pass
  // ---------------------------------------------------------------------

  /** Two files whose items agree except that an impl may stand where an impl stood. */
  ghost predicate SameExceptImpls(a: seq<Item>, b: seq<Item>) {
    && |a| == |b|
    && forall i :: 0 <= i < |a| ==> (a[i].Impl? && b[i].Impl?) || a[i] == b[i]
  }

  lemma {:induction false} SameDeclarations(a: seq<Item>, b: seq<Item>)
    requires SameExceptImpls(a, b)
    ensures StructsOf(a) == StructsOf(b)
    ensures EnumsOf(a) == EnumsOf(b)
  {
    if |a| > 0 {
      var n := |a| - 1;
      assert SameExceptImpls(a[..n], b[..n]) by {
        assert forall i :: 0 <= i < n ==> a[..n][i] == a[i] && b[..n][i] == b[i];
      }
      SameDeclarations(a[..n], b[..n]);
    }
  }

  /**
    Nothing but impls changes: the file keeps its length, every item that is
    not an impl is untouched, every impl stays an impl (none is added or
    removed), and an impl that changes is a `MigrateInto<X>` impl with X
    declared in the file.
  */
  lemma ResetChangesOnlySelectedImpls(items: seq<Item>)
    requires ResetFile(items).Success?
    ensures SameExceptImpls(items, ResetFile(items).value)
    ensures forall i :: 0 <= i < |items| && ResetFile(items).value[i] != items[i] ==>
      && items[i].Impl?
      && TargetIdent(items[i].i).Some?
      && Declared(StructsOf(items), EnumsOf(items), TargetIdent(items[i].i).value)
  {
  }

  /** The declarations of a reset file are those of the file before the pass. */
  lemma ResetKeepsDeclarations(items: seq<Item>)
    requires ResetFile(items).Success?
    ensures StructsOf(ResetFile(items).value) == StructsOf(items)
    ensures EnumsOf(ResetFile(items).value) == EnumsOf(items)
  {
    SameDeclarations(items, ResetFile(items).value);
  }

  /** The rewritten impl is selected for the same target as before. */
  lemma ResetImplKeepsTarget(structs: seq<ItemStruct>, enums: seq<ItemEnum>, node: ItemImpl)
    requires ResetImpl(structs, enums, node).Success?
    ensures TargetIdent(ResetImpl(structs, enums, node).value) == TargetIdent(node)
  {
    match TargetIdent(node)
    case None =>
    case Some(ident) =>
      if FindEnum(enums, ident).Some? {
        var e := FindEnum(enums, ident).value;
        FindEnumFound(enums, ident);
        TargetIdentOfGeneratedEnum(e);
      } else if FindStruct(structs, ident).Some? {
        var s := FindStruct(structs, ident).value;
        FindStructFound(structs, ident);
        TargetIdentOfGeneratedStruct(s);
      }
  }

  /** A regenerated impl regenerates to itself. */
  lemma ResetImplIdempotent(structs: seq<ItemStruct>, enums: seq<ItemEnum>, node: ItemImpl)
    requires ResetImpl(structs, enums, node).Success?
    ensures ResetImpl(structs, enums, ResetImpl(structs, enums, node).value) == ResetImpl(structs, enums, node)
  {
    ResetImplKeepsTarget(structs, enums, node);
  }

  /** Resetting a reset file changes nothing. */
  lemma ResetIdempotent(items: seq<Item>)
    requires ResetFile(items).Success?
    ensures ResetFile(ResetFile(items).value) == ResetFile(items)
  {
    var out := ResetFile(items).value;
    ResetKeepsDeclarations(items);
    var structs, enums := StructsOf(items), EnumsOf(items);
    forall i | 0 <= i < |out|
      ensures ResetItem(structs, enums, out[i]) == Success(out[i])
    {
      if items[i].Impl? {
        ResetImplIdempotent(structs, enums, items[i].i);
      }
    }
    assert ResetItems(structs, enums, out).value == out;
  }

  // ---------------------------------------------------------------------
  // The visitors
  // ---------------------------------------------------------------------

  /** `ItemVisitor`: records every struct and enum it visits, in visiting order. */
  class ItemVisitor {
    var structs: seq<ItemStruct>
    var enums: seq<ItemEnum>

    constructor ()
      ensures structs == [] && enums == []
    {
      structs := [];
      enums := [];
    }

    method VisitItemStruct(node: ItemStruct)
      modifies this
      ensures structs == old(structs) + [node]
      ensures enums == old(enums)
    {
      structs := structs + [node];
    }

    method VisitItemEnum(node: ItemEnum)
      modifies this
      ensures enums == old(enums) + [node]
      ensures structs == old(structs)
    {
      enums := enums + [node];
    }

    /** `visit_file`: visits the items in file order; items other than structs and enums record nothing. */
    method VisitFile(file: seq<Item>)
      modifies this
      ensures structs == old(structs) + StructsOf(file)
      ensures enums == old(enums) + EnumsOf(file)
    {
      var i := 0;
      while i < |file|
        invariant 0 <= i <= |file|
        invariant structs == old(structs) + StructsOf(file[..i])
        invariant enums == old(enums) + EnumsOf(file[..i])
      {
        assert file[..i + 1][..i] == file[..i];
        match file[i] {
          case Struct(s) => VisitItemStruct(s);
          case Enum(e) => VisitItemEnum(e);
          case _ =>
        }
        i := i + 1;
      }
      assert file[..i] == file;
    }
  }

  /** `MigrationReset`: holds the collected declarations and rewrites the impls of a file in place. */
  class MigrationReset {
    const structs: seq<ItemStruct>
    const enums: seq<ItemEnum>

    constructor (structs: seq<ItemStruct>, enums: seq<ItemEnum>)
      ensures this.structs == structs && this.enums == enums
    {
      this.structs := structs;
      this.enums := enums;
    }

    /**
      `visit_item_impl_mut` on the impl in slot `i` of the file: `*node` is
      overwritten by the impl generated from the struct of the target's
      name, then by the one generated from the enum of that name.
    */
    method VisitItemImplMut(file: array<Item>, i: nat) returns (r: Outcome<SynthesisError>)
      requires i < file.Length && file[i].Impl?
      modifies file
      ensures r.Fail? <==> ResetImpl(structs, enums, old(file[i].i)).Failure?
      ensures r.Fail? ==> r.error == ResetImpl(structs, enums, old(file[i].i)).error
      ensures r.Pass? ==> file[i] == Impl(ResetImpl(structs, enums, old(file[i].i)).value)
      ensures forall k :: 0 <= k < file.Length && k != i ==> file[k] == old(file[k])
    {
      var node := file[i].i;
      match TargetIdent(node) {
        case None =>
          r := Pass;
        case Some(ident) =>
          var s := FindStruct(structs, ident);
          if s.Some? {
            var updated := GenerateMigrateInto(s.value);
            if updated.Failure? {
              return Fail(updated.error);
            }
            file[i] := Impl(updated.value);
          }
          var e := FindEnum(enums, ident);
          if e.Some? {
            file[i] := Impl(GenerateMigrateIntoEnum(e.value));
          }
          r := Pass;
      }
    }

    /** `visit_file_mut`: every impl of the file, in file order; the first failure stops the pass. */
    method VisitFileMut(file: array<Item>) returns (r: Outcome<SynthesisError>)
      modifies file
      ensures r.Pass? <==> ResetItems(structs, enums, old(file[..])).Success?
      ensures r.Pass? ==> file[..] == ResetItems(structs, enums, old(file[..])).value
      ensures r.Fail? ==> r.error == ResetItems(structs, enums, old(file[..])).error
    {
      ghost var original := file[..];
      var i := 0;
      while i < file.Length
        invariant 0 <= i <= file.Length
        invariant forall k :: 0 <= k < i ==>
          ResetItem(structs, enums, original[k]).Success? && file[k] == ResetItem(structs, enums, original[k]).value
        invariant forall k :: i <= k < file.Length ==> file[k] == original[k]
      {
        if file[i].Impl? {
          var outcome := VisitItemImplMut(file, i);
          if outcome.Fail? {
            assert ResetItem(structs, enums, original[i]).Failure?;
            ghost var first := FirstFailing(structs, enums, original);
            BeforeFirstFailing(structs, enums, original);
            assert first.Some? && !(first.value < i) && !(i < first.value);
            return outcome;
          }
        }
        i := i + 1;
      }
      assert file[..] == ResetItems(structs, enums, original).value;
      r := Pass;
    }
  }

  /**
    The item rewrite of `reset_migration_for_file`: collect the declarations
    of the file as read, then reset its impls in place.
  */
  method ResetMigrationForFile(file: array<Item>) returns (r: Outcome<SynthesisError>)
    modifies file
    ensures r.Pass? <==> ResetFile(old(file[..])).Success?
    ensures r.Pass? ==> file[..] == ResetFile(old(file[..])).value
  {
    var read := file[..];
    var visitor := new ItemVisitor();
    visitor.VisitFile(read);
    assert visitor.structs == StructsOf(read) && visitor.enums == EnumsOf(read);
    var reset := new MigrationReset(visitor.structs, visitor.enums);
    assert file[..] == read;
    r := reset.VisitFileMut(file);
  }
}
