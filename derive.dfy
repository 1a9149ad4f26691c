/**
  The two derive macros of src/lib.rs as pure functions from a declaration to
  its expansion: `derive_destructure` and `derive_mutation`.
*/
module Derive {
  import opened Wrappers
  import opened Syntax

  /** The lifetime the Mutation companion declares, `'mutation`. */
  const MutationLifetime: string := "mutation"

  /** The `if let Data::Struct(DataStruct { fields: Fields::Named(..), .. })`
      both derives open with: the named fields, or nothing for any other shape. */
  function SourceFields(data: Data): (r: Option<seq<Field>>)
    ensures r.Some? <==> data.Struct? && data.fields.Named?
    ensures r.Some? ==> data == Struct(Named(r.value))
  {
    match data
    case Struct(Named(named)) => Some(named)
    case _ => None
  }

  /** A struct with named fields, pairwise distinct field names and no generic
      parameters.  Both are needed for the expansion to compile: rustc rejects
      a struct that declares a field twice, and the expansion declares no
      generic parameters, so a generic source would leave its parameters out
      of scope.  They are not sufficient (a field type mentioning `Self`, or
      `derive(Mutation)` on a struct without fields, still fails to compile). */
  predicate CompilableStruct(input: DeriveInput) {
    && input.generics == []
    && SourceFields(input.data).Some?
    && DistinctNames(FieldNames(SourceFields(input.data).value))
  }

  /** The number of named fields of a struct declaration. */
  function Arity(input: DeriveInput): nat
    requires SourceFields(input.data).Some?
  {
    |SourceFields(input.data).value|
  }

  /** `format!("Destruct{}", name)`. */
  function DestructName(name: string): (r: string)
    ensures |r| == |"Destruct"| + |name|
    ensures r[..|"Destruct"|] == "Destruct" && r[|"Destruct"|..] == name
  {
    "Destruct" + name
  }

  /** `format!("{}Mut", name)`. */
  function MutName(name: string): (r: string)
    ensures |r| == |name| + |"Mut"|
    ensures r[..|name|] == name && r[|name|..] == "Mut"
  {
    name + "Mut"
  }

  /** The `destruction` clauses of derive_destructure: `pub name: ty` per field. */
  function PublicFields(fs: seq<Field>): (r: seq<StructField>)
    ensures |r| == |fs|
    ensures forall i | 0 <= i < |r| :: r[i].vis == Public && r[i].name == fs[i].name && r[i].ty == fs[i].ty
  {
    seq(|fs|, i requires 0 <= i < |fs| => StructField(Public, fs[i].name, fs[i].ty))
  }

  /** The `destruction` clauses of derive_mutation: `pub name: &'mutation mut ty` per field. */
  function MutRefFields(fs: seq<Field>): (r: seq<StructField>)
    ensures |r| == |fs|
    ensures forall i | 0 <= i < |r| ::
      r[i].vis == Public && r[i].name == fs[i].name && r[i].ty == Reference(MutationLifetime, true, fs[i].ty)
  {
    seq(|fs|, i requires 0 <= i < |fs| =>
      StructField(Public, fs[i].name, Reference(MutationLifetime, true, fs[i].ty)))
  }

  /** The `expanded` clauses of both derives: `name: self.name` (Move) or
      `name: &mut self.name` (BorrowMut) per field. */
  function Initializers(fs: seq<Field>, access: Access): (r: seq<FieldValue>)
    ensures |r| == |fs|
    ensures forall i | 0 <= i < |r| :: r[i].member == fs[i].name && r[i].expr == SelfField(access, r[i].member)
  {
    seq(|fs|, i requires 0 <= i < |fs| => FieldValue(fs[i].name, SelfField(access, fs[i].name)))
  }

  /** derive_destructure: rejects every shape but a named-field struct, and
      otherwise emits `DestructN`, `impl N` and `impl DestructN`.  The freeze
      literal reuses the clause list of into_destruct (`expanded.clone()`). */
  function DeriveDestructure(input: DeriveInput): (r: Result<DestructureExpansion, DeriveError>)
    ensures r.Err? <==> SourceFields(input.data).None?
  {
    var generate := DestructName(input.ident);
    match SourceFields(input.data)
    case None => Err(Unimplemented)
    case Some(fields) =>
      var expanded := Initializers(fields, Move);
      var freeze := expanded;
      Ok(DestructureExpansion(
        ItemStruct(Public, generate, [], PublicFields(fields)),
        ImplBlock(input.ident, [], ["into_destruct", "reconstruct", "try_reconstruct"]),
        StructLiteral(generate, expanded),
        ImplBlock(generate, [], ["freeze"]),
        StructLiteral(input.ident, freeze)))
  }

  /** derive_mutation: rejects every shape but a named-field struct, and
      otherwise emits `NMut<'mutation>` and `impl N` with substitute. */
  function DeriveMutation(input: DeriveInput): (r: Result<MutationExpansion, DeriveError>)
    ensures r.Err? <==> SourceFields(input.data).None?
  {
    var generate := MutName(input.ident);
    match SourceFields(input.data)
    case None => Err(Unimplemented)
    case Some(fields) =>
      Ok(MutationExpansion(
        ItemStruct(Public, generate, [Lifetime(MutationLifetime)], MutRefFields(fields)),
        ImplBlock(input.ident, [], ["substitute"]),
        StructLiteral(generate, Initializers(fields, BorrowMut))))
  }

  // ---------------------------------------------------------------------------
  // Properties of the Destructure expansion
  // ---------------------------------------------------------------------------

  /** Tuple structs, unit structs, enums and unions get no expansion from either derive. */
  lemma OnlyNamedStructsDerive(input: DeriveInput)
    ensures DeriveDestructure(input).Err? <==> !(input.data.Struct? && input.data.fields.Named?)
    ensures DeriveMutation(input).Err? <==> !(input.data.Struct? && input.data.fields.Named?)
  {
  }

  /** Every generated name comes from the source name: the companion is
      `Destruct` + N, into_destruct builds that companion, freeze builds N, and
      the impls are on N and on the companion. */
  lemma DestructureNames(input: DeriveInput)
    requires DeriveDestructure(input).Ok?
    ensures var g := DeriveDestructure(input).value;
      && g.companion.ident == "Destruct" + input.ident
      && g.sourceImpl.selfTy == input.ident
      && g.intoDestruct.path == g.companion.ident
      && g.companionImpl.selfTy == g.companion.ident
      && g.freeze.path == input.ident
  {
  }

  /** Distinct source names never share a Destruct companion name. */
  lemma {:induction false} DestructNameInjective(a: string, b: string)
    requires DestructName(a) == DestructName(b)
    ensures a == b
  {
    assert a == DestructName(a)[|"Destruct"|..];
    assert b == DestructName(b)[|"Destruct"|..];
  }

  /** The Destruct companion holds exactly the source's fields, in order, with
      the same names and types, and every one of them is `pub`; the struct
      itself is `pub` and declares no generic parameters. */
  lemma DestructCompanionMirrorsSource(input: DeriveInput)
    requires DeriveDestructure(input).Ok?
    ensures var fs := SourceFields(input.data).value;
      var c := DeriveDestructure(input).value.companion;
      && c.vis == Public && c.generics == []
      && |c.fields| == |fs|
      && DeclaredNames(c) == FieldNames(fs)
      && forall i | 0 <= i < |fs| ::
           c.fields[i] == StructField(Public, fs[i].name, fs[i].ty)
  {
    var fs := SourceFields(input.data).value;
    var c := DeriveDestructure(input).value.companion;
    assert DeclaredNames(c) == FieldNames(fs);
  }

  /** into_destruct and freeze initialize with one and the same clause list,
      whose i-th clause moves source field i into the same-named field. */
  lemma DestructureInitializers(input: DeriveInput)
    requires DeriveDestructure(input).Ok?
    ensures var fs := SourceFields(input.data).value;
      var g := DeriveDestructure(input).value;
      && g.intoDestruct.fields == g.freeze.fields
      && |g.intoDestruct.fields| == |fs|
      && forall i | 0 <= i < |fs| ::
           g.intoDestruct.fields[i] == FieldValue(fs[i].name, SelfField(Move, fs[i].name))
  {
  }

  /** The expansions depend on the name and the named fields only: the
      source's generic parameters are not propagated, the Destruct companion
      declares none and no impl block declares any. */
  lemma ExpansionsIgnoreGenerics(a: DeriveInput, b: DeriveInput)
    requires a.ident == b.ident && SourceFields(a.data) == SourceFields(b.data)
    ensures DeriveDestructure(a) == DeriveDestructure(b)
    ensures DeriveMutation(a) == DeriveMutation(b)
    ensures DeriveDestructure(a).Ok? ==>
      var g := DeriveDestructure(a).value;
      g.companion.generics == [] && g.sourceImpl.generics == [] && g.companionImpl.generics == []
    ensures DeriveMutation(a).Ok? ==> DeriveMutation(a).value.sourceImpl.generics == []
  {
  }

  // ---------------------------------------------------------------------------
  // Properties of the Mutation expansion
  // ---------------------------------------------------------------------------

  /** The Mutation companion is `N` + `Mut`, declares the single lifetime
      `'mutation`, and the impl carrying substitute is on N. */
  lemma MutationNames(input: DeriveInput)
    requires DeriveMutation(input).Ok?
    ensures var g := DeriveMutation(input).value;
      && g.companion.ident == input.ident + "Mut"
      && g.companion.generics == [Lifetime("mutation")]
      && g.sourceImpl.selfTy == input.ident && g.sourceImpl.generics == []
      && g.substitute.path == g.companion.ident
  {
  }

  /** Distinct source names never share a Mutation companion name. */
  lemma {:induction false} MutNameInjective(a: string, b: string)
    requires MutName(a) == MutName(b)
    ensures a == b
  {
    assert a == MutName(a)[..|MutName(a)| - |"Mut"|];
    assert b == MutName(b)[..|MutName(b)| - |"Mut"|];
  }

  /** Field i of the Mutation companion is `pub name_i: &'mutation mut T_i`,
      in source order. */
  lemma MutationCompanionMirrorsSource(input: DeriveInput)
    requires DeriveMutation(input).Ok?
    ensures var fs := SourceFields(input.data).value;
      var c := DeriveMutation(input).value.companion;
      && c.vis == Public
      && |c.fields| == |fs|
      && DeclaredNames(c) == FieldNames(fs)
      && forall i | 0 <= i < |fs| ::
           c.fields[i] == StructField(Public, fs[i].name, Reference("mutation", true, fs[i].ty))
  {
    var fs := SourceFields(input.data).value;
    var c := DeriveMutation(input).value.companion;
    assert DeclaredNames(c) == FieldNames(fs);
  }

  /** The literal substitute hands to `f` initializes field i with
      `&mut self.name_i`, in source order. */
  lemma SubstituteInitializers(input: DeriveInput)
    requires DeriveMutation(input).Ok?
    ensures var fs := SourceFields(input.data).value;
      var lit := DeriveMutation(input).value.substitute;
      && |lit.fields| == |fs|
      && forall i | 0 <= i < |fs| ::
           lit.fields[i] == FieldValue(fs[i].name, SelfField(BorrowMut, fs[i].name))
  {
  }
}
