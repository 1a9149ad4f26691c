/**
  What the emitted struct literals mean at run time.

  A struct value is the sequence of its field values in declaration order.  A
  literal `Target { m: self.x, .. }` evaluated inside a method of `Source`
  builds a Target whose field `m` takes the value of the source field named
  `x` (or, for `&mut self.x`, aliases that field).  Either way each field of
  the target is bound to one slot of the source, and this module computes that
  binding from the literal.  The generated into_destruct, freeze and
  substitute are then given their meaning by it.
*/
module Eval {
  import opened Wrappers
  import opened Syntax
  import opened Derive

  /** The position of the first field called `n`. */
  function IndexOf(names: seq<string>, n: string): (r: Option<nat>)
    ensures r.Some? ==> r.value < |names| && names[r.value] == n
    ensures r.Some? ==> forall j | 0 <= j < r.value :: names[j] != n
    ensures r.None? <==> n !in names
  {
    if names == [] then None
    else if names[0] == n then Some(0)
    else match IndexOf(names[1..], n)
      case None => None
      case Some(k) => Some(k + 1)
  }

  /** The expression a literal gives for member `m` (the first initializer naming it). */
  function ExprFor(inits: seq<FieldValue>, m: string): Option<Expr> {
    if inits == [] then None
    else if inits[0].member == m then Some(inits[0].expr)
    else ExprFor(inits[1..], m)
  }

  /** The source slot each target field is bound to by a literal whose
      initializers all use `access`; None when the literal leaves a target
      field uninitialized, uses another access, or names a field the source
      does not declare.  `target` is the target's declared field order and
      `source` the source's. */
  function Bind(target: seq<string>, inits: seq<FieldValue>, access: Access, source: seq<string>): (r: Option<seq<nat>>)
    ensures r.Some? ==> |r.value| == |target|
    ensures r.Some? ==> forall i | 0 <= i < |target| :: r.value[i] < |source|
    decreases |target|
  {
    if target == [] then Some([])
    else match ExprFor(inits, target[0])
      case None => None
      case Some(SelfField(a, x)) =>
        if a != access then None
        else match IndexOf(source, x)
          case None => None
          case Some(k) =>
            match Bind(target[1..], inits, access, source)
            case None => None
            case Some(rest) => Some([k] + rest)
  }

  /** The value a moving literal builds from `self`, whose fields are `names`
      with values `vals`. */
  function EvalMoves<V>(target: seq<string>, inits: seq<FieldValue>, names: seq<string>, vals: seq<V>): (r: Option<seq<V>>)
    requires |names| == |vals|
  {
    match Bind(target, inits, Move, names)
    case None => None
    case Some(slots) => Some(seq(|slots|, i requires 0 <= i < |slots| => vals[slots[i]]))
  }

  /** `self.into_destruct()` on a value with the source's fields: the
      generated literal `DestructN { .. }` evaluated against `self`. */
  function IntoDestruct<V>(input: DeriveInput, self: seq<V>): (r: Option<seq<V>>)
    requires SourceFields(input.data).Some? && |self| == Arity(input)
    ensures r.Some? ==> |r.value| == |self|
  {
    var g := DeriveDestructure(input).value;
    EvalMoves(DeclaredNames(g.companion), g.intoDestruct.fields, FieldNames(SourceFields(input.data).value), self)
  }

  /** `dest.freeze()` on a value with the companion's fields: the generated
      literal `N { .. }` evaluated against the companion. */
  function Freeze<V>(input: DeriveInput, dest: seq<V>): (r: Option<seq<V>>)
    requires SourceFields(input.data).Some? && |dest| == Arity(input)
    ensures r.Some? ==> |r.value| == |dest|
  {
    var g := DeriveDestructure(input).value;
    assert |DeclaredNames(g.companion)| == |PublicFields(SourceFields(input.data).value)|;
    EvalMoves(FieldNames(SourceFields(input.data).value), g.freeze.fields, DeclaredNames(g.companion), dest)
  }

  /** The borrows in the `NMut { .. }` literal substitute builds: field i of
      the view aliases source slot `Aliases(input).value[i]`. */
  function Aliases(input: DeriveInput): (r: Option<seq<nat>>)
    requires SourceFields(input.data).Some?
    ensures r.Some? ==> |r.value| == Arity(input)
    ensures r.Some? ==> forall i | 0 <= i < |r.value| :: r.value[i] < Arity(input)
  {
    var g := DeriveMutation(input).value;
    Bind(DeclaredNames(g.companion), g.substitute.fields, BorrowMut, FieldNames(SourceFields(input.data).value))
  }

  // ---------------------------------------------------------------------------
  // Lemmas
  // ---------------------------------------------------------------------------

  /** With distinct names, the first field called `names[k]` is field k. */
  lemma IndexOfDistinct(names: seq<string>, k: nat)
    requires DistinctNames(names) && k < |names|
    ensures IndexOf(names, names[k]) == Some(k)
  {
  }

  /** In a literal where every member `m` is initialized from `self.m`, the
      expression found for a member is that member's own field. */
  lemma {:induction false} ExprForSelfField(inits: seq<FieldValue>, access: Access, k: nat)
    requires k < |inits|
    requires forall i | 0 <= i < |inits| :: inits[i].expr == SelfField(access, inits[i].member)
    ensures ExprFor(inits, inits[k].member) == Some(SelfField(access, inits[k].member))
  {
    if inits[0].member != inits[k].member {
      ExprForSelfField(inits[1..], access, k - 1);
    }
  }

  /** The slots lo, lo + 1, .., hi - 1. */
  function Slots(lo: nat, hi: nat): (r: seq<nat>)
    ensures |r| == if lo <= hi then hi - lo else 0
    ensures forall i | 0 <= i < |r| :: r[i] == lo + i
    decreases hi - lo
  {
    if lo >= hi then [] else [lo] + Slots(lo + 1, hi)
  }

  /** One step of Bind: a target field initialized from `self.x` is bound to the slot of `x`. */
  lemma BindStep(t: seq<string>, inits: seq<FieldValue>, access: Access, source: seq<string>, x: string, k: nat, rest: seq<nat>)
    requires t != []
    requires ExprFor(inits, t[0]) == Some(SelfField(access, x)) && IndexOf(source, x) == Some(k)
    requires Bind(t[1..], inits, access, source) == Some(rest)
    ensures Bind(t, inits, access, source) == Some([k] + rest)
  {
  }

  /** A literal that initializes each field of `names` from the same-named
      field of `self` binds the i-th of `names[k..]` to slot k + i, provided
      every name is found at its own position. */
  lemma {:induction false} BindForwarding(names: seq<string>, inits: seq<FieldValue>, access: Access, k: nat)
    requires |inits| == |names| && k <= |names|
    requires forall i | 0 <= i < |names| :: IndexOf(names, names[i]) == Some(i)
    requires forall i | 0 <= i < |inits| :: inits[i] == FieldValue(names[i], SelfField(access, names[i]))
    ensures Bind(names[k..], inits, access, names) == Some(Slots(k, |names|))
    decreases |names| - k
  {
    var t := names[k..];
    if k < |names| {
      assert t[0] == names[k] && t[1..] == names[k + 1..];
      ExprForSelfField(inits, access, k);
      BindForwarding(names, inits, access, k + 1);
      BindStep(t, inits, access, names, names[k], k, Slots(k + 1, |names|));
    } else {
      assert t == [];
    }
  }

  /** The generated initializer list binds field i to source slot i. */
  lemma BindIdentity(fs: seq<Field>, access: Access)
    requires DistinctNames(FieldNames(fs))
    ensures Bind(FieldNames(fs), Initializers(fs, access), access, FieldNames(fs)) == Some(Slots(0, |fs|))
  {
    var names := FieldNames(fs);
    forall i | 0 <= i < |names| ensures IndexOf(names, names[i]) == Some(i) {
      IndexOfDistinct(names, i);
    }
    BindForwarding(names, Initializers(fs, access), access, 0);
    assert names[0..] == names;
  }

  /** into_destruct moves every field: companion field i holds source field i. */
  lemma IntoDestructMovesEveryField<V>(input: DeriveInput, self: seq<V>)
    requires CompilableStruct(input) && |self| == Arity(input)
    ensures IntoDestruct(input, self) == Some(self)
  {
    var fs := SourceFields(input.data).value;
    var g := DeriveDestructure(input).value;
    DestructCompanionMirrorsSource(input);
    assert g.intoDestruct.fields == Initializers(fs, Move);
    BindIdentity(fs, Move);
    var slots := Slots(0, |fs|);
    assert seq(|slots|, i requires 0 <= i < |slots| => self[slots[i]]) == self;
  }

  /** freeze moves every field back: source field i takes companion field i. */
  lemma FreezeMovesEveryField<V>(input: DeriveInput, dest: seq<V>)
    requires CompilableStruct(input) && |dest| == Arity(input)
    ensures Freeze(input, dest) == Some(dest)
  {
    var fs := SourceFields(input.data).value;
    var g := DeriveDestructure(input).value;
    DestructCompanionMirrorsSource(input);
    assert g.freeze.fields == Initializers(fs, Move);
    BindIdentity(fs, Move);
    var slots := Slots(0, |fs|);
    assert seq(|slots|, i requires 0 <= i < |slots| => dest[slots[i]]) == dest;
  }

  /** `v.into_destruct().freeze()` is `v`. */
  lemma FreezeAfterIntoDestruct<V>(input: DeriveInput, v: seq<V>)
    requires CompilableStruct(input) && |v| == Arity(input)
    ensures IntoDestruct(input, v).Some?
    ensures Freeze(input, IntoDestruct(input, v).value) == Some(v)
  {
    IntoDestructMovesEveryField(input, v);
    FreezeMovesEveryField(input, v);
  }

  /** `d.freeze().into_destruct()` is `d`. */
  lemma IntoDestructAfterFreeze<V>(input: DeriveInput, d: seq<V>)
    requires CompilableStruct(input) && |d| == Arity(input)
    ensures Freeze(input, d).Some?
    ensures IntoDestruct(input, Freeze(input, d).value) == Some(d)
  {
    FreezeMovesEveryField(input, d);
    IntoDestructMovesEveryField(input, d);
  }

  /** Field i of the view substitute builds aliases source field i, so no two
      view fields alias the same source field. */
  lemma SubstituteAliasesEveryField(input: DeriveInput)
    requires CompilableStruct(input)
    ensures Aliases(input) == Some(Slots(0, Arity(input)))
    ensures forall i, j | 0 <= i < j < Arity(input) :: Aliases(input).value[i] != Aliases(input).value[j]
  {
    var fs := SourceFields(input.data).value;
    MutationCompanionMirrorsSource(input);
    BindIdentity(fs, BorrowMut);
  }
}
