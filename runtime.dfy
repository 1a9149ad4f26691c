/**
  The run-time behaviour of the emitted methods.

  A value of the source struct is the sequence of its field values in
  declaration order.  The user's closure is modelled by what it does to the
  companion: a list of field assignments `des.f = v` (reconstruct, substitute),
  or for try_reconstruct a list of steps that may stop early with `Err(e)`
  (a `?` on a failing expression).
*/
module Runtime {
  import opened Wrappers
  import opened Syntax
  import opened Derive
  import opened Eval

  /** One assignment `des.<field i> = value` made by the closure. */
  datatype Edit<V> = Edit(field: nat, value: V)

  /** One statement of a fallible closure: an assignment, or an early `Err(error)`. */
  datatype Step<V, E> = Do(edit: Edit<V>) | Fail(error: E)

  /** Every assignment names one of the `n` fields: the compiler resolves
      `des.f` against the companion's declared fields. */
  predicate EditsInRange<V>(edits: seq<Edit<V>>, n: nat) {
    forall k | 0 <= k < |edits| :: edits[k].field < n
  }

  predicate StepsInRange<V, E>(steps: seq<Step<V, E>>, n: nat) {
    forall k | 0 <= k < |steps| :: steps[k].Do? ==> steps[k].edit.field < n
  }

  /** The fields after the assignments, made one after the other. */
  function ApplyEdits<V>(s: seq<V>, edits: seq<Edit<V>>): (r: seq<V>)
    requires EditsInRange(edits, |s|)
    ensures |r| == |s|
    decreases |edits|
  {
    if edits == [] then s
    else
      var last := edits[|edits| - 1];
      ApplyEdits(s, edits[..|edits| - 1])[last.field := last.value]
  }

  /** The value last assigned to field i, if any assignment names it. */
  function LastWrite<V>(edits: seq<Edit<V>>, i: nat): Option<V>
    decreases |edits|
  {
    if edits == [] then None
    else if edits[|edits| - 1].field == i then Some(edits[|edits| - 1].value)
    else LastWrite(edits[..|edits| - 1], i)
  }

  /** The error the closure returns: that of its first failing step. */
  function Outcome<V, E>(steps: seq<Step<V, E>>): Option<E>
    decreases |steps|
  {
    if steps == [] then None
    else
      var before := Outcome(steps[..|steps| - 1]);
      if before.Some? then before
      else if steps[|steps| - 1].Fail? then Some(steps[|steps| - 1].error)
      else None
  }

  /** The assignments the closure makes before it returns. */
  function Performed<V, E>(steps: seq<Step<V, E>>): (r: seq<Edit<V>>)
    ensures forall n: nat :: StepsInRange(steps, n) ==> EditsInRange(r, n)
    decreases |steps|
  {
    if steps == [] then []
    else
      var prefix := steps[..|steps| - 1];
      var last := steps[|steps| - 1];
      assert forall n: nat :: StepsInRange(steps, n) ==> StepsInRange(prefix, n);
      if Outcome(prefix).Some? || last.Fail? then Performed(prefix)
      else Performed(prefix) + [last.edit]
  }

  /** A closure that never fails: each edit as a step. */
  function Infallible<V, E>(edits: seq<Edit<V>>): (r: seq<Step<V, E>>) {
    seq(|edits|, k requires 0 <= k < |edits| => Do(edits[k]))
  }

  // ---------------------------------------------------------------------------
  // Lemmas about edits and closures
  // ---------------------------------------------------------------------------

  /** After the edits, a field holds the value last assigned to it, and a field
      no edit names keeps its old value. */
  lemma {:induction false} ApplyEditsFieldwise<V>(s: seq<V>, edits: seq<Edit<V>>, i: nat)
    requires EditsInRange(edits, |s|) && i < |s|
    ensures ApplyEdits(s, edits)[i] == match LastWrite(edits, i) case Some(v) => v case None => s[i]
    decreases |edits|
  {
    if edits != [] {
      ApplyEditsFieldwise(s, edits[..|edits| - 1], i);
    }
  }

  /** A field that no assignment names keeps its value. */
  lemma {:induction false} UnassignedFieldUnchanged<V>(s: seq<V>, edits: seq<Edit<V>>, i: nat)
    requires EditsInRange(edits, |s|) && i < |s|
    requires forall k | 0 <= k < |edits| :: edits[k].field != i
    ensures ApplyEdits(s, edits)[i] == s[i]
    decreases |edits|
  {
    if edits != [] {
      UnassignedFieldUnchanged(s, edits[..|edits| - 1], i);
    }
  }

  /** `v.reconstruct(|_| {})` is `v`: the generated into_destruct literal, no
      assignment, then the generated freeze literal give back every field. */
  lemma NoOpReconstructIsIdentity<V>(input: DeriveInput, v: seq<V>)
    requires CompilableStruct(input) && |v| == Arity(input)
    ensures IntoDestruct(input, v).Some?
    ensures Freeze(input, ApplyEdits(IntoDestruct(input, v).value, [])) == Some(v)
  {
    FreezeAfterIntoDestruct(input, v);
  }

  /** Once a closure has failed, later steps change neither its error nor its
      assignments. */
  lemma {:induction false} FailureIsFinal<V, E>(steps: seq<Step<V, E>>, k: nat)
    requires k <= |steps| && Outcome(steps[..k]).Some?
    ensures Outcome(steps) == Outcome(steps[..k])
    ensures Performed(steps) == Performed(steps[..k])
    decreases |steps| - k
  {
    if k < |steps| {
      var longer := steps[..k + 1];
      assert longer[..k] == steps[..k];
      assert Outcome(longer) == Outcome(steps[..k]);
      FailureIsFinal(steps, k + 1);
    } else {
      assert steps[..k] == steps;
    }
  }

  /** A closure made only of assignments returns `Ok(())` and performs all of them. */
  lemma {:induction false} InfallibleSucceeds<V, E>(edits: seq<Edit<V>>)
    ensures Outcome(Infallible<V, E>(edits)) == None
    ensures Performed(Infallible<V, E>(edits)) == edits
    decreases |edits|
  {
    if edits != [] {
      var steps := Infallible<V, E>(edits);
      var prefix := edits[..|edits| - 1];
      assert steps[..|steps| - 1] == Infallible<V, E>(prefix);
      InfallibleSucceeds<V, E>(prefix);
      assert edits == prefix + [edits[|edits| - 1]];
    }
  }

  // ---------------------------------------------------------------------------
  // The emitted methods
  // ---------------------------------------------------------------------------

  /** The closure body run on `&mut dest`: its assignments, one after the other. */
  method RunEditor<V>(dest: array<V>, edits: seq<Edit<V>>)
    requires EditsInRange(edits, dest.Length)
    modifies dest
    ensures dest[..] == ApplyEdits(old(dest[..]), edits)
  {
    var k := 0;
    while k < |edits|
      invariant 0 <= k <= |edits|
      invariant EditsInRange(edits[..k], dest.Length)
      invariant dest[..] == ApplyEdits(old(dest[..]), edits[..k])
    {
      assert edits[..k + 1][..k] == edits[..k];
      dest[edits[k].field] := edits[k].value;
      k := k + 1;
    }
    assert edits[..k] == edits;
  }

  /** `self.reconstruct(f)`: `let mut dest = self.into_destruct(); f(&mut dest); dest.freeze()`.
      The result has the closure's assignments and the original value in
      every other field. */
  method Reconstruct<V>(input: DeriveInput, self: seq<V>, f: seq<Edit<V>>) returns (r: seq<V>)
    requires CompilableStruct(input) && |self| == Arity(input)
    requires EditsInRange(f, |self|)
    ensures IntoDestruct(input, self).Some?
    ensures Freeze(input, ApplyEdits(IntoDestruct(input, self).value, f)) == Some(r)
    ensures r == ApplyEdits(self, f)
    ensures f == [] ==> r == self
  {
    IntoDestructMovesEveryField(input, self);
    var moved := IntoDestruct(input, self).value;
    var dest := new V[|moved|](i requires 0 <= i < |moved| => moved[i]);
    assert dest[..] == moved;
    RunEditor(dest, f);
    FreezeMovesEveryField(input, dest[..]);
    r := Freeze(input, dest[..]).value;
  }

  /** `self.try_reconstruct(f)`: as reconstruct, but `f(&mut dest)?` returns
      the closure's error unchanged and drops `dest`. */
  method TryReconstruct<V, E>(input: DeriveInput, self: seq<V>, f: seq<Step<V, E>>) returns (r: Result<seq<V>, E>)
    requires CompilableStruct(input) && |self| == Arity(input)
    requires StepsInRange(f, |self|)
    ensures r.Err? <==> Outcome(f).Some?
    ensures r.Err? ==> r.error == Outcome(f).value
    ensures r.Ok? ==> r.value == ApplyEdits(self, Performed(f))
    ensures IntoDestruct(input, self).Some?
    ensures r.Ok? ==> Freeze(input, ApplyEdits(IntoDestruct(input, self).value, Performed(f))) == Some(r.value)
  {
    IntoDestructMovesEveryField(input, self);
    var moved := IntoDestruct(input, self).value;
    var dest := new V[|moved|](i requires 0 <= i < |moved| => moved[i]);
    var k := 0;
    while k < |f|
      invariant 0 <= k <= |f|
      invariant Outcome(f[..k]).None?
      invariant dest.Length == |self|
      invariant dest[..] == ApplyEdits(self, Performed(f[..k]))
    {
      var prefix := f[..k + 1];
      assert prefix[..k] == f[..k];
      match f[k]
      case Fail(e) =>
        assert Outcome(prefix) == Some(e);
        FailureIsFinal(f, k + 1);
        return Err(e);
      case Do(edit) =>
        dest[edit.field] := edit.value;
        k := k + 1;
    }
    assert f[..k] == f;
    FreezeMovesEveryField(input, dest[..]);
    r := Ok(Freeze(input, dest[..]).value);
  }

  /** The value `NMut { name: &mut self.name, .. }` handed to the closure:
      field i of the view is a unique borrow of slot `slots[i]` of `source`. */
  class MutView<V> {
    const source: array<V>
    const slots: seq<nat>

    ghost predicate Valid()
      reads this
    {
      forall i | 0 <= i < |slots| :: slots[i] < source.Length
    }

    constructor (source: array<V>, slots: seq<nat>)
      requires forall i | 0 <= i < |slots| :: slots[i] < source.Length
      ensures this.source == source && this.slots == slots && Valid()
    {
      this.source := source;
      this.slots := slots;
    }

    /** `*view.<field i> = value`: writes through the borrow into the source. */
    method Assign(i: nat, value: V)
      requires Valid() && i < |slots|
      modifies source
      ensures source[..] == old(source[..])[slots[i] := value]
    {
      source[slots[i]] := value;
    }
  }

  /** `self.substitute(f)`: builds the view of unique borrows, one per field,
      and calls `f` on it once.  Afterwards each assigned field holds the value
      last written through the view and every other field is unchanged. */
  method Substitute<V>(input: DeriveInput, self: array<V>, f: seq<Edit<V>>)
    requires CompilableStruct(input) && self.Length == Arity(input)
    requires EditsInRange(f, self.Length)
    modifies self
    ensures self[..] == ApplyEdits(old(self[..]), f)
  {
    SubstituteAliasesEveryField(input);
    var slots := Aliases(input).value;
    var view := new MutView(self, slots);
    var k := 0;
    while k < |f|
      invariant 0 <= k <= |f|
      invariant view.source == self && view.slots == slots && view.Valid()
      invariant EditsInRange(f[..k], self.Length)
      invariant self[..] == ApplyEdits(old(self[..]), f[..k])
    {
      assert f[..k + 1][..k] == f[..k];
      view.Assign(f[k].field, f[k].value);
      k := k + 1;
    }
    assert f[..k] == f;
  }
}
