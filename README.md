# destructure: a Dafny model of the derive engine

`destructure` is a Rust procedural-macro crate with two derives for structs
that have named fields:

- `#[derive(Destructure)]` on `struct N { f1: T1, .. }` emits a companion
  `pub struct DestructN { pub f1: T1, .. }`. It also emits `impl N` with
  `into_destruct`, `reconstruct` and `try_reconstruct`, and `impl DestructN`
  with `freeze`.
- `#[derive(Mutation)]` emits `pub struct NMut<'mutation> { pub f1: &'mutation mut T1, .. }`
  and `impl N` with `substitute`.

The project models both derives and the run-time meaning of the code they emit.

- `Syntax` (syntax.dfy) holds the abstract syntax. The input is a
  `DeriveInput`: a name, generic parameters, and data that is a struct (named,
  tuple or unit fields), an enum or a union. The output is the companion struct
  declaration, the impl blocks and the struct literals the methods return.
  These are datatype values; the model has no token streams.
- `Derive` (derive.dfy) defines `derive_destructure` and `derive_mutation` as
  functions. The lemmas cover companion names, rejection of other shapes,
  field-by-field mirroring (order, names, types, `pub`, `&'mutation mut`) and
  the shared into_destruct/freeze clause list.
- `Eval` (eval.dfy) gives the emitted struct literals a meaning. A struct value
  is the sequence of its field values in declaration order. A literal binds
  each target field to one source slot: by move for `self.f`, by alias for
  `&mut self.f`. It proves that into_destruct and freeze move field i to
  field i, that `freeze(into_destruct(v)) == v` and the converse, and that the
  substitute view aliases source field i in its field i.
- `Runtime` (runtime.dfy) models the closure as a list of field assignments.
  For `try_reconstruct` the list may also contain an early `Err(e)`.
  `Reconstruct` and `TryReconstruct` copy the value into a fresh array (the
  `let mut dest`), run the closure on it in place, then freeze it.
  `Substitute` builds a `MutView` of slot aliases into the caller's array
  and writes through it.
- `Scenarios` (scenarios.dfy) replays the repository's usage programs for
  reconstruct, the accepting try_reconstruct and substitute against these
  contracts. It adds one case no program exercises: try_reconstruct whose
  closure calls `Author::try_new` with an empty name, which fails.

Three behaviours of src/lib.rs that the model keeps as written:

- A rejected input makes the macro panic in `unimplemented!()`. The model
  returns `Err(Unimplemented)`. No diagnostic names the required shape.
- Generic parameters are not propagated. The Destruct companion declares none,
  the Mutation companion declares only `'mutation`, and no impl block declares
  any generic parameter (`ExpansionsIgnoreGenerics`).
- Every companion field is `pub`. No per-field directive is read.

## Model

| member | source | states |
|---|---|---|
| Derive.DeriveDestructure | src/lib.rs:164-234 | the Destructure derive fails exactly when the input is not a struct with named fields |
| Derive.DeriveMutation | src/lib.rs:238-282 | the Mutation derive fails exactly when the input is not a struct with named fields |
| Derive.SourceFields | src/lib.rs:171-175 | the shape check gives the field list exactly when the input is a struct with named fields, and that list is the struct's own |
| Derive.DestructName | src/lib.rs:168 | the Destruct companion's name is the prefix `Destruct` followed by the source name |
| Derive.MutName | src/lib.rs:242 | the Mutation companion's name is the source name followed by the suffix `Mut` |
| Derive.PublicFields | src/lib.rs:177-183 | one companion field per source field, in order: `pub`, same name, same type |
| Derive.MutRefFields | src/lib.rs:251-257 | one companion field per source field, in order: `pub`, same name, type `&'mutation mut` of the source type |
| Derive.Initializers | src/lib.rs:185-190 | one clause per source field, in order, initializing member name_i from `self.name_i`; with a move for into_destruct and freeze, with `&mut` for the substitute literal at src/lib.rs:259-264 |
| Derive.OnlyNamedStructsDerive | src/lib.rs:171-175 | tuple structs, unit structs, enums and unions get no output from either derive; named-field structs always get one |
| Derive.DestructureNames | src/lib.rs:166-169 | the companion is named `Destruct` + N; into_destruct builds the companion, freeze builds N, and the impls are on N and on the companion |
| Derive.DestructNameInjective | src/lib.rs:168 | two source names with the same Destruct companion name are equal |
| Derive.DestructCompanionMirrorsSource | src/lib.rs:177-198 | the Destruct companion is `pub` and has exactly the source's fields: same count, order, names and types, each `pub` |
| Derive.DestructureInitializers | src/lib.rs:185-192 | into_destruct and freeze use the same initializer list, and clause i is `name_i: self.name_i` |
| Derive.ExpansionsIgnoreGenerics | src/lib.rs:194-230 | both expansions depend only on the source name and fields; the Destruct companion and every impl declare no generic parameters |
| Derive.MutationNames | src/lib.rs:242-272 | the Mutation companion is named N + `Mut` and declares the one lifetime `'mutation`; substitute is in a bare `impl N` and builds the companion |
| Derive.MutNameInjective | src/lib.rs:242 | two source names with the same Mutation companion name are equal |
| Derive.MutationCompanionMirrorsSource | src/lib.rs:251-257 | Mutation companion field i is `pub name_i: &'mutation mut T_i`, in source order, with the same count |
| Derive.SubstituteInitializers | src/lib.rs:259-264 | the literal passed to the closure initializes field i with `&mut self.name_i`, in source order |
| Eval.IntoDestruct | src/lib.rs:204-206 | the emitted into_destruct literal, evaluated by field name against `self`, gives a companion with one field per source field when it evaluates |
| Eval.Freeze | src/lib.rs:227-229 | the emitted freeze literal, evaluated by field name against the companion, gives a source value with one field per companion field when it evaluates |
| Eval.Aliases | src/lib.rs:274-276 | the borrows of the substitute literal, one per Mutation companion field, each of an existing source field |
| Eval.IntoDestructMovesEveryField | src/lib.rs:204-206 | evaluating the emitted into_destruct literal gives a companion whose field i holds source field i |
| Eval.FreezeMovesEveryField | src/lib.rs:227-229 | evaluating the emitted freeze literal gives a source value whose field i holds companion field i |
| Eval.FreezeAfterIntoDestruct | src/lib.rs:185-192 | `v.into_destruct().freeze() == v` for every value of a non-generic named-field struct with distinct field names |
| Eval.IntoDestructAfterFreeze | src/lib.rs:225-229 | `d.freeze().into_destruct() == d` for every companion value |
| Eval.SubstituteAliasesEveryField | src/lib.rs:273-276 | view field i is a unique borrow of source field i, so no two view fields alias the same source field |
| Runtime.ApplyEditsFieldwise | tests/05-reconstructor.rs:22-24 | after the closure's assignments a field holds the value last assigned to it, or its old value if none was |
| Runtime.UnassignedFieldUnchanged | tests/07-mutation.rs:20-24 | a field that no assignment names keeps its old value |
| Runtime.NoOpReconstructIsIdentity | src/lib.rs:212-216 | reconstruct with a closure that assigns nothing gives back the original value: the generated into_destruct literal followed by the generated freeze literal restores every field |
| Runtime.FailureIsFinal | tests/06-try-reconstructor.rs:36-39 | once the closure has returned an error, later statements change neither the error nor the assignments made |
| Runtime.InfallibleSucceeds | src/lib.rs:218-222 | a closure made only of assignments returns `Ok(())` and performs all of them |
| Runtime.RunEditor | src/lib.rs:214 | running the closure on `&mut dest` in place leaves `dest` equal to the old contents with the assignments applied in order |
| Runtime.Reconstruct | src/lib.rs:212-216 | `reconstruct(v, f)` equals `freeze(f(into_destruct(v)))`: the closure's assignments, with the original value in every other field |
| Runtime.TryReconstruct | src/lib.rs:218-222 | returns `Err(e)` exactly when the closure returns `Err(e)`, with e unchanged; otherwise returns `Ok` of the frozen edited value |
| Runtime.MutView.constructor | src/lib.rs:274-276 | builds the view from the slots the substitute literal borrows |
| Runtime.MutView.Assign | src/lib.rs:255 | a write through view field i changes the source slot that field borrows and no other slot |
| Runtime.Substitute | src/lib.rs:273-277 | after substitute, the source holds the closure's writes made through the view in order, and every other field is unchanged |

## Left out

- Token streams, `syn` parsing (`parse_macro_input!`) and `quote!` emission are library code. Input and output are modelled as datatypes.
- The identifier spans (`Ident::new(.., name.span())`) and the doc comments inside the emitted code have no behaviour to model.
- DestructName and MutName do not model the identifier check of `Ident::new` at src/lib.rs:169 and src/lib.rs:243. For a raw identifier such as `r#Book` the formatted names `Destructr#Book` and `r#BookMut` are not valid identifiers, so both derives panic there. The model treats names as plain strings and returns an expansion.
- The method bodies of reconstruct and try_reconstruct are fixed templates. The expansion lists them by method name, not as syntax. Their meaning is modelled by `Runtime.Reconstruct` and `Runtime.TryReconstruct`.
- Field types are carried but never checked. Borrow checking, the `'mutation` lifetime and privacy are the compiler's job. The model reflects aliasing only through the `MutView` slots and the `modifies` frame of `Substitute`.
- The compiler rejects a struct that declares a field twice, so the evaluation lemmas and the runtime methods require distinct field names (`CompilableStruct`).
- CompilableStruct checks only no generics and distinct field names, and two inputs it admits still fail to compile. A field type that mentions `Self` (`struct Node { next: Option<Box<Self>> }`) is copied verbatim into the companion at src/lib.rs:181 and src/lib.rs:255, where `Self` names the companion, so `DestructNode { next: self.next }` is a type mismatch. `derive(Mutation)` on a struct without fields emits `pub struct EmptyMut<'mutation> {}` at src/lib.rs:268, which rustc rejects for the unused lifetime. The model has no types to check and gives both the same run-time meaning as any other struct.
- For a generic source such as `Domain<A, B>` the expansion does not compile: the companion does not declare `A` and `B`, and `impl Domain` lacks its arguments. `CompilableStruct` therefore also requires no generic parameters, and the run-time meaning is modelled only for non-generic structs.
- The closure is a list of assignments, not an arbitrary function. Field values are opaque values of one type parameter `V`; they are not per-field Rust types.
- substitute takes its closure as `FnMut` but calls it once. The model runs the assignment list once (`Runtime.Substitute`).
- In try_reconstruct a failing `?` is modelled as a `Fail` step that comes before that statement's assignment.
- The `#[destructure(skip)]` directive, generic propagation, the `DestructureRef` derive with `as_destruct`, and `try_substitute` are exercised by tests but absent from src/lib.rs. tests/08-try-mutation.rs is not part of this model. None of their behaviour is invented here.
- bench/program.rs (timing) and tests/program.rs (the compile-test harness) contain no engine logic.
