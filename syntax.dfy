/**
  The abstract syntax the derive engine reads and writes.

  Input: the parts of a `syn::DeriveInput` that `derive_destructure` and
  `derive_mutation` look at (the type's identifier, its generic parameters and
  the shape of its data).  Output: the struct declaration, the impl blocks and
  the struct literals that the `quote!` templates emit, as values rather than
  tokens.
*/
module Syntax {

  /** A type expression.  Field types are copied verbatim; the Mutation
      companion wraps each one in `&'mutation mut`. */
  datatype Type =
    | Path(ident: string, args: seq<Type>)                    // `String`, `Vec<T>`, `NumId<Book>`
    | Reference(lifetime: string, mutable: bool, elem: Type)  // `&'a T`, `&'a mut T`

  /** A named field `name: ty` of the source struct. */
  datatype Field = Field(name: string, ty: Type)

  /** `syn::Fields`: `{ a: A, .. }`, `(A, ..)` or nothing. */
  datatype Fields =
    | Named(named: seq<Field>)
    | Unnamed(unnamed: seq<Type>)
    | Unit

  /** `syn::Data`: the three kinds of item a derive can be attached to. */
  datatype Data =
    | Struct(fields: Fields)
    | Enum(variants: seq<string>)
    | Union(union: seq<Field>)

  datatype GenericParam = Lifetime(name: string) | TypeParam(name: string)

  /** The declaration a derive is attached to. */
  datatype DeriveInput = DeriveInput(ident: string, generics: seq<GenericParam>, data: Data)

  /** `pub` or the default (private) visibility. */
  datatype Visibility = Public | Inherited

  /** One field of an emitted struct declaration: `pub name: ty`. */
  datatype StructField = StructField(vis: Visibility, name: string, ty: Type)

  /** An emitted `pub struct Ident<generics> { fields }`. */
  datatype ItemStruct = ItemStruct(vis: Visibility, ident: string, generics: seq<GenericParam>, fields: seq<StructField>)

  /** How a struct-literal initializer reaches the source field: by move or by unique borrow. */
  datatype Access = Move | BorrowMut

  /** `self.field` (Move) or `&mut self.field` (BorrowMut). */
  datatype Expr = SelfField(access: Access, field: string)

  /** One initializer `member: expr` of a struct literal. */
  datatype FieldValue = FieldValue(member: string, expr: Expr)

  /** A struct literal `Path { member: expr, .. }`. */
  datatype StructLiteral = StructLiteral(path: string, fields: seq<FieldValue>)

  /** An emitted `impl<generics> SelfTy { fn .. }`, listing the methods it defines. */
  datatype ImplBlock = ImplBlock(selfTy: string, generics: seq<GenericParam>, methods: seq<string>)

  /** Everything `derive_destructure` emits: the companion struct, the impl on the
      source type (into_destruct, reconstruct, try_reconstruct) with the struct
      literal that into_destruct returns, and the impl on the companion (freeze)
      with the literal that freeze returns. */
  datatype DestructureExpansion = DestructureExpansion(
    companion: ItemStruct,
    sourceImpl: ImplBlock,
    intoDestruct: StructLiteral,
    companionImpl: ImplBlock,
    freeze: StructLiteral)

  /** Everything `derive_mutation` emits: the companion struct, the impl on the
      source type (substitute) and the literal that substitute passes to `f`. */
  datatype MutationExpansion = MutationExpansion(
    companion: ItemStruct,
    sourceImpl: ImplBlock,
    substitute: StructLiteral)

  /** The derive rejects its input by panicking in `unimplemented!()`. */
  datatype DeriveError = Unimplemented

  /** The field names of a source struct, in declaration order. */
  function FieldNames(fs: seq<Field>): (r: seq<string>)
    ensures |r| == |fs|
  {
    seq(|fs|, i requires 0 <= i < |fs| => fs[i].name)
  }

  /** The field names of an emitted struct, in declaration order. */
  function DeclaredNames(s: ItemStruct): (r: seq<string>)
    ensures |r| == |s.fields|
  {
    seq(|s.fields|, i requires 0 <= i < |s.fields| => s.fields[i].name)
  }

  /** No name occurs twice; the compiler rejects a struct that declares a field twice. */
  predicate DistinctNames(names: seq<string>) {
    forall i, j | 0 <= i < j < |names| :: names[i] != names[j]
  }
}
