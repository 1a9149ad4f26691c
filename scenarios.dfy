/**
  The repository's usage programs, replayed against the contracts of the
  emitted methods: the four-field `Book` edited by reconstruct, by a fallible
  try_reconstruct and by substitute.  The rejected try_reconstruct is not one
  of those programs: it is the case where the fallible constructor is given an
  empty name.
*/
module Scenarios {
  import opened Wrappers
  import opened Syntax
  import opened Derive
  import opened Eval
  import opened Runtime

  const StringTy: Type := Path("String", [])

  /** `pub struct Book { id: String, name: String, published_at: String, author: String }` */
  const Book: DeriveInput := DeriveInput("Book", [], Struct(Named([
    Field("id", StringTy), Field("name", StringTy), Field("published_at", StringTy), Field("author", StringTy)])))

  method BookIsCompilable()
  {
    assert SourceFields(Book.data).Some?;
    var names := FieldNames(SourceFields(Book.data).value);
    assert names == ["id", "name", "published_at", "author"];
    assert CompilableStruct(Book);
  }

  /** `book.reconstruct(|des| { des.author = "reirokusanami".to_string(); })` */
  method ReconstructAuthor()
  {
    BookIsCompilable();
    var book := ["123456789-abc", "name", "2023/01/03", "author"];
    var edited := Reconstruct(Book, book, [Edit(3, "reirokusanami")]);
    assert edited == ["123456789-abc", "name", "2023/01/03", "reirokusanami"];
  }

  /** The closure `|des| { des.author = Author::try_new("reirokusanami")?; Ok(()) }`
      when the constructor accepts the name. */
  lemma AcceptedClosure()
    ensures Outcome<string, string>([Do(Edit(3, "reirokusanami"))]) == None
    ensures Performed<string, string>([Do(Edit(3, "reirokusanami"))]) == [Edit(3, "reirokusanami")]
  {
    var steps: seq<Step<string, string>> := [Do(Edit(3, "reirokusanami"))];
    assert steps[..0] == [];
  }

  /** The same closure when `Author::try_new` is given an empty name and returns its error. */
  lemma RejectedClosure()
    ensures Outcome<string, string>([Fail("`name` is must not empty.")]) == Some("`name` is must not empty.")
  {
    var steps: seq<Step<string, string>> := [Fail("`name` is must not empty.")];
    assert steps[..0] == [];
  }

  /** try_reconstruct with an accepted author: `Ok` with the new author. */
  method TryReconstructAccepted()
  {
    BookIsCompilable();
    var book := ["123456789-abc", "name", "2023/01/03", "author"];
    var steps: seq<Step<string, string>> := [Do(Edit(3, "reirokusanami"))];
    AcceptedClosure();
    var es := [Edit(3, "reirokusanami")];
    assert es[..0] == [];
    assert ApplyEdits(book, es) == ["123456789-abc", "name", "2023/01/03", "reirokusanami"];
    var r := TryReconstruct(Book, book, steps);
    assert r == Ok(["123456789-abc", "name", "2023/01/03", "reirokusanami"]);
  }

  /** try_reconstruct when `Author::try_new("")` fails: the constructor's error, unchanged. */
  method TryReconstructRejected()
  {
    BookIsCompilable();
    var book := ["123456789-abc", "name", "2023/01/03", "author"];
    var steps: seq<Step<string, string>> := [Fail("`name` is must not empty.")];
    RejectedClosure();
    var r := TryReconstruct(Book, book, steps);
    assert r == Err("`name` is must not empty.");
  }

  /** `book.substitute(|book| { *book.name = ..; *book.author = ..; *book.published_at = ..; })` */
  method SubstituteThreeFields()
  {
    BookIsCompilable();
    var book := new string[4];
    book[0], book[1], book[2], book[3] := "123456789-abc", "name", "2023/01/03", "author";
    var before := book[..];
    var f := [Edit(1, "new name"), Edit(3, "reirokusanami"), Edit(2, "2023/01/04")];
    Substitute(Book, book, f);
    assert f[..2][..1] == f[..1] && f[..1][..0] == [];
    assert ApplyEdits(before, f[..1]) == ["123456789-abc", "new name", "2023/01/03", "author"];
    assert ApplyEdits(before, f[..2]) == ["123456789-abc", "new name", "2023/01/03", "reirokusanami"];
    assert book[..] == ["123456789-abc", "new name", "2023/01/04", "reirokusanami"];
  }
}
