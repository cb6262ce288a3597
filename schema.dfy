/** The two persisted record types, the committed tables as values, and the
    writes a transaction scope buffers until it is committed. */
module Schema {

  /** A row of public.authors. */
  datatype Author = Author(id: int, firstName: string, lastName: string, bio: string, dateOfBirth: int)

  /** A row of public.books; authorId is not checked against the authors table. */
  datatype Book = Book(id: int, title: string, authorId: int, year: int, isbn: string)

  /** The committed content of both tables, keyed by row id. */
  datatype Tables = Tables(authors: map<int, Author>, books: map<int, Book>)

  /** One write issued through a transaction scope. */
  datatype Write =
    | PutAuthor(author: Author)
    | DropAuthor(authorKey: int)
    | PutBook(book: Book)
    | DropBook(bookKey: int)

  function Step(t: Tables, w: Write): Tables
  {
    match w
    case PutAuthor(a) => t.(authors := t.authors[a.id := a])
    case DropAuthor(k) => t.(authors := t.authors - {k})
    case PutBook(b) => t.(books := t.books[b.id := b])
    case DropBook(k) => t.(books := t.books - {k})
  }

  /** The tables after the writes `ws`, in the order they were issued. */
  function Apply(t: Tables, ws: seq<Write>): Tables
  {
    if ws == [] then t else Step(Apply(t, ws[..|ws| - 1]), ws[|ws| - 1])
  }

  /** Every row sits under its own id, ids are positive, and every id is
      below the next value of its table's serial sequence. */
  ghost predicate Bounded(t: Tables, nextAuthorId: int, nextBookId: int)
  {
    && (forall k :: k in t.authors ==> 1 <= k < nextAuthorId && t.authors[k].id == k)
    && (forall k :: k in t.books ==> 1 <= k < nextBookId && t.books[k].id == k)
  }

  /** Every row a buffered write stores has an id the sequences already handed out. */
  ghost predicate WritesBounded(ws: seq<Write>, nextAuthorId: int, nextBookId: int)
  {
    forall i :: 0 <= i < |ws| ==>
      && (ws[i].PutAuthor? ==> 1 <= ws[i].author.id < nextAuthorId)
      && (ws[i].PutBook? ==> 1 <= ws[i].book.id < nextBookId)
  }

  /** Replaying bounded writes on bounded tables keeps them bounded: a
      committed scope never leaves a row under a foreign or unissued id. */
  lemma {:induction false} ApplyBounded(t: Tables, ws: seq<Write>, nextAuthorId: int, nextBookId: int)
    requires Bounded(t, nextAuthorId, nextBookId)
    requires WritesBounded(ws, nextAuthorId, nextBookId)
    ensures Bounded(Apply(t, ws), nextAuthorId, nextBookId)
  {
    if ws != [] {
      var init := ws[..|ws| - 1];
      assert WritesBounded(init, nextAuthorId, nextBookId) by {
        forall i | 0 <= i < |init| ensures init[i] == ws[i] { }
      }
      ApplyBounded(t, init, nextAuthorId, nextBookId);
    }
  }
}
