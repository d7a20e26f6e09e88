/** The library store: the operations `BookProvider` exposes, each a pure
    transformation of the whole `seq<Book>`. The clock (`new Date()`) and the
    id generator (`Date.now()`) are parameters; persisting the new array is
    not modelled. */
module BookContext {
  import opened Wrappers
  import opened Seqs
  import opened BookTypes

  /** The ids of the library, in order. */
  function Ids(books: seq<Book>): (r: seq<string>)
    ensures |r| == |books|
    ensures forall i :: 0 <= i < |books| ==> r[i] == books[i].id
  {
    seq(|books|, i requires 0 <= i < |books| => books[i].id)
  }

  /** No two books share an id. */
  predicate UniqueIds(books: seq<Book>) {
    forall i, j :: 0 <= i < j < |books| ==> books[i].id != books[j].id
  }

  /** The selector of the books a store operation is aimed at. */
  function IdIs(id: string): Book -> bool {
    (b: Book) => b.id == id
  }

  /** The selector `removeBook` keeps. */
  function IdIsNot(id: string): Book -> bool {
    (b: Book) => b.id != id
  }

  /** The library before storage has answered. */
  const InitialBooks: seq<Book> := []

  /** `loadBooks`: a stored value replaces the library only when it is a
      non-empty string that `parse` (`JSON.parse`) accepts; a missing value,
      an empty string or a parse failure leaves the library as it is. */
  function LoadBooks(current: seq<Book>, stored: Option<string>, parse: string -> Option<seq<Book>>): (r: seq<Book>)
    ensures stored.None? ==> r == current
    ensures stored == Some("") ==> r == current
    ensures stored.Some? && parse(stored.value).None? ==> r == current
    ensures stored.Some? && stored.value != "" && parse(stored.value).Some? ==> r == parse(stored.value).value
  {
    match stored
    case None => current
    case Some(text) =>
      if text == "" then current
      else parse(text).GetOr(current)
  }

  /** Starting the application with nothing stored gives an empty library. */
  lemma StartupWithoutStoredBooks(parse: string -> Option<seq<Book>>)
    ensures LoadBooks(InitialBooks, None, parse) == []
    ensures LoadBooks(InitialBooks, Some(""), parse) == []
  {
  }

  /** `addBook`: the caller's record with a fresh id, no notes, page 0 and a
      fresh timestamp, appended at the end. */
  function AddBook(books: seq<Book>, data: Book, freshId: string, now: string): (r: seq<Book>)
    ensures |r| == |books| + 1 && r[..|books|] == books
    ensures var b := r[|books|];
      && b.id == freshId && b.currentPage == 0 && b.notes == [] && b.lastUpdated == now
      && b.title == data.title && b.author == data.author && b.genre == data.genre
      && b.publicationYear == data.publicationYear && b.coverImage == data.coverImage
      && b.totalPages == data.totalPages && b.status == data.status && b.review == data.review
  {
    books + [data.(id := freshId, notes := [], currentPage := 0, lastUpdated := now)]
  }

  /** `updateBook`: every book with the argument's id is replaced by it. */
  function UpdateBook(books: seq<Book>, updated: Book): (r: seq<Book>)
    ensures Ids(r) == Ids(books)
    ensures forall i :: 0 <= i < |books| && books[i].id == updated.id ==> r[i] == updated
    ensures forall i :: 0 <= i < |books| && books[i].id != updated.id ==> r[i] == books[i]
    ensures !HasId(books, updated.id) ==> r == books
  {
    MapWhere(books, IdIs(updated.id), (b: Book) => updated)
  }

  /** The status `updateReadingProgress` assigns: never `to-read`. */
  function StoreStatus(page: int, totalPages: int): (s: Status)
    ensures s != ToRead
    ensures s == Completed <==> page == totalPages
  {
    if page == totalPages then Completed else Reading
  }

  /** `updateReadingProgress`: the page is stored without any range check. */
  function UpdateReadingProgress(books: seq<Book>, id: string, page: int, now: string): (r: seq<Book>)
    ensures Ids(r) == Ids(books)
    ensures forall i :: 0 <= i < |books| && books[i].id != id ==> r[i] == books[i]
    ensures forall i :: 0 <= i < |books| && books[i].id == id ==>
      && SameDescription(r[i], books[i])
      && r[i].currentPage == page
      && r[i].status != ToRead
      && (r[i].status == Completed <==> page == books[i].totalPages)
      && r[i].notes == books[i].notes && r[i].review == books[i].review
      && r[i].lastUpdated == now
  {
    MapWhere(books, IdIs(id),
      (b: Book) => b.(currentPage := page, status := StoreStatus(page, b.totalPages), lastUpdated := now))
  }

  /** `addNote`: the note goes after the book's existing notes. */
  function AddNote(books: seq<Book>, id: string, note: string, now: string): (r: seq<Book>)
    ensures Ids(r) == Ids(books)
    ensures forall i :: 0 <= i < |books| && books[i].id != id ==> r[i] == books[i]
    ensures forall i :: 0 <= i < |books| && books[i].id == id ==>
      && SameDescription(r[i], books[i])
      && |r[i].notes| == |books[i].notes| + 1
      && r[i].notes[..|books[i].notes|] == books[i].notes
      && r[i].notes[|books[i].notes|] == note
      && r[i].currentPage == books[i].currentPage && r[i].status == books[i].status
      && r[i].review == books[i].review
      && r[i].lastUpdated == now
  {
    MapWhere(books, IdIs(id), (b: Book) => b.(notes := b.notes + [note], lastUpdated := now))
  }

  /** `addReview`: any earlier review is overwritten; rating and text are
      stored as given. */
  function AddReview(books: seq<Book>, id: string, rating: int, text: string, now: string): (r: seq<Book>)
    ensures Ids(r) == Ids(books)
    ensures forall i :: 0 <= i < |books| && books[i].id != id ==> r[i] == books[i]
    ensures forall i :: 0 <= i < |books| && books[i].id == id ==>
      && SameDescription(r[i], books[i])
      && r[i].review == Some(Review(rating, text, now))
      && r[i].currentPage == books[i].currentPage && r[i].status == books[i].status
      && r[i].notes == books[i].notes
      && r[i].lastUpdated == now
  {
    MapWhere(books, IdIs(id), (b: Book) => b.(review := Some(Review(rating, text, now)), lastUpdated := now))
  }

  /** How many books carry `id`. */
  function CountId(books: seq<Book>, id: string): nat {
    CountWhere(books, IdIs(id))
  }

  /** `removeBook`: every book with the id goes, the rest keep their order. */
  function RemoveBook(books: seq<Book>, id: string): (r: seq<Book>)
    ensures IsSubsequence(r, books)
    ensures forall b :: b in r <==> b in books && b.id != id
    ensures |r| == |books| - CountId(books, id)
    ensures !HasId(r, id)
    ensures !HasId(books, id) ==> r == books
  {
    var r := Filter(books, IdIsNot(id));
    FilterLength(books, IdIsNot(id), IdIs(id));
    FilterKeepsAll(books, IdIsNot(id));
    assert forall i :: 0 <= i < |r| ==> r[i] in r;
    r
  }

  /** Removing twice is removing once. */
  lemma RemoveBookIdempotent(books: seq<Book>, id: string)
    ensures RemoveBook(RemoveBook(books, id), id) == RemoveBook(books, id)
  {
  }

  /** Removing a freshly added book restores the library, provided the id
      was really fresh (ids made from `Date.now()` need not be). */
  lemma {:induction false} RemoveUndoesAdd(books: seq<Book>, data: Book, freshId: string, now: string)
    requires !HasId(books, freshId)
    ensures RemoveBook(AddBook(books, data, freshId, now), freshId) == books
  {
    var added := AddBook(books, data, freshId, now);
    assert added == books + [added[|books|]];
    FilterConcat(books, [added[|books|]], IdIsNot(freshId));
    FilterKeepsAll(books, IdIsNot(freshId));
  }

  /** Adding with a fresh id keeps ids unique; every other operation keeps
      the id sequence itself. */
  lemma OperationsPreserveUniqueIds(books: seq<Book>, data: Book, updated: Book, id: string, freshId: string,
                                    page: int, note: string, rating: int, text: string, now: string)
    requires UniqueIds(books) && !HasId(books, freshId)
    ensures UniqueIds(AddBook(books, data, freshId, now))
    ensures UniqueIds(UpdateBook(books, updated))
    ensures UniqueIds(UpdateReadingProgress(books, id, page, now))
    ensures UniqueIds(AddNote(books, id, note, now))
    ensures UniqueIds(AddReview(books, id, rating, text, now))
    ensures UniqueIds(RemoveBook(books, id))
  {
    UniqueAfterAdd(books, data, freshId, now);
    SameIdsStayUnique(books, UpdateBook(books, updated));
    SameIdsStayUnique(books, UpdateReadingProgress(books, id, page, now));
    SameIdsStayUnique(books, AddNote(books, id, note, now));
    SameIdsStayUnique(books, AddReview(books, id, rating, text, now));
    UniqueAfterRemove(books, id);
  }

  lemma UniqueAfterAdd(books: seq<Book>, data: Book, freshId: string, now: string)
    requires UniqueIds(books) && !HasId(books, freshId)
    ensures UniqueIds(AddBook(books, data, freshId, now))
  {
    var added := AddBook(books, data, freshId, now);
    forall i, j | 0 <= i < j < |added|
      ensures added[i].id != added[j].id
    {
      if j == |books| {
        assert added[i] == books[i];
      }
    }
  }

  /** Uniqueness is a property of the id sequence alone. */
  lemma SameIdsStayUnique(books: seq<Book>, r: seq<Book>)
    requires UniqueIds(books) && Ids(r) == Ids(books)
    ensures UniqueIds(r)
  {
    forall i, j | 0 <= i < j < |r|
      ensures r[i].id != r[j].id
    {
      assert r[i].id == Ids(r)[i] == books[i].id;
      assert r[j].id == Ids(r)[j] == books[j].id;
    }
  }

  lemma UniqueAfterRemove(books: seq<Book>, id: string)
    requires UniqueIds(books)
    ensures UniqueIds(RemoveBook(books, id))
  {
    UniqueAfterFilter(books, IdIsNot(id));
  }

  /** Dropping books never makes two ids equal. */
  lemma {:induction false} UniqueAfterFilter(books: seq<Book>, keep: Book -> bool)
    requires UniqueIds(books)
    ensures UniqueIds(Filter(books, keep))
  {
    if books != [] {
      var rest := Filter(books[1..], keep);
      assert UniqueIds(books[1..]) by {
        forall i, j | 0 <= i < j < |books[1..]|
          ensures books[1..][i].id != books[1..][j].id
        {
          assert books[1..][i] == books[i + 1] && books[1..][j] == books[j + 1];
        }
      }
      UniqueAfterFilter(books[1..], keep);
      if keep(books[0]) {
        forall j | 0 <= j < |rest|
          ensures rest[j].id != books[0].id
        {
          assert rest[j] in rest;
          var k :| 0 <= k < |books[1..]| && books[1..][k] == rest[j];
          assert books[k + 1] == rest[j];
        }
      }
    }
  }

  /** Two notes added one after the other both land, in order, after the
      book's earlier notes. */
  lemma AddNoteTwice(books: seq<Book>, id: string, first: string, second: string, t1: string, t2: string)
    ensures var r := AddNote(AddNote(books, id, first, t1), id, second, t2);
      forall i :: 0 <= i < |books| && books[i].id == id ==> r[i].notes == books[i].notes + [first, second]
  {
    var mid := AddNote(books, id, first, t1);
    forall i | 0 <= i < |books| && books[i].id == id
      ensures AddNote(mid, id, second, t2)[i].notes == books[i].notes + [first, second]
    {
      AddNoteAt(books, id, first, t1, i);
      AddNoteAt(mid, id, second, t2, i);
      assert books[i].notes + [first] + [second] == books[i].notes + [first, second];
    }
  }

  /** One targeted book: its notes are the old ones plus the new note, and
      it keeps its id. */
  lemma AddNoteAt(books: seq<Book>, id: string, note: string, now: string, i: int)
    requires 0 <= i < |books| && books[i].id == id
    ensures |AddNote(books, id, note, now)| == |books|
    ensures AddNote(books, id, note, now)[i].id == id
    ensures AddNote(books, id, note, now)[i].notes == books[i].notes + [note]
  {
    var b := AddNote(books, id, note, now)[i];
    assert b.notes == b.notes[..|books[i].notes|] + [b.notes[|books[i].notes|]];
  }

  /** Of two reviews of the same book, the later one is the one kept. */
  lemma AddReviewLastWins(books: seq<Book>, id: string, r1: int, x1: string, t1: string, r2: int, x2: string, t2: string)
    ensures AddReview(AddReview(books, id, r1, x1, t1), id, r2, x2, t2) == AddReview(books, id, r2, x2, t2)
  {
  }

  /** Updating with the same record twice is updating once. */
  lemma UpdateBookIdempotent(books: seq<Book>, updated: Book)
    ensures UpdateBook(UpdateBook(books, updated), updated) == UpdateBook(books, updated)
  {
  }
}
