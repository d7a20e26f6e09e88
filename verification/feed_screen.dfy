/** The activity feed: each book yields a progress item (when it has been
    started), a review item (when reviewed) and one item per note; the items
    of all books are flattened in library order and sorted, stably, newest
    first. `time` stands for `new Date(date).getTime()`. */
module FeedScreen {
  import opened Wrappers
  import opened BookTypes
  import opened StableSort

  datatype FeedItem =
    | ProgressItem(book: Book, date: string)
    | ReviewItem(book: Book, date: string, review: Review)
    | NoteItem(book: Book, date: string, note: string)

  /** `x` is one of the activities `b` gives rise to, with its date. */
  predicate IsActivityOf(x: FeedItem, b: Book) {
    x.book == b &&
    match x
    case ProgressItem(_, date) => b.currentPage > 0 && date == b.lastUpdated
    case ReviewItem(_, date, review) => b.review == Some(review) && date == review.date
    case NoteItem(_, date, note) => note in b.notes && date == b.lastUpdated
  }

  /** How many items a book contributes. */
  function ActivityCount(b: Book): nat {
    (if b.currentPage > 0 then 1 else 0) + (if b.review.Some? then 1 else 0) + |b.notes|
  }

  function NoteItems(b: Book, notes: seq<string>): (r: seq<FeedItem>)
    ensures |r| == |notes|
    ensures forall i :: 0 <= i < |notes| ==> r[i] == NoteItem(b, b.lastUpdated, notes[i])
  {
    if notes == [] then [] else [NoteItem(b, b.lastUpdated, notes[0])] + NoteItems(b, notes[1..])
  }

  /** One book's items, in generation order: progress, review, notes
      (the order is stated by `ItemsOrder`). */
  function ItemsOf(b: Book): (r: seq<FeedItem>)
    ensures |r| == ActivityCount(b)
    ensures forall x :: x in r <==> IsActivityOf(x, b)
  {
    NoteItemsMembers(b);
    ProgressPart(b) + ReviewPart(b) + NoteItems(b, b.notes)
  }

  /** The progress item, if the book has been started. */
  function ProgressPart(b: Book): seq<FeedItem> {
    if b.currentPage > 0 then [ProgressItem(b, b.lastUpdated)] else []
  }

  /** The review item, if the book has a review. */
  function ReviewPart(b: Book): seq<FeedItem> {
    match b.review
    case Some(rv) => [ReviewItem(b, rv.date, rv)]
    case None => []
  }

  lemma NoteItemsMembers(b: Book)
    ensures forall x: FeedItem :: x in NoteItems(b, b.notes) <==> x.NoteItem? && IsActivityOf(x, b)
  {
    var notes := NoteItems(b, b.notes);
    forall x: FeedItem | x.NoteItem? && IsActivityOf(x, b)
      ensures x in notes
    {
      var j :| 0 <= j < |b.notes| && b.notes[j] == x.note;
      assert notes[j] == x;
    }
  }

  /** The progress item comes first, the review next and the notes last,
      in the order they were added. */
  lemma ItemsOrder(b: Book)
    ensures b.currentPage > 0 ==> ItemsOf(b)[0] == ProgressItem(b, b.lastUpdated)
    ensures b.review.Some? ==> ItemsOf(b)[if b.currentPage > 0 then 1 else 0] == ReviewItem(b, b.review.value.date, b.review.value)
    ensures forall j :: 0 <= j < |b.notes| ==> ItemsOf(b)[ActivityCount(b) - |b.notes| + j] == NoteItem(b, b.lastUpdated, b.notes[j])
  {
    ProgressFirst(b);
    ReviewNext(b);
    NotesLast(b);
  }

  lemma ProgressFirst(b: Book)
    ensures b.currentPage > 0 ==> ItemsOf(b)[0] == ProgressItem(b, b.lastUpdated)
  {
    if b.currentPage > 0 {
      assert ItemsOf(b) == [ProgressItem(b, b.lastUpdated)] + (ReviewPart(b) + NoteItems(b, b.notes));
    }
  }

  lemma ReviewNext(b: Book)
    ensures b.review.Some? ==> ItemsOf(b)[if b.currentPage > 0 then 1 else 0] == ReviewItem(b, b.review.value.date, b.review.value)
  {
    if b.review.Some? {
      var rv := b.review.value;
      var head := ProgressPart(b);
      assert ItemsOf(b) == head + ([ReviewItem(b, rv.date, rv)] + NoteItems(b, b.notes));
      assert |head| == if b.currentPage > 0 then 1 else 0;
    }
  }

  lemma NotesLast(b: Book)
    ensures forall j :: 0 <= j < |b.notes| ==> ItemsOf(b)[ActivityCount(b) - |b.notes| + j] == NoteItem(b, b.lastUpdated, b.notes[j])
  {
    var head := ProgressPart(b) + ReviewPart(b);
    var notes := NoteItems(b, b.notes);
    assert ItemsOf(b) == head + notes;
    assert |head| == ActivityCount(b) - |b.notes|;
    forall j | 0 <= j < |b.notes|
      ensures ItemsOf(b)[|head| + j] == NoteItem(b, b.lastUpdated, b.notes[j])
    {
      assert (head + notes)[|head| + j] == notes[j];
    }
  }

  /** Total number of items over the library. */
  function TotalActivity(books: seq<Book>): nat {
    if books == [] then 0 else ActivityCount(books[0]) + TotalActivity(books[1..])
  }

  /** `x` is an activity of some book of the library. */
  predicate IsActivityIn(x: FeedItem, books: seq<Book>) {
    exists i :: 0 <= i < |books| && IsActivityOf(x, books[i])
  }

  lemma ActivityInSplit(x: FeedItem, books: seq<Book>)
    requires books != []
    ensures IsActivityIn(x, books) <==> IsActivityOf(x, books[0]) || IsActivityIn(x, books[1..])
  {
    if IsActivityIn(x, books) && !IsActivityOf(x, books[0]) {
      var i :| 0 <= i < |books| && IsActivityOf(x, books[i]);
      assert books[1..][i - 1] == books[i];
    }
  }

  /** The items of every book, flattened in library order. */
  function Generated(books: seq<Book>): (r: seq<FeedItem>)
    ensures |r| == TotalActivity(books)
    ensures forall x :: x in r <==> IsActivityIn(x, books)
  {
    if books == [] then []
    else
      assert forall x :: IsActivityIn(x, books) <==> IsActivityOf(x, books[0]) || IsActivityIn(x, books[1..]) by {
        forall x
          ensures IsActivityIn(x, books) <==> IsActivityOf(x, books[0]) || IsActivityIn(x, books[1..])
        {
          ActivityInSplit(x, books);
        }
      }
      ItemsOf(books[0]) + Generated(books[1..])
  }

  /** The sort key of an item: its date as a time value. */
  function DateKey(time: string -> int): FeedItem -> int {
    (x: FeedItem) => time(x.date)
  }

  /** `feedItems`: the generated items, newest first, ties in generation
      order. */
  function Feed(books: seq<Book>, time: string -> int): (r: seq<FeedItem>)
    ensures SortedDesc(r, DateKey(time))
    ensures multiset(r) == multiset(Generated(books))
    ensures forall k :: WithKey(r, DateKey(time), k) == WithKey(Generated(books), DateKey(time), k)
    ensures |r| == TotalActivity(books)
    ensures forall x :: x in r <==> IsActivityIn(x, books)
  {
    var r := SortDesc(Generated(books), DateKey(time));
    assert |r| == |multiset(r)| == |Generated(books)|;
    assert forall x :: x in r <==> x in multiset(r);
    assert forall x :: x in Generated(books) <==> x in multiset(Generated(books));
    r
  }

  /** The feed is the only order a stable newest-first sort can produce:
      any sequence with the three properties of `Feed` is `Feed`. */
  lemma FeedIsTheStableSort(books: seq<Book>, time: string -> int, other: seq<FeedItem>)
    requires SortedDesc(other, DateKey(time))
    requires forall k :: WithKey(other, DateKey(time), k) == WithKey(Generated(books), DateKey(time), k)
    ensures other == Feed(books, time)
  {
    SortedStableUnique(other, Feed(books, time), DateKey(time));
  }

  /** A started book shows up in the feed with its progress. */
  lemma StartedBookInFeed(books: seq<Book>, time: string -> int, i: int)
    requires 0 <= i < |books| && books[i].currentPage > 0
    ensures ProgressItem(books[i], books[i].lastUpdated) in Feed(books, time)
  {
    assert IsActivityOf(ProgressItem(books[i], books[i].lastUpdated), books[i]);
  }
}
