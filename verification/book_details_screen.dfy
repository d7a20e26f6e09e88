/** The detail view's handlers: the progress form (page-range guard and its
    own status rule), the review dialog (rating and trimmed-text guard), the
    progress fraction and the "Add Review" offer. The view hands its record
    to the store's `updateBook`, which takes one argument, as
    `updateBook(book.id, record)`; both the call as written and the evidently
    intended call are modelled. */
module BookDetailsScreen {
  import opened Wrappers
  import opened Seqs
  import opened JsString
  import opened JsNumber
  import opened BookTypes
  import opened BookContext

  /** The progress fraction shown on the bar: zero for a book without a page
      count, so no division by zero. */
  function ProgressFraction(b: Book): (p: real)
    ensures b.totalPages <= 0 ==> p == 0.0
    ensures b.totalPages > 0 ==> p * (b.totalPages as real) == b.currentPage as real
    ensures 0 <= b.currentPage <= b.totalPages ==> 0.0 <= p <= 1.0
  {
    if b.totalPages > 0 then b.currentPage as real / b.totalPages as real else 0.0
  }

  /** The text the page field starts with: the book's current page. */
  function InitialPageInput(b: Book): string {
    ToDecimal(b.currentPage)
  }

  /** Pressing "Update Progress" without editing the field reads back the
      current page. */
  lemma InitialInputReadsCurrentPage(b: Book)
    ensures ParseInt(InitialPageInput(b)) == Some(b.currentPage)
  {
    ParseIntOfDecimal(b.currentPage, "");
    assert ToDecimal(b.currentPage) + "" == ToDecimal(b.currentPage);
  }

  /** The view's status rule: the last page first, then page zero. */
  function ViewStatus(page: int, totalPages: int): (s: Status)
    ensures s == Completed <==> page == totalPages
    ensures s == ToRead <==> page == 0 && page != totalPages
  {
    if page == totalPages then Completed else if page == 0 then ToRead else Reading
  }

  /** The view and the store disagree exactly on page zero of a book that has
      pages: the view says `to-read`, the store `reading`. A zero-page book at
      page zero is `completed` under both. */
  lemma ViewAndStoreStatusDiffer(page: int, totalPages: int)
    ensures ViewStatus(page, totalPages) != StoreStatus(page, totalPages) <==> page == 0 && totalPages != 0
    ensures ViewStatus(0, 0) == Completed && StoreStatus(0, 0) == Completed
  {
  }

  /** The record `handleUpdateProgress` builds from the page field, or `None`
      when the parsed page is `NaN` or outside `[0, totalPages]`. Only the
      page and the status change; `lastUpdated` is copied. */
  function ProgressRecord(b: Book, input: string): (r: Option<Book>)
    ensures r.Some? <==> ParseInt(input).Some? && 0 <= ParseInt(input).value <= b.totalPages
    ensures r.Some? ==>
      && SameDescription(r.value, b)
      && r.value.currentPage == ParseInt(input).value
      && (r.value.status == Completed <==> r.value.currentPage == b.totalPages)
      && (r.value.status == ToRead <==> r.value.currentPage == 0 && b.totalPages != 0)
      && r.value.notes == b.notes && r.value.review == b.review
      && r.value.lastUpdated == b.lastUpdated
  {
    match ParseInt(input)
    case None => None
    case Some(page) =>
      if 0 <= page <= b.totalPages
      then Some(b.(currentPage := page, status := ViewStatus(page, b.totalPages)))
      else None
  }

  /** A JavaScript value the store's `updateBook` may receive. */
  datatype StoreArgument = BookValue(book: Book) | StringValue(text: string)

  /** The `.id` the store reads off its argument: a string has no `id`
      property, so the read gives `undefined`. */
  function IdProperty(arg: StoreArgument): (r: Option<string>)
    ensures arg.StringValue? ==> r == None
    ensures arg.BookValue? ==> r == Some(arg.book.id)
  {
    match arg
    case BookValue(b) => Some(b.id)
    case StringValue(_) => None
  }

  /** The library as the JavaScript values the store holds. */
  function AsValues(books: seq<Book>): (r: seq<StoreArgument>)
    ensures |r| == |books|
    ensures forall i :: 0 <= i < |books| ==> r[i] == BookValue(books[i])
  {
    seq(|books|, i requires 0 <= i < |books| => BookValue(books[i]))
  }

  /** The store's `updateBook` applied to whatever value it is given: an
      element is replaced by the argument, whatever its kind, when its id
      equals the argument's `.id`. A book argument is an ordinary update; a
      string argument has no `.id`, so it matches no book and the stored
      values stay the library's books. */
  function UpdateBookWith(books: seq<Book>, arg: StoreArgument): (r: seq<StoreArgument>)
    ensures |r| == |books|
    ensures arg.BookValue? ==> r == AsValues(UpdateBook(books, arg.book))
    ensures arg.StringValue? ==> r == AsValues(books)
  {
    seq(|books|, i requires 0 <= i < |books| =>
      if IdProperty(arg) == Some(books[i].id) then arg else BookValue(books[i]))
  }

  /** `handleUpdateProgress` as written: `updateBook(book.id, record)`. The
      store sees only the id string, so the library never changes. */
  function HandleUpdateProgressAsWritten(books: seq<Book>, b: Book, input: string): (r: seq<StoreArgument>)
    ensures r == AsValues(books)
  {
    match ProgressRecord(b, input)
    case None => AsValues(books)
    case Some(_) => UpdateBookWith(books, StringValue(b.id))
  }

  /** `handleUpdateProgress` as intended: the record replaces the held book
      in the library, whole: it is built from the screen's copy, so notes or
      a review added to the library's copy since the screen opened are
      overwritten. Every other book stays. */
  function HandleUpdateProgress(books: seq<Book>, b: Book, input: string): (r: seq<Book>)
    ensures ProgressRecord(b, input).None? ==> r == books
    ensures |r| == |books|
    ensures forall i :: 0 <= i < |books| && books[i].id != b.id ==> r[i] == books[i]
    ensures ProgressRecord(b, input).Some? ==>
      forall i :: 0 <= i < |books| && books[i].id == b.id ==>
        && r[i].currentPage == ParseInt(input).value
        && r[i].status == ViewStatus(ParseInt(input).value, b.totalPages)
    ensures ProgressRecord(b, input).Some? ==>
      forall i :: 0 <= i < |books| && books[i].id == b.id ==> r[i] == ProgressRecord(b, input).value
  {
    match ProgressRecord(b, input)
    case None => books
    case Some(rec) => UpdateBook(books, rec)
  }

  /** A concrete loss: a 100-page book in the library, the reader enters
      page 50, and as written the library still says page 0. */
  lemma ProgressUpdateIsLost()
    ensures var b := Book("1", "Dune", "Herbert", "Fiction", 1965, None, 100, 0, ToRead, [], None, "t0");
      && HandleUpdateProgressAsWritten([b], b, "50")[0] == BookValue(b)
      && b.currentPage == 0
      && HandleUpdateProgress([b], b, "50")[0].currentPage == 50
  {
    var b := Book("1", "Dune", "Herbert", "Fiction", 1965, None, 100, 0, ToRead, [], None, "t0");
    assert NatToDecimal(5) == "5";
    assert NatToDecimal(50) == "50";
    ParseIntOfDecimal(50, "");
    assert ParseInt("50") == Some(50) by {
      assert ToDecimal(50) + "" == "50";
    }
    var rec := ProgressRecord(b, "50");
    assert rec.Some? && rec.value.currentPage == 50;
    assert HandleUpdateProgress([b], b, "50") == UpdateBook([b], rec.value);
  }

  /** The record `handleAddReview` builds, or `None` unless the rating is
      positive and the text is not blank. There is no upper bound on the
      rating. The stored text is trimmed; `lastUpdated` is copied. */
  function ReviewRecord(b: Book, rating: int, text: string, now: string): (r: Option<Book>)
    ensures r.Some? <==> rating > 0 && !AllWhitespace(text)
    ensures r.Some? ==>
      && SameDescription(r.value, b)
      && r.value.review == Some(Review(rating, Trim(text), now))
      && r.value.currentPage == b.currentPage && r.value.status == b.status
      && r.value.notes == b.notes && r.value.lastUpdated == b.lastUpdated
  {
    var t := Trim(text);
    if rating > 0 && t != "" then
      var rec := b.(review := Some(Review(rating, t, now)));
      assert SameDescription(rec, b);
      Some(rec)
    else None
  }

  /** `handleAddReview` as written: like the progress form, it passes the id
      string to `updateBook`, so the library never changes. */
  function HandleAddReviewAsWritten(books: seq<Book>, b: Book, rating: int, text: string, now: string): (r: seq<StoreArgument>)
    ensures r == AsValues(books)
  {
    match ReviewRecord(b, rating, text, now)
    case None => AsValues(books)
    case Some(_) => UpdateBookWith(books, StringValue(b.id))
  }

  /** `handleAddReview` as intended: the reviewed record replaces the held
      book in the library, whole, as in `HandleUpdateProgress`. */
  function HandleAddReview(books: seq<Book>, b: Book, rating: int, text: string, now: string): (r: seq<Book>)
    ensures ReviewRecord(b, rating, text, now).None? ==> r == books
    ensures |r| == |books|
    ensures forall i :: 0 <= i < |books| && books[i].id != b.id ==> r[i] == books[i]
    ensures ReviewRecord(b, rating, text, now).Some? ==>
      forall i :: 0 <= i < |books| && books[i].id == b.id ==> r[i].review == Some(Review(rating, Trim(text), now))
    ensures ReviewRecord(b, rating, text, now).Some? ==>
      forall i :: 0 <= i < |books| && books[i].id == b.id ==> r[i] == ReviewRecord(b, rating, text, now).value
  {
    match ReviewRecord(b, rating, text, now)
    case None => books
    case Some(rec) => UpdateBook(books, rec)
  }

  /** "Add Review" is offered for a finished book without a review. */
  predicate OffersReview(b: Book) {
    b.status == Completed && b.review.None?
  }

  /** Recording the last page of a book that has no review yet yields a
      record for which "Add Review" is offered. */
  lemma FinishingOffersReview(b: Book, input: string)
    requires b.review.None? && b.totalPages >= 0
    requires ParseInt(input) == Some(b.totalPages)
    ensures ProgressRecord(b, input).Some?
    ensures OffersReview(ProgressRecord(b, input).value)
  {
  }

  /** After the intended handler saves a review, the library's copy of the
      book is no longer offered one, and it keeps the held book's status. The
      screen itself tests the copy it was opened with, which no handler
      refreshes. */
  lemma ReviewWithdrawsOffer(books: seq<Book>, b: Book, rating: int, text: string, now: string, i: int)
    requires 0 <= i < |books| && books[i].id == b.id
    requires rating > 0 && !AllWhitespace(text)
    ensures !OffersReview(HandleAddReview(books, b, rating, text, now)[i])
    ensures HandleAddReview(books, b, rating, text, now)[i].status == b.status
  {
  }
}
