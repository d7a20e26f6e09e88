/** The add-book view: the search box (blank queries do nothing, failures
    show no results), adding a search result, and the manual-entry dialog. */
module AddBookScreen {
  import opened Wrappers
  import opened JsString
  import opened JsNumber
  import opened BookTypes
  import opened BookContext
  import opened GoogleBooks

  /** `handleSearch` goes ahead only for a query with a non-blank character. */
  predicate ShouldSearch(query: string) {
    Trim(query) != ""
  }

  /** How the catalog request ended: it threw, or it answered. */
  datatype SearchOutcome = Failed | Answered(response: Response)

  /** The result list after `handleSearch`. A blank query returns before
      touching anything; a failed request shows no results. */
  function HandleSearch(query: string, previous: seq<Book>, outcome: SearchOutcome, clock: nat -> string): (r: seq<Book>)
    ensures AllWhitespace(query) ==> r == previous
    ensures !AllWhitespace(query) && outcome.Failed? ==> r == []
    ensures !AllWhitespace(query) && outcome.Answered? ==> r == SearchResults(outcome.response, clock)
  {
    if !ShouldSearch(query) then previous
    else
      match outcome
      case Failed => []
      case Answered(response) => SearchResults(response, clock)
  }

  /** `handleAddBook`: a search result goes to the store, which replaces its
      catalog id with a fresh one. */
  function HandleAddBook(books: seq<Book>, result: Book, freshId: string, now: string): (r: seq<Book>)
    ensures |r| == |books| + 1 && r[..|books|] == books
    ensures r[|books|].id == freshId && r[|books|].title == result.title && r[|books|].status == result.status
  {
    AddBook(books, result, freshId, now)
  }

  /** The manual-entry dialog's text fields. */
  datatype ManualForm = ManualForm(title: string, author: string, totalPages: string, genre: string, publicationYear: string)

  /** `parseInt(text) || 0`. */
  function NumberOrZero(text: string): (n: int)
    ensures ParseInt(text).None? ==> n == 0
    ensures ParseInt(text).Some? ==> n == ParseInt(text).value
  {
    ParseInt(text).GetOr(0)
  }

  /** The manual "Add" button is enabled when title and author are non-empty;
      whitespace counts as content. */
  predicate CanAddManual(form: ManualForm)
    ensures !CanAddManual(form) ==> Trim(form.title) == "" || Trim(form.author) == ""
  {
    form.title != "" && form.author != ""
  }

  /** The record `handleAddManualBook` builds. */
  function ManualBook(form: ManualForm, id: string, now: string): (b: Book)
    ensures b.id == id
    ensures b.title == form.title && b.author == form.author && b.genre == form.genre
    ensures b.totalPages == NumberOrZero(form.totalPages)
    ensures b.publicationYear == NumberOrZero(form.publicationYear)
    ensures b.coverImage.None? && b.review.None?
    ensures b.currentPage == 0 && b.status == ToRead && b.notes == []
    ensures b.lastUpdated == now
  {
    Book(id, form.title, form.author, form.genre, NumberOrZero(form.publicationYear),
      None, NumberOrZero(form.totalPages), 0, ToRead, [], None, now)
  }

  /** Pressing "Add" in the dialog: nothing while the button is disabled,
      otherwise the manual record goes to the store, which gives it the
      store's id. */
  function HandleAddManualBook(books: seq<Book>, form: ManualForm, viewId: string, storeId: string,
                               now: string, storeNow: string): (r: seq<Book>)
    ensures !CanAddManual(form) ==> r == books
    ensures CanAddManual(form) ==>
      && |r| == |books| + 1 && r[..|books|] == books
      && var b := r[|books|];
        && b.id == storeId && b.title == form.title && b.author == form.author
        && b.status == ToRead && b.currentPage == 0 && b.notes == []
  {
    if CanAddManual(form) then AddBook(books, ManualBook(form, viewId, now), storeId, storeNow) else books
  }

  /** A title and author of only spaces enable the button. */
  lemma BlankNamesEnableAdd()
    ensures CanAddManual(ManualForm(" ", " ", "", "", ""))
    ensures !ShouldSearch(" ")
  {
    assert AllWhitespace(" ");
  }

  /** Typed page counts and years are read back exactly; text that is not a
      number becomes 0. */
  lemma ManualNumbers(pages: nat, junk: string)
    requires junk == [] || (!IsDigit(junk[0], 10) && junk[0] != '-' && junk[0] != '+' && !IsWhitespace(junk[0]))
    ensures NumberOrZero(NatToDecimal(pages)) == pages
    ensures NumberOrZero(junk) == 0
  {
    ParseIntOfDecimal(pages, "");
    assert ToDecimal(pages) + "" == NatToDecimal(pages);
    ParseIntNonNumeric(junk);
  }
}
