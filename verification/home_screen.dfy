/** The library list: a case-insensitive search over title and author,
    combined with a status tab ("all" or one status). */
module HomeScreen {
  import opened Seqs
  import opened JsString
  import opened BookTypes

  /** The selected tab. */
  datatype StatusFilter = All | Only(status: Status)

  /** The lower-cased title or author contains the lower-cased query. */
  predicate MatchesSearch(b: Book, query: string) {
    Includes(Lower(b.title), Lower(query)) || Includes(Lower(b.author), Lower(query))
  }

  predicate MatchesStatus(b: Book, tab: StatusFilter) {
    tab.All? || b.status == tab.status
  }

  function Shown(query: string, tab: StatusFilter): Book -> bool {
    (b: Book) => MatchesSearch(b, query) && MatchesStatus(b, tab)
  }

  /** `filteredBooks`: the books that match both the search and the tab, in
      library order. */
  function FilteredBooks(books: seq<Book>, query: string, tab: StatusFilter): (r: seq<Book>)
    ensures IsSubsequence(r, books)
    ensures forall b :: b in r <==> b in books && MatchesSearch(b, query) && MatchesStatus(b, tab)
    ensures forall b :: b in r && tab.Only? ==> b.status == tab.status
    ensures forall b :: multiset(r)[b] == if MatchesSearch(b, query) && MatchesStatus(b, tab) then multiset(books)[b] else 0
  {
    FilterMultiplicity(books, Shown(query, tab));
    Filter(books, Shown(query, tab))
  }

  /** The empty query on the "all" tab lists the whole library. */
  lemma EmptyQueryShowsAll(books: seq<Book>)
    ensures FilteredBooks(books, "", All) == books
  {
    forall i | 0 <= i < |books|
      ensures Shown("", All)(books[i])
    {
      IncludesEmpty(Lower(books[i].title));
    }
    FilterKeepsAll(books, Shown("", All));
  }

  /** The search ignores ASCII case in the query. */
  lemma SearchIgnoresQueryCase(b: Book, query: string)
    ensures MatchesSearch(b, query) <==> MatchesSearch(b, Lower(query))
  {
    LowerIdempotent(query);
  }

  /** The three status tabs split the "all" tab: every listed book is under
      exactly one of them. */
  lemma {:induction false} TabsPartitionAll(books: seq<Book>, query: string)
    ensures |FilteredBooks(books, query, All)|
         == |FilteredBooks(books, query, Only(ToRead))|
          + |FilteredBooks(books, query, Only(Reading))|
          + |FilteredBooks(books, query, Only(Completed))|
  {
    if books != [] {
      TabsPartitionAll(books[1..], query);
      FilteredStep(books, query, All);
      FilteredStep(books, query, Only(ToRead));
      FilteredStep(books, query, Only(Reading));
      FilteredStep(books, query, Only(Completed));
    }
  }

  /** The list grows by one for a shown head and not otherwise. */
  lemma FilteredStep(books: seq<Book>, query: string, tab: StatusFilter)
    requires books != []
    ensures |FilteredBooks(books, query, tab)|
         == (if Shown(query, tab)(books[0]) then 1 else 0) + |FilteredBooks(books[1..], query, tab)|
  {
  }
}
