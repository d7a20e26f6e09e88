/** The mapping `searchBooks` applies to the catalog's answer: every item
    becomes a new `Book` with fallback texts, a year read from the publish
    date, a secure cover URL and fresh reading state. The HTTP request is
    not modelled. */
module GoogleBooks {
  import opened Wrappers
  import opened JsString
  import opened JsNumber
  import opened BookTypes

  /** The parts of `volumeInfo` the mapping reads; `thumbnail` stands for
      `imageLinks?.thumbnail`. */
  datatype VolumeInfo = VolumeInfo(
    title: Option<string>,
    authors: Option<seq<string>>,
    categories: Option<seq<string>>,
    publishedDate: Option<string>,
    pageCount: Option<int>,
    thumbnail: Option<string>)

  datatype Item = Item(id: string, volumeInfo: VolumeInfo)

  /** The response body: `items` is absent when nothing was found. */
  datatype Response = Response(items: Option<seq<Item>>)

  /** `s || fallback` for an optional string: missing and empty both fall
      back. */
  function OrElse(s: Option<string>, fallback: string): (r: string)
    ensures s.Some? && s.value != "" ==> r == s.value
    ensures s.None? || s.value == "" ==> r == fallback
  {
    match s
    case Some(v) => if v != "" then v else fallback
    case None => fallback
  }

  /** `list?.[0]`: missing for an absent or empty list. */
  function First(list: Option<seq<string>>): (r: Option<string>)
    ensures r.Some? <==> list.Some? && list.value != []
    ensures r.Some? ==> r.value == list.value[0]
  {
    match list
    case Some(l) => if l != [] then Some(l[0]) else None
    case None => None
  }

  /** The year as written: `parseInt(publishedDate.split('-')[0])` for a
      non-empty date, 0 otherwise; `None` is the `NaN` that results when the
      date does not start with digits. */
  function YearAsWritten(publishedDate: Option<string>): (r: Option<int>)
    ensures publishedDate.None? || publishedDate == Some("") ==> r == Some(0)
    ensures publishedDate.Some? && publishedDate.value != "" ==>
      (r.None? <==> var lead := BeforeFirst(publishedDate.value, '-'); DigitRun(Unprefixed(lead), Radix(lead)) == 0)
    ensures publishedDate.Some? && publishedDate.value != "" && publishedDate.value[0] == '-' ==> r.None?
  {
    match publishedDate
    case Some(d) =>
      if d != "" then
        LeadingDashIsNaN(d);
        ParseInt(BeforeFirst(d, '-'))
      else Some(0)
    case None => Some(0)
  }

  /** A date that starts with `-` has an empty leading segment. */
  lemma LeadingDashIsNaN(d: string)
    ensures d != "" && d[0] == '-' ==> ParseInt(BeforeFirst(d, '-')) == None
  {
    if d != "" && d[0] == '-' {
      ParseIntBlank(BeforeFirst(d, '-'));
    }
  }

  /** The year with the manual form's `|| 0` applied as well, so that an
      unreadable date also means "unknown year". */
  function Year(publishedDate: Option<string>): (y: int)
    ensures YearAsWritten(publishedDate).Some? ==> y == YearAsWritten(publishedDate).value
    ensures YearAsWritten(publishedDate).None? ==> y == 0
  {
    YearAsWritten(publishedDate).GetOr(0)
  }

  /** A date that does not start with a digit gives `NaN` as written, for
      example a year before the common era. */
  lemma YearIsNaNForNegativeDates()
    ensures YearAsWritten(Some("-0044")) == None
    ensures Year(Some("-0044")) == 0
  {
    var d := "-0044";
    assert d[0] == '-';
    assert BeforeFirst(d, '-') == "";
    ParseIntBlank("");
  }

  /** For a date of the form "YYYY-MM-DD" (or just "YYYY") both readings
      give the leading year. */
  lemma YearOfIsoDate(year: nat, rest: string)
    ensures YearAsWritten(Some(NatToDecimal(year) + "-" + rest)) == Some(year)
    ensures Year(Some(NatToDecimal(year))) == year
  {
    var ds := NatToDecimal(year);
    assert ToDecimal(year) == ds;
    NoDashInDigits(ds);
    BeforeFirstStopsAtSep(ds, rest);
    ParseIntOfDecimal(year, "");
    assert ds + "" == ds;
    assert BeforeFirst(ds, '-') == ds by {
      BeforeFirstStopsAtSep(ds, "");
      assert ds + "-" + "" == ds + "-";
      assert BeforeFirst(ds + "-", '-') == ds;
      BeforeFirstWhole(ds);
    }
  }

  lemma NoDashInDigits(ds: string)
    requires forall i :: 0 <= i < |ds| ==> IsDigit(ds[i], 10)
    ensures '-' !in ds
  {
  }

  lemma {:induction false} BeforeFirstStopsAtSep(ds: string, rest: string)
    requires '-' !in ds
    ensures BeforeFirst(ds + "-" + rest, '-') == ds
  {
    if ds == [] {
      assert (ds + "-" + rest)[0] == '-';
    } else {
      assert (ds + "-" + rest)[1..] == ds[1..] + "-" + rest;
      BeforeFirstStopsAtSep(ds[1..], rest);
      assert ds == [ds[0]] + ds[1..];
    }
  }

  lemma {:induction false} BeforeFirstWhole(ds: string)
    requires '-' !in ds
    ensures BeforeFirst(ds, '-') == ds
  {
    if ds != [] {
      BeforeFirstWhole(ds[1..]);
      assert ds == [ds[0]] + ds[1..];
    }
  }

  /** `thumbnail?.replace('http:', 'https:') || null`. */
  function CoverUrl(thumbnail: Option<string>): (r: Option<string>)
    ensures thumbnail.None? || thumbnail == Some("") ==> r.None?
    ensures thumbnail.Some? && thumbnail.value != "" && !Includes(thumbnail.value, "http:") ==> r == thumbnail
  {
    match thumbnail
    case Some(t) =>
      var u := ReplaceFirst(t, "http:", "https:");
      if u != "" then Some(u) else None
    case None => None
  }

  /** An `http:` thumbnail is served over `https:` instead. */
  lemma CoverUpgradesHttp(rest: string)
    ensures CoverUrl(Some("http:" + rest)) == Some("https:" + rest)
  {
    var t := "http:" + rest;
    assert t[..5] == "http:";
    assert IndexOf(t, "http:") == Some(0);
    assert t[5..] == rest;
    assert ReplaceFirst(t, "http:", "https:") == t[..0] + "https:" + t[5..];
    assert t[..0] + "https:" + t[5..] == "https:" + rest;
  }

  /** `parseInt`-free `|| 0` on the page count. */
  function PagesOrZero(pageCount: Option<int>): int {
    pageCount.GetOr(0)
  }

  /** One catalog item as a new book, not yet in the library. */
  function ToBook(item: Item, now: string): (b: Book)
    ensures b.id == item.id
    ensures b.title == OrElse(item.volumeInfo.title, "Unknown Title")
    ensures b.author == OrElse(First(item.volumeInfo.authors), "Unknown Author")
    ensures b.genre == OrElse(First(item.volumeInfo.categories), "Unknown Genre")
    ensures b.publicationYear == Year(item.volumeInfo.publishedDate)
    ensures b.coverImage == CoverUrl(item.volumeInfo.thumbnail)
    ensures item.volumeInfo.pageCount.None? ==> b.totalPages == 0
    ensures item.volumeInfo.pageCount.Some? ==> b.totalPages == item.volumeInfo.pageCount.value
    ensures b.currentPage == 0 && b.status == ToRead && b.notes == [] && b.review.None?
    ensures b.lastUpdated == now
  {
    var v := item.volumeInfo;
    Book(
      item.id,
      OrElse(v.title, "Unknown Title"),
      OrElse(First(v.authors), "Unknown Author"),
      OrElse(First(v.categories), "Unknown Genre"),
      Year(v.publishedDate),
      CoverUrl(v.thumbnail),
      PagesOrZero(v.pageCount),
      0, ToRead, [], None, now)
  }

  /** The body of `searchBooks` after the request: no items give no books;
      otherwise one book per item, in the same order, with the item's id.
      The clock is read once per item: `clock(i)` is the reading taken while
      mapping item `i`. */
  function SearchResults(response: Response, clock: nat -> string): (r: seq<Book>)
    ensures response.items.None? ==> r == []
    ensures response.items.Some? ==> |r| == |response.items.value|
    ensures response.items.Some? ==> forall i :: 0 <= i < |r| ==> r[i] == ToBook(response.items.value[i], clock(i))
    ensures forall i :: 0 <= i < |r| ==> r[i].status == ToRead && r[i].currentPage == 0 && r[i].notes == []
  {
    match response.items
    case None => []
    case Some(items) => seq(|items|, i requires 0 <= i < |items| => ToBook(items[i], clock(i)))
  }

  /** Books from the catalog have non-empty title and author. */
  lemma ResultsHaveTitleAndAuthor(response: Response, clock: nat -> string)
    ensures forall b :: b in SearchResults(response, clock) ==> b.title != "" && b.author != ""
  {
  }
}
