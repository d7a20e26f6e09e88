# Book tracker — a Dafny model of its library logic

This project models the logic of a small React Native reading tracker. A
`Book` record holds a reading status, a page counter, plain-string notes and
an optional review. The library is an ordered `seq<Book>`, and every store
operation is a pure function from the old library to the new one. The screens
derive views from that library: the filtered list, the activity feed and the
detail view's progress and review forms. Books come from manual entry or from
an online catalog. A small resolver picks the theme from a saved preference
and the device's colour scheme.

The model is written in a functional style. It uses immutable datatypes and
functions over sequences. Clock readings, generated ids, the device colour
scheme, the outcome of a storage write and the catalog's answer are all
parameters.

Modules follow the source files:

- `BookTypes` (`src/types/book.ts`): `Status` has exactly three values and
  `Review` is a triple. Only `coverImage` and `review` are optional, as
  `Option`. Notes are `seq<string>`.
- `BookContext` (`src/contexts/BookContext.tsx`): the store operations and
  loading.
- `BookDetailsScreen`, `HomeScreen`, `FeedScreen`, `AddBookScreen`: one
  module per screen.
- `GoogleBooks` (`src/services/googleBooks.ts`): how a catalog item becomes
  a `Book`.
- `ThemeContext` (`src/contexts/ThemeContext.tsx`): theme resolution.
- Helper modules:
  - `Wrappers` and `Seqs` hold `Option`, `filter`, and a `map` that
    rewrites only the selected elements.
  - `JsString` and `JsNumber` model the JavaScript built-ins the screens
    call: `trim`, ASCII `toLowerCase`, `indexOf`/`includes`, `replace` with a
    string pattern, `split(sep)[0]`, `parseInt` and integer `toString`.
  - `StableSort` is the stable, newest-first sort behind the feed.

Three behaviours of the code that are easy to misread, and that the model
keeps as written:

- `addBook` copies the caller's status instead of deriving it.
- `updateReadingProgress` has no range check and never yields `to-read`.
  A 0-page book at page 0 therefore becomes `completed`, not `to-read`.
- `removeBook` removes every book that carries the id, not exactly one.

## Model

| member | source | states |
|---|---|---|
| BookTypes.ParseStatus | src/types/book.ts:10 | only the three literals `to-read`, `reading`, `completed` are statuses; each status reads back from its literal and nothing else does |
| BookContext.LoadBooks | src/contexts/BookContext.tsx:24-33 | a stored value replaces the library only when it is a non-empty string that parses; missing, empty or unparseable storage leaves the library unchanged |
| BookContext.StartupWithoutStoredBooks | src/contexts/BookContext.tsx:18 | with nothing stored, the library after start-up is empty |
| BookContext.AddBook | src/contexts/BookContext.tsx:43-55 | exactly one book is appended at the end and the earlier books are kept in order; the new book has the fresh id (overriding the caller's), page 0, no notes and the new timestamp; every other field comes from the caller |
| BookContext.UpdateBook | src/contexts/BookContext.tsx:57-63 | length and ids are preserved; every book with the argument's id becomes the argument, all others are unchanged; an unknown id is a no-op |
| BookContext.UpdateBookIdempotent | src/contexts/BookContext.tsx:58-60 | applying the same update twice is the same as once |
| BookContext.StoreStatus | src/contexts/BookContext.tsx:71 | the store's status is never `to-read`; it is `completed` exactly when the page equals the page count |
| BookContext.UpdateReadingProgress | src/contexts/BookContext.tsx:65-79 | the targeted books get the page with no range check, a status that is `completed` iff page = total and otherwise `reading`, and the new timestamp; description, notes and review are kept; other books are untouched |
| BookContext.AddNote | src/contexts/BookContext.tsx:81-94 | the targeted book's notes grow by exactly one, the new note is last and the earlier notes keep their order; other books are untouched |
| BookContext.AddNoteTwice | src/contexts/BookContext.tsx:86 | two successive notes both land after the earlier notes, in the order they were added |
| BookContext.AddReview | src/contexts/BookContext.tsx:96-113 | the targeted book's review becomes the given rating and text with no validation, dated now, overwriting any earlier review; progress, status and notes are kept; other books are untouched |
| BookContext.AddReviewLastWins | src/contexts/BookContext.tsx:100-104 | of two reviews of the same book, only the later survives |
| BookContext.RemoveBook | src/contexts/BookContext.tsx:115-119 | the result is an order-preserving subsequence holding exactly the books without the id; its length drops by the number of books with that id; an unknown id is a no-op |
| BookContext.RemoveBookIdempotent | src/contexts/BookContext.tsx:116 | removing twice is removing once |
| BookContext.RemoveUndoesAdd | src/contexts/BookContext.tsx:52 | removing a just-added book by its id restores the library, provided the id was fresh |
| BookContext.OperationsPreserveUniqueIds | src/contexts/BookContext.tsx:43-119 | if ids are unique and the new id is fresh, every store operation keeps them unique |
| BookDetailsScreen.ProgressFraction | src/screens/BookDetailsScreen.tsx:32 | the fraction is 0 for a book without a page count and current/total otherwise, so there is no division by zero; it lies in [0, 1] when the page is in range |
| BookDetailsScreen.InitialInputReadsCurrentPage | src/screens/BookDetailsScreen.tsx:19 | the page field starts with text that parses back to the book's current page |
| BookDetailsScreen.ViewStatus | src/screens/BookDetailsScreen.tsx:40 | `completed` iff the page equals the total; `to-read` iff the page is 0 and not the total; otherwise `reading` |
| BookDetailsScreen.ViewAndStoreStatusDiffer | src/screens/BookDetailsScreen.tsx:40 | the view's rule and the store's rule disagree exactly when the page is 0 and the book has pages; a 0-page book at page 0 is `completed` under both |
| BookDetailsScreen.ProgressRecord | src/screens/BookDetailsScreen.tsx:34-42 | a record is issued iff the parsed page is a number in [0, total]; it changes only page and status, copying every other field from the held book |
| BookDetailsScreen.IdProperty | src/contexts/BookContext.tsx:59 | the `.id` the store reads is undefined for a string argument and the book's id for a book |
| BookDetailsScreen.UpdateBookWith | src/contexts/BookContext.tsx:57-60 | the store's `updateBook` on any JavaScript value: a matching element is replaced by the value itself; given a book, the stored values are exactly the updated library; given a string, whose `.id` matches no book, they are exactly the library's books |
| BookDetailsScreen.HandleUpdateProgressAsWritten | src/screens/BookDetailsScreen.tsx:34-43 | as written, the progress handler leaves the stored values exactly the library's books, because the id string it passes matches no book |
| BookDetailsScreen.HandleUpdateProgress | src/screens/BookDetailsScreen.tsx:34-43 | as intended, a valid page makes every library book with the held book's id become the record built from the held copy, whole, so notes or a review added to the library's copy meanwhile are overwritten; its page and status are the entered page and the view's status; other books are untouched; an invalid page changes nothing |
| BookDetailsScreen.ProgressUpdateIsLost | src/screens/BookDetailsScreen.tsx:37 | on a concrete library, entering page 50 leaves page 0 as written, but page 50 as intended |
| BookDetailsScreen.ReviewRecord | src/screens/BookDetailsScreen.tsx:45-55 | a review is accepted iff the rating is positive (no upper bound) and the text is not blank; the stored text is the trimmed input; nothing but the review changes |
| BookDetailsScreen.HandleAddReviewAsWritten | src/screens/BookDetailsScreen.tsx:45-57 | as written, the review handler leaves the stored values exactly the library's books, because the id string it passes matches no book |
| BookDetailsScreen.HandleAddReview | src/screens/BookDetailsScreen.tsx:45-57 | as intended, an accepted review makes every library book with the held book's id become the reviewed record built from the held copy, whole, with the trimmed text; other books are untouched; a rejected review changes nothing |
| BookDetailsScreen.ReviewWithdrawsOffer | src/screens/BookDetailsScreen.tsx:123 | after the intended review handler, the library's copy of the book no longer qualifies for "Add Review" and takes the status of the copy the screen was opened with (line 14), which may overwrite a status the library held meanwhile; the screen itself tests the copy it received from navigation (line 14), which no handler refreshes |
| BookDetailsScreen.FinishingOffersReview | src/screens/BookDetailsScreen.tsx:123 | recording the last page of an unreviewed book yields a record that qualifies for "Add Review" (`OffersReview`: completed and without a review) |
| JsString.Trim | src/screens/BookDetailsScreen.tsx:51 | `trim` removes only whitespace: the result is the slice of the input that starts after the leading whitespace, with nothing but whitespace after it, and it neither starts nor ends with whitespace; it is empty exactly when the input is all whitespace |
| JsNumber.ParseIntOfDecimal | src/screens/BookDetailsScreen.tsx:35 | `parseInt` reads back any integer written in decimal, followed by nothing or by a character that is neither a digit nor `x`/`X` (a `0x` prefix would switch to hexadecimal) |
| HomeScreen.FilteredBooks | src/screens/HomeScreen.tsx:18-23 | the list is an order-preserving subsequence of the library; a book is in it iff its lower-cased title or author contains the lower-cased query and its status matches the tab, and every copy of a shown book is kept |
| HomeScreen.EmptyQueryShowsAll | src/screens/HomeScreen.tsx:19-21 | the empty query on the "all" tab lists the whole library, in order |
| HomeScreen.SearchIgnoresQueryCase | src/screens/HomeScreen.tsx:19-20 | lower-casing the query does not change which books match |
| HomeScreen.TabsPartitionAll | src/screens/HomeScreen.tsx:21 | the three status tabs together list exactly as many books as the "all" tab |
| StableSort.SortDesc | src/screens/FeedScreen.tsx:47 | the result is a permutation, sorted newest first, and the items sharing a date keep their input order |
| StableSort.SortedStableUnique | src/screens/FeedScreen.tsx:47 | any two sequences that are sorted by date and agree, for every date, on that date's items in order are equal |
| FeedScreen.ItemsOf | src/screens/FeedScreen.tsx:11-44 | a book yields a progress item (dated lastUpdated) iff it has been started, a review item (dated with the review) iff it is reviewed, and one note item per note (dated lastUpdated), so it contributes started + reviewed + note count items |
| FeedScreen.ItemsOrder | src/screens/FeedScreen.tsx:14-42 | a book's items come in generation order: the progress item first, then the review, then the notes in the order they were added |
| FeedScreen.Generated | src/screens/FeedScreen.tsx:10-46 | the flattened items number the sum over books of started + reviewed + note count, and are exactly the activities of the library's books |
| FeedScreen.Feed | src/screens/FeedScreen.tsx:10-47 | the feed is a permutation of the generated items, sorted newest first, with equal dates in generation order; its length is the total activity count |
| FeedScreen.FeedIsTheStableSort | src/screens/FeedScreen.tsx:47 | any stable newest-first ordering of the generated items equals the feed |
| FeedScreen.StartedBookInFeed | src/screens/FeedScreen.tsx:15-22 | every started book appears in the feed with its progress item |
| AddBookScreen.HandleSearch | src/screens/AddBookScreen.tsx:25-42 | a blank query changes nothing; a failed request shows no results; otherwise the mapped catalog answer is shown |
| AddBookScreen.HandleAddBook | src/screens/AddBookScreen.tsx:44-47 | adding a search result appends one book carrying the store's fresh id instead of the catalog id |
| AddBookScreen.NumberOrZero | src/screens/AddBookScreen.tsx:55-56 | unparseable text gives 0 and parseable text gives its value |
| AddBookScreen.ManualNumbers | src/screens/AddBookScreen.tsx:55-56 | a typed page count or year reads back exactly; text that does not start like a number gives 0 |
| AddBookScreen.ManualBook | src/screens/AddBookScreen.tsx:49-61 | the manual record copies title, author and genre verbatim and starts at page 0, `to-read`, with no notes, cover or review |
| AddBookScreen.HandleAddManualBook | src/screens/AddBookScreen.tsx:49-66 | while title or author is empty nothing is added; otherwise one `to-read` book at page 0 is appended with the store's id |
| AddBookScreen.CanAddManual | src/screens/AddBookScreen.tsx:219 | "Add" is disabled only when the title or the author is empty, and so only when one of them would trim to nothing |
| AddBookScreen.BlankNamesEnableAdd | src/screens/AddBookScreen.tsx:219 | whitespace-only title and author enable "Add", while a whitespace-only query does not search |
| GoogleBooks.OrElse | src/services/googleBooks.ts:51-53 | a missing or empty text falls back; any other text is kept |
| GoogleBooks.First | src/services/googleBooks.ts:52-53 | the first author or category exists iff the list is present and non-empty |
| GoogleBooks.YearAsWritten | src/services/googleBooks.ts:54-56 | as written: a missing or empty date gives 0; otherwise the year is `NaN` exactly when the part before the first `-` holds no digits where `parseInt` starts reading, which includes every date that starts with `-` |
| GoogleBooks.Year | src/services/googleBooks.ts:54-56 | the year is what `parseInt` reads from the date's leading segment, or 0 when that is not a number or there is no date |
| GoogleBooks.YearIsNaNForNegativeDates | src/services/googleBooks.ts:54-56 | as written, a date starting with `-` gives a `NaN` year |
| GoogleBooks.YearOfIsoDate | src/services/googleBooks.ts:54-56 | for a "YYYY-…" date, and for a bare "YYYY", whose year is written without leading zeros, the year is that YYYY |
| GoogleBooks.CoverUrl | src/services/googleBooks.ts:57 | there is no cover without a non-empty thumbnail; a thumbnail without `http:` is kept as is |
| GoogleBooks.CoverUpgradesHttp | src/services/googleBooks.ts:57 | an `http:` thumbnail becomes the same URL with `https:` |
| GoogleBooks.ToBook | src/services/googleBooks.ts:47-63 | each result keeps the item's id; title, author and genre fall back to "Unknown …"; the year and cover follow the rules above; pages are the page count or 0; page 0, `to-read`, no notes, no review |
| GoogleBooks.SearchResults | src/services/googleBooks.ts:42-64 | no items give no books; otherwise one book per item, in item order, each stamped with its own clock reading |
| GoogleBooks.ResultsHaveTitleAndAuthor | src/services/googleBooks.ts:51-52 | every catalog book has a non-empty title and author |
| ThemeContext.FromStored | src/contexts/ThemeContext.tsx:29 | the unchecked cast keeps the stored text and is unrecognised iff the text is none of the three names |
| ThemeContext.LoadThemePreference | src/contexts/ThemeContext.tsx:25-34 | only a non-empty stored value overrides the preference, and it becomes that value |
| ThemeContext.IsDarkMode | src/contexts/ThemeContext.tsx:45-48 | `dark` is dark and `light` is light whatever the device says; `system` is dark iff the device scheme is dark; any other value is light |
| ThemeContext.SelectedTheme | src/contexts/ThemeContext.tsx:50 | the dark theme is selected iff dark mode holds |
| ThemeContext.SetThemeType | src/contexts/ThemeContext.tsx:36-43 | the in-memory preference is set whatever the write does; storage holds the new name only if the write succeeds |
| ThemeContext.PreferenceSurvivesRestart | src/contexts/ThemeContext.tsx:25-43 | a preference that was written comes back when loaded at the next start |
| ThemeContext.UnrecognisedIsLight | src/contexts/ThemeContext.tsx:29 | an unrecognised stored value selects the light theme |

The initial theme preference is `ThemeContext.InitialThemeType`, which is
`System` (src/contexts/ThemeContext.tsx:19).

## Findings

| source | as written | input that shows it | evidently intended | confidence | as-written member | corrected member |
|---|---|---|---|---|---|---|
| src/screens/BookDetailsScreen.tsx:37 | `updateBook(book.id, {...})` passes the id string to the store's one-argument `updateBook` (src/contexts/BookContext.tsx:57), whose `.id` is undefined, so no book matches | a 100-page book at page 0 in the library, page field "50" | the record replaces the held book, so the library shows page 50 | high, not executed | BookDetailsScreen.HandleUpdateProgressAsWritten, BookDetailsScreen.ProgressUpdateIsLost | BookDetailsScreen.HandleUpdateProgress |
| src/screens/BookDetailsScreen.tsx:47 | the review handler makes the same two-argument call, so a saved review never reaches the library | any completed book, rating 4, text "good" | the reviewed record replaces the held book | high, not executed | BookDetailsScreen.HandleAddReviewAsWritten | BookDetailsScreen.HandleAddReview |
| src/services/googleBooks.ts:54-56 | a present date whose part before the first `-` has no leading digits makes the year `NaN` | `publishedDate` = "-0044" | an unknown year, 0, as manual entry does with `parseInt(...) \|\| 0` | medium, not executed | GoogleBooks.YearIsNaNForNegativeDates | GoogleBooks.Year |

## Left out

- Persistence: `saveBooks`, the AsyncStorage reads and writes, and JSON
  serialisation are device I/O. Loading takes the stored text and a parse
  function as parameters. Writes are not modelled, except for the theme's
  write-outcome flag.
- The HTTP request in `searchBooks`, its logging, and its rethrow of errors.
  Only the item mapping is modelled. The screen's catch shows up as the
  `Failed` outcome.
- Clock and id generation (`new Date().toISOString()`, `Date.now()`) are
  parameters. Ids made from `Date.now()` need not be unique, so the lemmas
  that depend on uniqueness require it. `addReview` reads the clock twice;
  the model uses one instant for both readings. The catalog mapping reads
  the clock once per item, which the model keeps as one reading per item.
- Floating-point display math is left out: `Math.round(progress * 100)`,
  the feed's `currentPage / totalPages * 100` (which divides by zero for a
  0-page book) and the progress bar. The detail view's fraction is
  modelled with `real`.
- The date comparison in the feed sort is the parameter `time`, which
  stands for `new Date(d).getTime()`. Invalid dates, which give `NaN` from
  the comparator, are not modelled.
- `toLowerCase` folds only ASCII letters. `parseInt` ignores floating-point
  precision for very long digit runs, and the sign of `-0`.
  `JsString.ReplaceFirst` takes the replacement literally. That is exact
  here, because the only replacement used is "https:".
- The `loadBooks` race is not modelled: a load that finishes after a
  mutation overwrites it.
- Rendering, styles and navigation are left out: BookCard, SettingsScreen
  (which also reads a `toggleTheme` the theme context does not provide),
  App, the theme palettes and the navigators. The dark and light themes
  are two constants.
- `src/types/note.ts` is left out. No book operation uses its `Note` type,
  because `Book.notes` holds strings.
- GoogleBooks.ToBook: it stores the corrected year, `GoogleBooks.Year`,
  because `int` has no `NaN`. As written, the year is `NaN` for a present
  date like "-0044" or "n.d."; `GoogleBooks.YearAsWritten` models that
  reading.
- GoogleBooks.CoverUrl: its contract covers only absent and empty
  thumbnails, and URLs without `http:`. Replacing the first `http:` is
  proved only for URLs that start with it (GoogleBooks.CoverUpgradesHttp).
- AddBookScreen.HandleAddBook: its contract names the id, title and
  status of the new book. The other fields follow from BookContext.AddBook.
