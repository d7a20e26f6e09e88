/** The `Book` record every part of the application shares. */
module BookTypes {
  import opened Wrappers

  /** The reading state: exactly one of three values. */
  datatype Status = ToRead | Reading | Completed

  /** A review: rating, text and date always travel together. */
  datatype Review = Review(rating: int, text: string, date: string)

  /** One tracked title. `coverImage` and `review` are the only optional
      fields; notes are plain strings. Dates are ISO-8601 strings. */
  datatype Book = Book(
    id: string,
    title: string,
    author: string,
    genre: string,
    publicationYear: int,
    coverImage: Option<string>,
    totalPages: int,
    currentPage: int,
    status: Status,
    notes: seq<string>,
    review: Option<Review>,
    lastUpdated: string)

  /** The literal each status has in stored and displayed data. */
  function StatusName(s: Status): string {
    match s
    case ToRead => "to-read"
    case Reading => "reading"
    case Completed => "completed"
  }

  /** Reads a status literal back; anything but the three literals is not a
      status. */
  function ParseStatus(name: string): (r: Option<Status>)
    ensures r.Some? ==> StatusName(r.value) == name
    ensures forall s :: name == StatusName(s) ==> r == Some(s)
  {
    if name == "to-read" then Some(ToRead)
    else if name == "reading" then Some(Reading)
    else if name == "completed" then Some(Completed)
    else None
  }

  /** The catalog and display fields, which no store operation touches. */
  predicate SameDescription(a: Book, b: Book) {
    && a.id == b.id
    && a.title == b.title
    && a.author == b.author
    && a.genre == b.genre
    && a.publicationYear == b.publicationYear
    && a.coverImage == b.coverImage
    && a.totalPages == b.totalPages
  }

  /** `id` occurs in the library. */
  predicate HasId(books: seq<Book>, id: string) {
    exists i :: 0 <= i < |books| && books[i].id == id
  }
}
