/** The movie entry shared by catalog search and the rated-movie table, and
    the failures the request handlers can raise. */
module Movies {
  import opened Outcomes

  /** A movie entry: `rating` is absent on search results and present on
      every row read back from the table. */
  datatype Movie = Movie(
    id: int,
    title: string,
    year: Option<string>,
    posterPath: Option<string>,
    rating: Option<int>)

  /** What a handler raises instead of answering normally. */
  datatype Error =
    | HttpError(status: int, detail: string)   // an HTTP error raised by a handler
    | IntegrityError(message: string)           // a constraint violation reported by SQLite
    | OperationalError(message: string)         // a missing table reported by SQLite
    | OverflowError(message: string)            // a parameter too large to bind as an SQLite INTEGER
}
