/** Shared value types: optional values, results with the scraper's error kinds,
    and the result tables every crawl mode hands to the output stage. */
module Common {

  datatype Option<+T> = None | Some(value: T)

  /** The failures the core raises instead of returning a table. */
  datatype ScrapeError =
    /** `NotFoundException`: a global anchor (the "All versions" list) is missing. */
    | NotFound(message: string)

  datatype Result<+R> = Success(value: R) | Failure(error: ScrapeError)

  /** One cell of a result row: the source's tuples mix strings and integer counts. */
  datatype Cell = Str(s: string) | Int(n: int)

  /** A row of a result table (a Python tuple). */
  type Row = seq<Cell>
}
