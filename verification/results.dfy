/** Outcome types shared by the whole model: an optional value, and a result
    that is either a value or one of the importer's error conditions. */
module Results {

  /** A value that may be absent (Python's `Optional`). */
  datatype Option<+T> = None | Some(value: T)

  /** The conditions under which the importer raises instead of returning. */
  datatype Error =
    | UnparsableDate(text: string)   // the date parser found no valid month, day and year
    | SectionNotFound(key: string)   // no line of the academic-year page holds "Spring YYYY"
    | BadSemester(semester: string)  // a semester other than fall or spring
    | FetchFailed(url: string)       // the academic-year page could not be fetched
    | MissingClassDays               // first or last day of classes not found
    | NoDeadlinesPage                // neither deadlines URL could be fetched

  /** Either a value or the error that aborted the computation; usable with `:-`. */
  datatype Result<+T> = Ok(value: T) | Err(error: Error) {

    predicate IsFailure() {
      Err?
    }

    function PropagateFailure<U>(): Result<U>
      requires Err?
    {
      Err(error)
    }

    function Extract(): T
      requires Ok?
    {
      value
    }

    /** The same outcome with a present value: how a parse result becomes
        the result of a search that found something. */
    function AsSome(): Result<Option<T>> {
      if Ok? then Ok(Some(value)) else Err(error)
    }
  }
}
