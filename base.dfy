/** Shared vocabulary: optional values, fatal errors and network responses. */
module Base {

  /** A value that may be missing (Python's None). */
  datatype Option<+T> = None | Some(value: T) {
    function GetOr(default: T): T {
      if Some? then value else default
    }
  }

  /** Every way a run of the exporter ends with a fatal error.
      The Python code raises (or calls `error`, which exits the process);
      here the failure is a value the caller sees. */
  datatype Error =
    | HttpStatus(status: int)            // raise_for_status on a non-success answer
    | NoResponse(page: nat)              // the modelled server has no answer for this page number
    | NotAnInteger(text: string)         // int(text) raised ValueError
    | NotADate(text: string)             // dateutil could not parse a non-empty date text
    | InvalidCalendarDate(year: int, month: int, day: int)  // datetime.date raised ValueError
    | TitleMissing                       // exactly one of title / title_without_series has no text
    | AlternateLinkMissing               // an author page without the Bookshelves alternate link
    | NoUserId(url: string)              // "Cannot find user ID for <url>"
    | PrivateShelves                     // "This user's shelves and reviews are private ..."
    | SelectedShelfMissing               // the shelf listing has no selected-shelf link to read the count from

  /** Either a value or the fatal error that ended the computation; usable with `:-`. */
  datatype Result<+T> = Ok(value: T) | Err(error: Error) {
    predicate IsFailure() {
      Err?
    }

    function PropagateFailure<U>(): Result<U>
      requires Err?
    {
      Err(error)
    }

    function Extract(): T
      requires Ok?
    {
      value
    }
  }

  /** The answer to one HTTP request: a parsed document, or a non-success status. */
  datatype Response<+P> = Served(page: P) | HttpFailure(status: int)

  /** Python truthiness of an element's text: None and "" are both false. */
  predicate Truthy(text: Option<string>) {
    text.Some? && text.value != ""
  }

  const BaseUrl: string := "https://www.goodreads.com/"
}
