/** The data the licensing pipeline works on: scanner rows, dependency
    records, resolved licenses, errors, and the outside world the pipeline
    talks to (URL rewriting, newline normalisation, HTTP). */
module Types {
  import opened Wrappers

  /** One row of the license scanner's CSV output, already split into
      fields: name, license URL, license id. */
  type Row = seq<string>

  /** What the scanner run produced. `CommandFailed`: the scanner could not
      be run. `Csv(rows, readError)`: the CSV reader delivered `rows` and
      then either reached the end (`readError` false) or reported an error
      (`readError` true). */
  datatype Scan = CommandFailed | Csv(rows: seq<Row>, readError: bool)

  /** A dependency before its license text is known (`LicenseWithoutText`). */
  datatype Record = Record(name: string, licenseUrl: string, licenseId: string)

  /** A dependency with its license text, as written to the bundle. */
  datatype License = License(name: string, licenseId: string, licenseText: string, spdx: bool)

  /** Failures of `http.Get`, of reading the body, and of closing it. */
  datatype FetchError = GetFailed | ReadFailed | CloseFailed

  /** Why the pipeline gave no license list. `IndexOutOfRange` stands for
      the run-time panic of indexing a slice past its end. */
  datatype Error =
    | CommandError
    | CsvError
    | IndexOutOfRange
    | Blacklisted(message: string)
    | FetchFailed(cause: FetchError)

  /** The pipeline's effects on the outside world, in the order they
      happen: a call of `getGitHubRawUrl`, and an HTTP request. */
  datatype Call = RawUrlCall(url: string) | HttpGet(url: string)

  /** A result together with the calls made to compute it. */
  datatype Traced<T> = Traced(result: Result<T, Error>, calls: seq<Call>)

  /** The functions the pipeline calls but whose behaviour is not part of
      this model: the GitHub raw-URL rewrite, newline normalisation, and an
      HTTP GET that reads and closes the body. */
  datatype Env = Env(
    gitHubRawUrl: string -> string,
    normalizeNewlines: string -> string,
    fetch: string -> Result<string, FetchError>)
}
