/** The errors a link store can answer with, and the plain map every store is measured against. */
module Storage {
  import opened Wrappers
  import opened Urls

  /** `Remote` is an error of a remote service, passed on as it is. */
  datatype Error = NotFound | SetupFailed | ReadOnly | Failed | Corrupt | Unauthorized | Remote

  type Table = map<string, Url>

  /** What a map of links answers for an URL. */
  function Lookup(table: Table, u: Url): Result<Url, Error> {
    if u.String() in table then Ok(table[u.String()]) else Err(NotFound)
  }
}
