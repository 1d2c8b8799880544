/** The records shared by the link checker's components. */
module Records {

  /** A value that may be absent (`null` / `undefined` on the JavaScript side). */
  datatype Option<T> = None | Some(value: T)

  /** One discovered link: the target, the page it was found on, and its health. */
  datatype LinkRecord = LinkRecord(url: string, sourceUrl: string, status: int, ok: bool)

  /** One completed crawl, as kept in the history (the `CrawlResult` type). */
  datatype CrawlResult = CrawlResult(id: string, url: string, date: string, results: seq<LinkRecord>)
}
