/** The rows of the two tables, what a request hands the handlers, and the
    HTTP responses the handlers answer with. */
module Records {
  import opened Js

  /** A row of the `urls` table. `createdAt` and `visits` are filled in by
      the database (the creation time, and a counter that starts at 0). */
  datatype Link = Link(code: string, longUrl: string, createdAt: int, visits: int)

  /** A row of the `visits` table. */
  datatype Visit = Visit(
    code: string,
    ipAddress: Option<string>,
    userAgent: Option<string>,
    referrer: Option<string>,
    location: Option<string>)

  /** What the redirect handler reads from the request besides the code:
      `req.ip` and the values of `req.get('User-Agent')`,
      `req.get('Referrer')` and `req.get('Referer')`. */
  datatype Request = Request(
    ip: Option<string>,
    userAgent: Option<string>,
    referrerHeader: Option<string>,
    refererHeader: Option<string>)

  /** How one `db.query` call settles: it resolves with its rows, or it
      rejects with an error whose `message` the handler reports. */
  datatype DbReply = Resolved | Rejected(message: string)

  /** One element of the list handler's answer. */
  datatype Entry = Entry(shortUrl: string, longUrl: string, createdAt: int, visits: int)

  /** The body of a response: a JSON object of one of the shapes the handlers
      send, a plain-text body, or the target of a redirect. */
  datatype Body =
    | Failure(error: string)
    | FailureDetail(error: string, details: string)
    | Shortened(shortUrl: string, isNew: bool, message: string)
    | Original(longUrl: string)
    | Row(link: Link)
    | Listing(entries: seq<Entry>)
    | Text(text: string)
    | Location(url: string)

  datatype Response = Response(status: nat, body: Body)
}
