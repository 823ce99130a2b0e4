/** Values shared by the agent, the request pipeline and the Set-Cookie
    segmenter, together with the types of the external collaborators the core
    only calls: the cookie parser, the URL parser and the jar's matching rules.
    Each collaborator is a function-typed parameter, so every property proved
    below holds whatever they do. */
module Http {

  datatype Option<+T> = None | Some(value: T)

  /** A cookie as the cookie parser returns it; the model never looks inside. */
  datatype Cookie = Cookie(name: string, value: string, attributes: string)

  /** An absolute URL as the URL parser returns it. */
  datatype Url = Url(href: string)

  /** One (name, value) pair the jar yields for an outgoing request. */
  datatype NameValue = NameValue(name: string, value: string)

  /** One call of the jar's raw insertion: the parsed cookie and the URL it was
      observed on. The call's success or failure is discarded by every caller. */
  datatype Insertion = Insertion(cookie: Cookie, url: Url)

  /** `Cookie::parse`: a partial function from strings to cookies. */
  type CookieParser = string -> Option<Cookie>

  /** `Url::parse`: a partial function from strings to absolute URLs. */
  type UrlParser = string -> Option<Url>

  /** The jar's own domain, path and expiry matching: the pairs it yields for
      a URL, in its own order, given every insertion it has received. */
  type Matcher = (seq<Insertion>, Url) -> seq<NameValue>

  /** Tags every cookie of `cookies` with the URL it is inserted against. */
  function Tagged(cookies: seq<Cookie>, url: Url): seq<Insertion> {
    seq(|cookies|, k requires 0 <= k < |cookies| => Insertion(cookies[k], url))
  }

  /** The HTTP method of an outgoing request. */
  datatype Method = GET | POST

  /** The fetch API's redirect modes. */
  datatype RedirectPolicy = FollowRedirects | ErrorOnRedirect | Manual

  /** The typestate marker of a request: which terminal operation it allows. */
  datatype Marker = GetMarker | PostMarker

  /** Everything one outgoing request hands to the transport. */
  datatype Outgoing = Outgoing(
    url: Url,
    verb: Method,
    headers: map<string, string>,
    redirect: RedirectPolicy,
    body: Option<string>)

  /** A response header as the host hands it over: readable, or a read that fails. */
  datatype HeaderCell = Readable(text: string) | Unreadable

  /** The status and headers of one response from the transport. */
  datatype WorkerResponse = WorkerResponse(status: nat, headers: map<string, HeaderCell>)

  /** The errors that end a call: a transport failure or a failed header read. */
  datatype Error = TransportFailure(reason: string) | HeaderFailure(name: string)

  /** What the transport answers to one request: a response, or the failure
      the `?` after the request's construction or its send propagates. */
  datatype Reply = Received(response: WorkerResponse) | Failed(reason: string)

  /** The result of `Headers::get`: a present or absent value, or a failure. */
  datatype HeaderRead = Read(value: Option<string>) | ReadFailed

  /** `Headers::get`, which the host implements. */
  function GetHeader(headers: map<string, HeaderCell>, name: string): HeaderRead {
    if name !in headers then Read(None)
    else match headers[name]
      case Readable(text) => Read(Some(text))
      case Unreadable => ReadFailed
  }

  /** How a whole call ends: the final response, an error propagated by `?`, a
      panic of the segmenter's `unwrap`, or a transport script that ran out. */
  datatype CallOutcome =
    | Completed(response: WorkerResponse)
    | Aborted(error: Error)
    | Panicked
    | Exhausted

  /** The only statuses the request loop treats as redirects. */
  predicate IsRedirect(status: nat) {
    status == 301 || status == 302
  }
}
