# cf-worker-http-client, modelled in Dafny

This project models the core of `cf-worker-http-client`, a small HTTP client
for Cloudflare Workers. The client keeps cookies across requests and follows
redirects itself. The model covers three parts:

- **The Set-Cookie segmenter.** The host joins several `Set-Cookie` headers
  into one comma-separated value. A comma inside an `Expires` date looks the
  same as a separator. The client cuts the value with `split_inclusive(',')`
  and walks the fragments with one fragment of lookahead. It glues a fragment
  to the next one when the next one does not parse on its own. This is
  `Agent::store_response_cookies` (src/agent.rs) and its copy
  `add_response_cookies` (src/util.rs).
  - `Segmenter.Walk` is the reference definition of that loop.
  - `Util.AddResponseCookies` is the loop itself, over a cookie store. It is
    proved to insert exactly what `Walk` prescribes.
  - `Client.Agent.StoreResponseCookies` delegates to it and keeps the same
    contract.
- **The `Cookie` request header.** It is `name=value; ` for every pair the
  jar yields for a URL. It is modelled as a loop proved against
  `CookieJar.CookieHeader`. The decoder `CookieJar.DecodeCookieHeader` is
  the function's inverse.
- **The request.** `Request::new` builds the request with its `Cookie` header.
  `get_response_inner` sends one request with the redirect mode `Manual`.
  `do_call` is the manual redirect loop, with its cookie storing. `send_form`
  is the POST entry point.
  - `Redirects.Send` and `Redirects.Follow` define a call over two things:
    the jar's insertion log and a finite script of transport replies.
  - `Client.Request.DoCall` is the loop, proved to end in exactly the state
    `Send` prescribes.

The cookie parser, the URL parser and the jar's matching rules are external
crates. The model takes each one as a function-typed parameter, so every
property holds whatever those functions do. The transport is a `Transport`
object that answers requests from a script of replies and records every
request it is handed.

Modules:

- `Http`: shared value types.
- `Segmenter`: splitting and the walk, the findings, and the corrected walk.
- `CookieJar`: the insertion log and the `Cookie` header.
- `Util`: the imperative segmenter.
- `Fetch`: the transport.
- `Redirects`: the specification of a call.
- `Client`: the `Agent` and `Request` classes.

Three behaviours of the code that a reader might not expect, all modelled as
written:

- Unlike common clients, the client stores the final response's cookies
  against the request's original URL (`self.url`), not against the URL that
  answered last. See `Redirects.FinalCookiesKeyedToOrigin`.
- A `Location` header goes through `Url::parse` as an absolute URL. It is not
  resolved against the current URL, so a relative `Location` fails to parse
  and the 301/302 is returned as it is. See
  `Redirects.UnresolvedRedirectIsFinal`.
- Each fragment is handed to the cookie parser with its trailing comma still
  attached (`"a=1,"`). The glued string is the exact adjacent slice of the
  header (`Segmenter.MergedIsAdjacentSlice`).

## Model

| member | source | states |
|---|---|---|
| Segmenter.SplitInclusive | src/agent.rs:43 | the fragments concatenate back to the header; each is non-empty; every fragment but the last ends in ',' and none has a ',' before its last character |
| Segmenter.SplitUnique | src/util.rs:7 | any cut with those properties is exactly `split_inclusive(',')`, so the characterisation is complete |
| Segmenter.CommaFreeSplit | src/agent.rs:43 | a header without a comma is one fragment, or none when empty |
| Segmenter.MergedIsAdjacentSlice | src/agent.rs:56-60 | the pointer-and-length slice built from the current and next fragment is exactly their concatenation, as it sits in the header |
| Segmenter.Segment | src/agent.rs:43-75 | the segmenter on one header value: the walk over its `split_inclusive(',')` fragments, inserting at most one cookie per fragment |
| Segmenter.Walk | src/agent.rs:48-75 | the loop never inserts more cookies than there are fragments left |
| Segmenter.CommaFreeHeader | src/agent.rs:45-75 | with no comma in the header, the loop body never runs and the whole value is parsed once, then inserted if it parses |
| Segmenter.UnwrapPanics | src/agent.rs:49-53 | when the next fragment parses, nothing is pending and the current fragment does not parse, `new.unwrap()` panics and nothing more is inserted |
| Segmenter.ParseAll | src/agent.rs:49-54 | the parse of every fragment, one for one and in order |
| Segmenter.AllFragmentsParse | src/agent.rs:48-75 | when every fragment parses on its own, each is inserted once, in order, and the cached `pending` cookie is exactly the current fragment's parse |
| Segmenter.JoinedDeclarationsRecovered | src/util.rs:6-39 | a header of comma-free declarations joined with ',' yields each declaration, in order, with no panic |
| Segmenter.ExpiresDateRecovered | src/agent.rs:55-67 | a declaration cut in two by the comma of an `Expires` date is glued back, parsed once and inserted once |
| Segmenter.InsertedComeFromFragments | src/agent.rs:48-75 | every inserted cookie is the initial `pending`, or the parse of one fragment or of two adjacent fragments glued together |
| Segmenter.StalePendingReinserted | src/agent.rs:50-66 | as written, after a merge the stale `pending` is committed in place of the next fragment: `[p(f0), p(f1+f2), p(f1), p(f4)]`, where the corrected walk gives `[p(f0), p(f1+f2), p(f3), p(f4)]` |
| Segmenter.MalformedBeforeValidPanics | src/util.rs:13-17 | as written, a malformed fragment followed by a valid one panics with nothing inserted; the corrected walk inserts the valid one |
| Segmenter.Intended | src/util.rs:12-38 | the corrected walk inserts at most one cookie per fragment |
| Segmenter.IntendedRecoversDeclarations | src/util.rs:12-38 | the corrected walk yields every declaration (a parsing fragment, or a fragment that does not parse glued to a continuation) in order |
| Segmenter.IntendedInsertsOnlyParsed | src/util.rs:12-38 | the corrected walk never panics, and each cookie it inserts is the parse of one fragment or of two adjacent fragments |
| Segmenter.AgreesWhenAllParse | src/agent.rs:48-75 | where every fragment parses on its own, the source's walk and the corrected walk insert the same cookies and neither panics |
| Segmenter.IntendedAllParse | src/util.rs:12-38 | where every fragment parses, the corrected walk inserts each fragment's parse in order |
| Util.AddResponseCookies | src/util.rs:6-39 | the store receives exactly the insertions `Segment` prescribes, each against `url`; the panic flag is set exactly when `Segment` panics |
| Client.Agent.StoreResponseCookies | src/agent.rs:42-76 | the same insertions and the same panic condition as `add_response_cookies` |
| Client.Agent.GetRequestCookies | src/agent.rs:32-40 | the result is `CookieHeader` of the jar's pairs for `url`, built one `name=value; ` entry at a time |
| CookieJar.CookieHeader | src/agent.rs:32-40 | the `Cookie` header for a sequence of pairs: each pair contributes at least its `=` and its `; ` |
| CookieJar.CookieStore.RequestValues | src/agent.rs:35 | `get_request_values(url)`: the jar's own matching applied to every insertion it has received |
| CookieJar.CookieHeaderAppend | src/agent.rs:35-36 | appending a pair appends exactly `name=value; ` to the header |
| CookieJar.CookieHeaderShape | src/agent.rs:32-40 | the header is empty exactly when the jar yields no pair; otherwise it ends in "; " |
| CookieJar.DecodeCookieHeaderInverse | src/agent.rs:32-40 | a header built from pairs whose names have no '=' and whose values have no ';' decodes back to exactly those pairs, in order |
| CookieJar.CookieStore.InsertRaw | src/agent.rs:53 | the jar's log gains exactly that insertion, at the end |
| Client.Agent.constructor | src/agent.rs:16-18 | `Agent::new`: a fresh, empty jar with the given matching rules |
| Client.Agent.Get | src/agent.rs:20-22 | a fresh GET request for `url` on this agent, with the jar's `Cookie` header |
| Client.Agent.Post | src/agent.rs:24-26 | a fresh POST request for `url` on this agent, with the jar's `Cookie` header |
| Client.Request.constructor | src/request.rs:24-36 | the `Cookie` header is the jar's serialisation for `url` at construction time, and it is the only header |
| Client.Request.SetHeader | src/request.rs:38-40 | setting one header changes that header only |
| Client.Request.GetResponseInner | src/request.rs:72-82 | exactly one request goes to the transport, with this method, URL and headers, redirect mode `Manual` and the given body |
| Client.Request.StoreCookiesFrom | src/request.rs:47-49 | the effect on the jar and the early exit are those of `StoreSetCookie` |
| Client.Request.DoCall | src/request.rs:42-70 | the outcome, the jar's log, the requests sent and the replies left are exactly those `Send` prescribes |
| Client.Request.Call | src/request.rs:85-89 | a GET call is `do_call` with no body |
| Client.Request.SendForm | src/request.rs:96-101 | sets `Content-Type: application/x-www-form-urlencoded`, then `do_call` with the encoded form as the body |
| Fetch.Transport.Send | src/request.rs:81 | the request is recorded, and the next scripted reply is consumed and returned |
| Redirects.Send | src/request.rs:42-70 | one request sent and its reply followed: the caller's request is the first one sent, and each reply consumed shortens the script |
| Redirects.Follow | src/request.rs:45-69 | one turn of the loop on a response: it consumes no reply the script does not hold |
| Redirects.FollowUp | src/request.rs:61 | the request `agent.get(redir_url)` sends: a GET to the target with no body, redirect mode `Manual` and only a `Cookie` header |
| Redirects.StoreSetCookie | src/request.rs:47-49 | storing only appends to the log, every new entry is keyed to the given URL, and the call stops only on the segmenter's panic or a failed header read |
| Redirects.NonRedirectIsFinal | src/request.rs:46-51 | a status other than 301/302 ends the loop with nothing more sent; its cookies go to the original URL; the call completes with it unless storing stops it |
| Redirects.RedirectStoresThenFollows | src/request.rs:52-61 | a 301/302 whose `Location` parses stores its cookies against the target, then sends a GET to the target carrying the jar's cookies for it |
| Redirects.UnresolvedRedirectIsFinal | src/request.rs:62-68 | a 301/302 without a usable `Location` is returned as it is, with its cookies stored against the original URL |
| Redirects.SendLogGrows | src/request.rs:42-70 | the jar only grows during a call |
| Redirects.SentRequestsShape | src/request.rs:61-78 | the first request sent is the caller's; every request uses `Manual`; every later one is a follow-up GET with no body and only a `Cookie` header |
| Redirects.CompletedIsFinal | src/request.rs:45-69 | a completed call returns a response the loop could not follow: not 301/302, or with a `Location` that is missing or does not parse |
| Redirects.OneRequestPerReply | src/request.rs:43-61 | no retries: replies are consumed in order, one per request sent, and a transport error ends the call |
| Redirects.LocationFailureAborts | src/request.rs:52-54 | a 301/302 whose `Location` cannot be read ends the call with that error; nothing more is sent and nothing is stored |
| Redirects.TransportFailureAborts | src/request.rs:43-61 | the call ends in a transport error exactly when the last reply consumed is a failure; cutting the script before that reply gives the same requests sent and the same jar |
| Redirects.RedirectCookiesKeyedToTarget | src/request.rs:52-61 | in A -302-> B, cookies set by the redirect are keyed to B and already travel on the GET to B |
| Redirects.FinalCookiesKeyedToOrigin | src/request.rs:46-51 | in A -301-> B, the final response's cookies are keyed to A, the URL the call started from |

## Left out

- Async execution, the `Arc<Mutex<…>>` around the jar, and cloning the agent are not modelled. The model is sequential, and every request of an agent shares its one `CookieStore` object.
- The internals of the `cookie`, `url` and `cookie_store` crates (cookie parsing, URL parsing, domain/path/expiry matching) are function-typed parameters. `insert_raw`'s result is discarded by every caller, so the jar is modelled as its log of insertions.
- The form serialiser (`form_urlencoded::Serializer`) is not modelled: `Client.Request.SendForm` takes the already encoded form.
- src/response.rs and src/lib.rs are not part of this model. The call returns the final `WorkerResponse` where the source wraps it in `Response::new`.
- The transport is a finite script of replies. A call that runs out of replies ends with `Exhausted`. This outcome has no counterpart in the source: it stands for the loop's unbounded run (for example, a redirect cycle), which the source does not guard against.
- A failure of `EdgeRequest::new_with_str_and_init` and a failure of the fetch are both modelled as a `Failed` reply from the transport.
- Client.Request.constructor: the `.unwrap()` on `Headers::set("Cookie", …)` is assumed to succeed. Its failure depends on the host's header validation, which is not modelled.
- Client.Request.SendForm: the `?` on `Headers::set("Content-Type", …)` is assumed to succeed, for the same reason.
- Client.Request.SetHeader: only the one setter is modelled of what `headers()` exposes. Header names are taken as written and compared exactly; the host's case-insensitive matching of header names is not modelled, so setting `content-type` and `Content-Type` gives two entries in the model and one on the host.
- Client.Request.SendForm: for the same reason, a `Content-Type` a caller set earlier under another spelling of the name stays beside the form's `Content-Type` in the model, where the host replaces it.
- Response headers are read by their exact names (`Set-Cookie`, `Location`); the host's case-insensitive lookup is not modelled.
- The jar's matching is a function of its insertion log and the URL only. `get_request_values` also drops expired cookies by the current time; the clock is folded into that function.
- Util.AddResponseCookies: a panic is modelled as the method returning `true` with the store as it was at that point. Unwinding across the lock is not modelled.
- The UTF-8 pointer arithmetic in the merge branch is modelled by the string concatenation it equals (`Segmenter.MergedIsAdjacentSlice`). Strings are sequences of characters, without an encoding.
- The model keeps the source's walk, quirks included, as the behaviour of every caller. The corrected walk `Segmenter.Intended` stands beside it, with its properties proved; no operation uses it.

## Findings

| source | as written | input that shows it | evidently intended | confidence | as-written member | corrected member |
|---|---|---|---|---|---|---|
| src/agent.rs:55-67 (and src/util.rs:19-30) | the merge branch does not clear `pending`, so the next "next fragment parses" step commits the stale cookie instead of parsing the current fragment | `x=1, a=1; Expires=Wed, 21 Oct 2015 07:28:00 GMT, b=2, c=3`: `b=2` is never inserted, and a truncated `a=1; Expires=Wed,` is inserted again after the full one | every declaration inserted once, in order: `x`, `a` (with its date), `b`, `c` | not executed | Segmenter.StalePendingReinserted | Segmenter.IntendedRecoversDeclarations |
| src/agent.rs:49-53 (and src/util.rs:13-17) | `new.unwrap()` panics when nothing is pending, the current fragment does not parse and the next one does | `=bad,b=2`: the empty-named fragment does not parse, `b=2` does, and the worker panics | the malformed fragment is skipped and `b=2` is inserted | not executed | Segmenter.MalformedBeforeValidPanics | Segmenter.IntendedInsertsOnlyParsed |
