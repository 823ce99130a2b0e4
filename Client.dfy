/** The agent and its requests (src/agent.rs, src/request.rs).

    An `Agent` owns the cookie jar that every request made from it shares. A
    `Request` is built with the jar's `Cookie` header for its URL, and its
    terminal operation runs the manual-redirect loop against the transport. */
module Client {
  import opened Http
  import opened CookieJar
  import opened Fetch
  import opened Redirects
  import Segmenter
  import Util

  class Agent {
    /** The jar behind the agent's lock, shared by every clone and request. */
    const store: CookieStore

    /** `Agent::new`: an agent with an empty jar. */
    constructor (matching: Matcher)
      ensures fresh(store) && store.log == [] && store.matching == matching
    {
      store := new CookieStore(matching);
    }

    /** `get_request_cookies`: `name=value; ` for every pair the jar yields
        for `url`, in the jar's order. */
    method GetRequestCookies(url: Url) returns (cookies: string)
      ensures cookies == CookieHeader(store.RequestValues(url))
    {
      var pairs := store.RequestValues(url);
      cookies := "";
      for k := 0 to |pairs|
        invariant cookies == CookieHeader(pairs[..k])
      {
        CookieHeaderAppend(pairs[..k], pairs[k]);
        assert pairs[..k + 1] == pairs[..k] + [pairs[k]];
        cookies := cookies + pairs[k].name + "=" + pairs[k].value + "; ";
      }
      assert pairs[..|pairs|] == pairs;
    }

    /** `store_response_cookies`: the same segmenter as `add_response_cookies`,
        run against this agent's jar, with the same specification. */
    method StoreResponseCookies(url: Url, cookies: string, parse: CookieParser) returns (panicked: bool)
      modifies store
      ensures store.log == old(store.log) + Tagged(Segmenter.Segment(cookies, parse).inserted, url)
      ensures panicked == Segmenter.Segment(cookies, parse).aborted
    {
      panicked := Util.AddResponseCookies(store, cookies, url, parse);
    }

    /** `Agent::get`: a GET request for `url`. */
    method Get(url: Url) returns (request: Request)
      ensures fresh(request)
      ensures request.agent == this && request.url == url && request.verb == GET && request.marker == GetMarker
      ensures request.headers == map["Cookie" := CookieHeader(store.RequestValues(url))]
    {
      request := new Request(this, url, GET, GetMarker);
    }

    /** `Agent::post`: a POST request for `url`. */
    method Post(url: Url) returns (request: Request)
      ensures fresh(request)
      ensures request.agent == this && request.url == url && request.verb == POST && request.marker == PostMarker
      ensures request.headers == map["Cookie" := CookieHeader(store.RequestValues(url))]
    {
      request := new Request(this, url, POST, PostMarker);
    }
  }

  class Request {
    const agent: Agent
    const url: Url
    /** The HTTP method (`method` in the source). */
    const verb: Method
    var headers: map<string, string>
    /** The typestate marker: `Call` needs `GetMarker`, `SendForm` `PostMarker`. */
    const marker: Marker

    /** `Request::new`: the `Cookie` header is the jar's serialisation for
        `url` at construction time, and it is the only header. */
    constructor (agent: Agent, url: Url, verb: Method, marker: Marker)
      ensures this.agent == agent && this.url == url && this.verb == verb && this.marker == marker
      ensures headers == map["Cookie" := CookieHeader(agent.store.RequestValues(url))]
    {
      var cookies := agent.GetRequestCookies(url);
      this.agent := agent;
      this.url := url;
      this.verb := verb;
      this.marker := marker;
      this.headers := map["Cookie" := cookies];
    }

    /** What a caller does through `headers()`: set one header. */
    method SetHeader(name: string, value: string)
      modifies this
      ensures headers == old(headers)[name := value]
    {
      headers := headers[name := value];
    }

    /** `get_response_inner`: one request with this request's method, URL and
        headers, the redirect policy `Manual`, and `body`. */
    method GetResponseInner(body: Option<string>, transport: Transport) returns (reply: Option<Reply>)
      modifies transport
      ensures transport.sent == old(transport.sent) + [Outgoing(url, verb, headers, Manual, body)]
      ensures old(transport.script) == [] ==> reply == None && transport.script == []
      ensures old(transport.script) != [] ==>
                reply == Some(old(transport.script)[0]) && transport.script == old(transport.script)[1..]
    {
      reply := transport.Send(Outgoing(url, verb, headers, Manual, body));
    }

    /** `if let Some(cookies) = resp.headers().get("Set-Cookie")? { store(target, cookies) }`. */
    method StoreCookiesFrom(resp: WorkerResponse, target: Url, parse: CookieParser) returns (stop: Option<CallOutcome>)
      modifies agent.store
      ensures Stored(agent.store.log, stop) == StoreSetCookie(resp, target, old(agent.store.log), parse)
    {
      var setCookie := GetHeader(resp.headers, "Set-Cookie");
      if setCookie.ReadFailed? {
        return Some(Aborted(HeaderFailure("Set-Cookie")));
      }
      stop := None;
      if setCookie.value.Some? {
        var panicked := agent.StoreResponseCookies(target, setCookie.value.value, parse);
        if panicked {
          stop := Some(Panicked);
        }
      }
    }

    /** `do_call`: sends this request, then follows 301/302 responses whose
        `Location` parses, each with a fresh GET built by the agent, until a
        response ends the loop. The outcome, the jar's log, the requests sent
        and the replies left are exactly those `Send` prescribes. */
    method DoCall(body: Option<string>, transport: Transport, parseCookie: CookieParser, parseUrl: UrlParser)
      returns (outcome: CallOutcome)
      modifies agent.store, transport
      ensures var t := Send(url, Outgoing(url, verb, headers, Manual, body), old(agent.store.log), old(transport.script),
                            Env(parseCookie, parseUrl, agent.store.matching));
              && outcome == t.outcome && agent.store.log == t.log
              && transport.sent == old(transport.sent) + t.sent && transport.script == t.rest
    {
      ghost var env := Env(parseCookie, parseUrl, agent.store.matching);
      ghost var goal := Send(url, Outgoing(url, verb, headers, Manual, body), agent.store.log, transport.script, env);
      var reply := GetResponseInner(body, transport);
      if reply.None? {
        return Exhausted;
      }
      if reply.value.Failed? {
        return Aborted(TransportFailure(reply.value.reason));
      }
      var resp := reply.value.response;
      ghost var sentSoFar := [Outgoing(url, verb, headers, Manual, body)];

      while true
        invariant goal == Prefixed(sentSoFar, Follow(url, resp, agent.store.log, transport.script, env))
        invariant transport.sent == old(transport.sent) + sentSoFar
        decreases |transport.script|
      {
        if !IsRedirect(resp.status) {
          var stop := StoreCookiesFrom(resp, url, parseCookie);
          return if stop.Some? then stop.value else Completed(resp);
        }
        var location := GetHeader(resp.headers, "Location");
        if location.ReadFailed? {
          return Aborted(HeaderFailure("Location"));
        }
        var target := if location.value.Some? then parseUrl(location.value.value) else None;
        if target.None? {
          var stop := StoreCookiesFrom(resp, url, parseCookie);
          return if stop.Some? then stop.value else Completed(resp);
        }
        var stop := StoreCookiesFrom(resp, target.value, parseCookie);
        if stop.Some? {
          return stop.value;
        }
        var followUp := agent.Get(target.value);
        reply := followUp.GetResponseInner(None, transport);
        sentSoFar := sentSoFar + [FollowUp(target.value, agent.store.log, env.matching)];
        if reply.None? {
          return Exhausted;
        }
        if reply.value.Failed? {
          return Aborted(TransportFailure(reply.value.reason));
        }
        resp := reply.value.response;
      }
    }

    /** `call`, for a GET request: `do_call` with no body. */
    method Call(transport: Transport, parseCookie: CookieParser, parseUrl: UrlParser) returns (outcome: CallOutcome)
      requires marker == GetMarker
      modifies agent.store, transport
      ensures var t := Send(url, Outgoing(url, verb, headers, Manual, None), old(agent.store.log), old(transport.script),
                            Env(parseCookie, parseUrl, agent.store.matching));
              && outcome == t.outcome && agent.store.log == t.log
              && transport.sent == old(transport.sent) + t.sent && transport.script == t.rest
    {
      outcome := DoCall(None, transport, parseCookie, parseUrl);
    }

    /** `send_form`, for a POST request: sets `Content-Type` to
        `application/x-www-form-urlencoded`, then runs `do_call` with the
        encoded form as the body. */
    method SendForm(encodedForm: string, transport: Transport, parseCookie: CookieParser, parseUrl: UrlParser)
      returns (outcome: CallOutcome)
      requires marker == PostMarker
      modifies this, agent.store, transport
      ensures headers == old(headers)["Content-Type" := "application/x-www-form-urlencoded"]
      ensures var t := Send(url, Outgoing(url, verb, headers, Manual, Some(encodedForm)), old(agent.store.log),
                            old(transport.script), Env(parseCookie, parseUrl, agent.store.matching));
              && outcome == t.outcome && agent.store.log == t.log
              && transport.sent == old(transport.sent) + t.sent && transport.script == t.rest
    {
      headers := headers["Content-Type" := "application/x-www-form-urlencoded"];
      outcome := DoCall(Some(encodedForm), transport, parseCookie, parseUrl);
    }
  }
}
