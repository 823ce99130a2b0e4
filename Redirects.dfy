/** The manual-redirect request loop of `Request::do_call` (src/request.rs:42-70)
    as a function of the jar's insertion log and the transport's scripted
    replies. `Client.Request.DoCall` is the loop itself, proved against `Send`;
    the lemmas below state what the loop promises. */
module Redirects {
  import opened Http
  import opened Segmenter
  import opened CookieJar

  /** The external collaborators a call consults. */
  datatype Env = Env(parseCookie: CookieParser, parseUrl: UrlParser, matching: Matcher)

  /** How a call went: its outcome, the jar's insertion log afterwards, the
      requests it sent in order, and the scripted replies left over. */
  datatype Trace = Trace(outcome: CallOutcome, log: seq<Insertion>, sent: seq<Outgoing>, rest: seq<Reply>)

  function Prefixed(sent: seq<Outgoing>, t: Trace): Trace {
    Trace(t.outcome, t.log, sent + t.sent, t.rest)
  }

  /** The effect of reading `Set-Cookie` and segmenting it against `target`:
      the new log, and the outcome that ends the call, if any. */
  datatype Stored = Stored(log: seq<Insertion>, stop: Option<CallOutcome>)

  /** `if let Some(cookies) = resp.headers().get("Set-Cookie")? { store(target, cookies) }`.
      A failed read ends the call; the segmenter's panic ends it too, after the
      insertions it made. Every new insertion is against `target`. */
  function StoreSetCookie(resp: WorkerResponse, target: Url, log: seq<Insertion>, parse: CookieParser): (s: Stored)
    ensures log <= s.log
    ensures forall j :: |log| <= j < |s.log| ==> s.log[j].url == target
    ensures s.stop.None? || s.stop == Some(Panicked) || s.stop == Some(Aborted(HeaderFailure("Set-Cookie")))
  {
    match GetHeader(resp.headers, "Set-Cookie")
    case ReadFailed => Stored(log, Some(Aborted(HeaderFailure("Set-Cookie"))))
    case Read(None) => Stored(log, None)
    case Read(Some(v)) =>
      var seg := Segment(v, parse);
      Stored(log + Tagged(seg.inserted, target), if seg.aborted then Some(Panicked) else None)
  }

  /** The request `agent.get(target)` builds and sends after a redirect: a GET
      with no body whose only header is the jar's `Cookie` header for `target`. */
  function FollowUp(target: Url, log: seq<Insertion>, matching: Matcher): (r: Outgoing)
    ensures IsFollowUp(r) && r.url == target
  {
    Outgoing(target, GET, map["Cookie" := CookieHeader(matching(log, target))], Manual, None)
  }

  /** Ends the call with `resp`, after storing its cookies against `origin`. */
  function Finish(origin: Url, resp: WorkerResponse, log: seq<Insertion>, script: seq<Reply>, env: Env): Trace {
    var s := StoreSetCookie(resp, origin, log, env.parseCookie);
    Trace(if s.stop.Some? then s.stop.value else Completed(resp), s.log, [], script)
  }

  /** Where a 301/302 points: `Url::parse` of its `Location`, taken as absolute. */
  function Target(location: Option<string>, parseUrl: UrlParser): Option<Url> {
    if location.Some? then parseUrl(location.value) else None
  }

  /** One turn of the loop on the response `resp`; `origin` is `self.url`,
      which no hop changes. */
  function Follow(origin: Url, resp: WorkerResponse, log: seq<Insertion>, script: seq<Reply>, env: Env): (r: Trace)
    ensures |r.rest| <= |script|
    decreases |script|, 1
  {
    if !IsRedirect(resp.status) then Finish(origin, resp, log, script, env)
    else match GetHeader(resp.headers, "Location")
      case ReadFailed => Trace(Aborted(HeaderFailure("Location")), log, [], script)
      case Read(location) =>
        var target := Target(location, env.parseUrl);
        if target.None? then Finish(origin, resp, log, script, env)
        else
          var s := StoreSetCookie(resp, target.value, log, env.parseCookie);
          if s.stop.Some? then Trace(s.stop.value, s.log, [], script)
          else Send(origin, FollowUp(target.value, s.log, env.matching), s.log, script, env)
  }

  /** Sends `request` and follows the reply. A transport failure ends the call
      at once; a script that has run out ends it with `Exhausted`. */
  function Send(origin: Url, request: Outgoing, log: seq<Insertion>, script: seq<Reply>, env: Env): (r: Trace)
    ensures r.sent != [] && r.sent[0] == request
    ensures |r.rest| < |script| || (script == [] && r.rest == [])
    decreases |script|, 0
  {
    if script == [] then Trace(Exhausted, log, [request], [])
    else match script[0]
      case Failed(reason) => Trace(Aborted(TransportFailure(reason)), log, [request], script[1..])
      case Received(r) => Prefixed([request], Follow(origin, r, log, script[1..], env))
  }

  // ---------------------------------------------------------------------------
  // One hop

  /** A status other than 301 and 302 ends the loop: nothing more is sent, its
      cookies go to the jar against the original URL, and unless reading them
      fails or the segmenter panics, the call completes with that response. */
  lemma NonRedirectIsFinal(origin: Url, resp: WorkerResponse, log: seq<Insertion>, script: seq<Reply>, env: Env)
    requires !IsRedirect(resp.status)
    ensures var t := Follow(origin, resp, log, script, env);
            var s := StoreSetCookie(resp, origin, log, env.parseCookie);
            && t.sent == [] && t.rest == script && t.log == s.log
            && (t.outcome == Completed(resp) <==> s.stop.None?)
            && (forall j :: |log| <= j < |t.log| ==> t.log[j].url == origin)
  {
  }

  /** A 301/302 whose `Location` parses has its cookies stored against the
      redirect target first; then the follow-up is sent: a GET to the target
      with no body, whose `Cookie` header is the jar's serialisation for the
      target after that storing. */
  lemma RedirectStoresThenFollows(origin: Url, resp: WorkerResponse, location: string, target: Url,
                                  log: seq<Insertion>, script: seq<Reply>, env: Env)
    requires IsRedirect(resp.status)
    requires GetHeader(resp.headers, "Location") == Read(Some(location))
    requires env.parseUrl(location) == Some(target)
    requires StoreSetCookie(resp, target, log, env.parseCookie).stop.None?
    ensures var t := Follow(origin, resp, log, script, env);
            var stored := StoreSetCookie(resp, target, log, env.parseCookie).log;
            && t.sent != []
            && t.sent[0] == Outgoing(target, GET, map["Cookie" := CookieHeader(env.matching(stored, target))], Manual, None)
            && stored <= t.log
            && (forall j :: |log| <= j < |stored| ==> stored[j].url == target)
  {
    var stored := StoreSetCookie(resp, target, log, env.parseCookie).log;
    SendLogGrows(origin, FollowUp(target, stored, env.matching), stored, script, env);
  }

  /** A 301/302 without a `Location`, or with one `Url::parse` rejects, is
      returned as it is, with its cookies stored against the original URL. */
  lemma UnresolvedRedirectIsFinal(origin: Url, resp: WorkerResponse, log: seq<Insertion>, script: seq<Reply>, env: Env)
    requires IsRedirect(resp.status)
    requires GetHeader(resp.headers, "Location").Read?
    requires Target(GetHeader(resp.headers, "Location").value, env.parseUrl).None?
    ensures var t := Follow(origin, resp, log, script, env);
            var s := StoreSetCookie(resp, origin, log, env.parseCookie);
            && t.sent == [] && t.rest == script && t.log == s.log
            && (t.outcome == Completed(resp) <==> s.stop.None?)
            && (forall j :: |log| <= j < |t.log| ==> t.log[j].url == origin)
  {
  }

  // ---------------------------------------------------------------------------
  // The whole call

  /** The jar only grows during a call: nothing inserted earlier is undone. */
  lemma {:induction false} SendLogGrows(origin: Url, request: Outgoing, log: seq<Insertion>, script: seq<Reply>, env: Env)
    ensures log <= Send(origin, request, log, script, env).log
    decreases |script|, 0
  {
    if script != [] && script[0].Received? {
      FollowLogGrows(origin, script[0].response, log, script[1..], env);
    }
  }

  lemma {:induction false} FollowLogGrows(origin: Url, resp: WorkerResponse, log: seq<Insertion>, script: seq<Reply>, env: Env)
    ensures log <= Follow(origin, resp, log, script, env).log
    decreases |script|, 1
  {
    if IsRedirect(resp.status) && GetHeader(resp.headers, "Location").Read? {
      var target := Target(GetHeader(resp.headers, "Location").value, env.parseUrl);
      if target.Some? {
        var s := StoreSetCookie(resp, target.value, log, env.parseCookie);
        if s.stop.None? {
          SendLogGrows(origin, FollowUp(target.value, s.log, env.matching), s.log, script, env);
        }
      }
    }
  }

  /** Every request of a call goes out with the redirect policy `Manual`; the
      first is the caller's request, and every later one is a follow-up GET
      with no body and only a `Cookie` header. */
  lemma {:induction false} SentRequestsShape(origin: Url, request: Outgoing, log: seq<Insertion>, script: seq<Reply>, env: Env)
    requires request.redirect == Manual
    ensures var t := Send(origin, request, log, script, env);
            && t.sent != [] && t.sent[0] == request
            && (forall k :: 0 <= k < |t.sent| ==> t.sent[k].redirect == Manual)
            && (forall k :: 1 <= k < |t.sent| ==> IsFollowUp(t.sent[k]))
    decreases |script|, 0
  {
    if script != [] && script[0].Received? {
      FollowUpsShape(origin, script[0].response, log, script[1..], env);
    }
  }

  predicate IsFollowUp(r: Outgoing) {
    r.verb == GET && r.body == None && r.redirect == Manual && r.headers.Keys == {"Cookie"}
  }

  lemma {:induction false} FollowUpsShape(origin: Url, resp: WorkerResponse, log: seq<Insertion>, script: seq<Reply>, env: Env)
    ensures forall k :: 0 <= k < |Follow(origin, resp, log, script, env).sent| ==>
              IsFollowUp(Follow(origin, resp, log, script, env).sent[k])
    decreases |script|, 1
  {
    if IsRedirect(resp.status) && GetHeader(resp.headers, "Location").Read? {
      var target := Target(GetHeader(resp.headers, "Location").value, env.parseUrl);
      if target.Some? {
        var s := StoreSetCookie(resp, target.value, log, env.parseCookie);
        if s.stop.None? {
          SentRequestsShape(origin, FollowUp(target.value, s.log, env.matching), s.log, script, env);
        }
      }
    }
  }

  /** A completed call returns a response that is not a redirect the loop
      could follow: its status is neither 301 nor 302, or its `Location` is
      missing or does not parse. */
  lemma {:induction false} CompletedIsFinal(origin: Url, request: Outgoing, log: seq<Insertion>, script: seq<Reply>, env: Env)
    ensures var t := Send(origin, request, log, script, env);
            t.outcome.Completed? ==> Unfollowable(t.outcome.response, env.parseUrl)
    decreases |script|, 0
  {
    if script != [] && script[0].Received? {
      FollowCompletedIsFinal(origin, script[0].response, log, script[1..], env);
    }
  }

  predicate Unfollowable(resp: WorkerResponse, parseUrl: UrlParser) {
    !IsRedirect(resp.status) ||
    (GetHeader(resp.headers, "Location").Read? && Target(GetHeader(resp.headers, "Location").value, parseUrl).None?)
  }

  lemma {:induction false} FollowCompletedIsFinal(origin: Url, resp: WorkerResponse, log: seq<Insertion>, script: seq<Reply>, env: Env)
    ensures var t := Follow(origin, resp, log, script, env);
            t.outcome.Completed? ==> Unfollowable(t.outcome.response, env.parseUrl)
    decreases |script|, 1
  {
    if IsRedirect(resp.status) && GetHeader(resp.headers, "Location").Read? {
      var target := Target(GetHeader(resp.headers, "Location").value, env.parseUrl);
      if target.Some? {
        var s := StoreSetCookie(resp, target.value, log, env.parseCookie);
        if s.stop.None? {
          CompletedIsFinal(origin, FollowUp(target.value, s.log, env.matching), s.log, script, env);
        }
      }
    }
  }

  /** No retries: each reply consumed answers exactly one request (plus the
      one request left unanswered when the script runs out), the replies are
      consumed in order, and a failed reply is the last one consumed. */
  lemma {:induction false} OneRequestPerReply(origin: Url, request: Outgoing, log: seq<Insertion>, script: seq<Reply>, env: Env)
    ensures var t := Send(origin, request, log, script, env);
            && |t.rest| <= |script| && t.rest == script[|script| - |t.rest|..]
            && |t.sent| == |script| - |t.rest| + (if t.outcome == Exhausted then 1 else 0)
            && (t.outcome == Exhausted ==> t.rest == [])
            && (forall k :: 0 <= k < |script| - |t.rest| - 1 ==> script[k].Received?)
    decreases |script|, 0
  {
    if script != [] && script[0].Received? {
      var t := Send(origin, request, log, script, env);
      var f := Follow(origin, script[0].response, log, script[1..], env);
      FollowOneRequestPerReply(origin, script[0].response, log, script[1..], env);
      assert t.rest == f.rest && |t.sent| == 1 + |f.sent|;
      forall k | 0 <= k < |script| - |t.rest| - 1 ensures script[k].Received? {
        if k > 0 { assert script[k] == script[1..][k - 1]; }
      }
    }
  }

  lemma {:induction false} FollowOneRequestPerReply(origin: Url, resp: WorkerResponse, log: seq<Insertion>, script: seq<Reply>, env: Env)
    ensures var t := Follow(origin, resp, log, script, env);
            && |t.rest| <= |script| && t.rest == script[|script| - |t.rest|..]
            && |t.sent| == |script| - |t.rest| + (if t.outcome == Exhausted then 1 else 0)
            && (t.outcome == Exhausted ==> t.rest == [])
            && (forall k :: 0 <= k < |script| - |t.rest| - 1 ==> script[k].Received?)
    decreases |script|, 1
  {
    if IsRedirect(resp.status) && GetHeader(resp.headers, "Location").Read? {
      var target := Target(GetHeader(resp.headers, "Location").value, env.parseUrl);
      if target.Some? {
        var s := StoreSetCookie(resp, target.value, log, env.parseCookie);
        if s.stop.None? {
          OneRequestPerReply(origin, FollowUp(target.value, s.log, env.matching), s.log, script, env);
        }
      }
    }
  }

  /** A 301/302 whose `Location` cannot be read ends the call at once with
      that error: nothing more is sent and nothing is stored. */
  lemma LocationFailureAborts(origin: Url, resp: WorkerResponse, log: seq<Insertion>, script: seq<Reply>, env: Env)
    requires IsRedirect(resp.status) && GetHeader(resp.headers, "Location") == ReadFailed
    ensures Follow(origin, resp, log, script, env) == Trace(Aborted(HeaderFailure("Location")), log, [], script)
  {
  }

  /** A transport failure ends the whole call: the call ends in
      `Aborted(TransportFailure(reason))` exactly when the last reply it
      consumed is `Failed(reason)`. Up to that reply nothing differs from a
      transport that had simply stopped answering there: the same requests
      were sent, and the jar holds the same insertions. */
  lemma {:induction false} TransportFailureAborts(origin: Url, request: Outgoing, log: seq<Insertion>, script: seq<Reply>, env: Env)
    ensures var t := Send(origin, request, log, script, env);
            var n := |script| - |t.rest|;
            && ((t.outcome.Aborted? && t.outcome.error.TransportFailure?) <==> (n > 0 && script[n - 1].Failed?))
            && (n > 0 && script[n - 1].Failed? ==>
                  && t.outcome == Aborted(TransportFailure(script[n - 1].reason))
                  && Send(origin, request, log, script[..n - 1], env) == Trace(Exhausted, t.log, t.sent, []))
    decreases |script|, 0
  {
    if script != [] && script[0].Received? {
      var t := Send(origin, request, log, script, env);
      var tail := script[1..];
      var f := Follow(origin, script[0].response, log, tail, env);
      FollowTransportFailureAborts(origin, script[0].response, log, tail, env);
      var n := |script| - |t.rest|;
      var m := |tail| - |f.rest|;
      assert t == Prefixed([request], f);
      assert n == m + 1;
      if n > 0 && script[n - 1].Failed? {
        assert m > 0 && script[n - 1] == tail[m - 1];
        var cut := script[..n - 1];
        assert cut[0] == script[0] && cut[1..] == tail[..m - 1];
        assert Send(origin, request, log, cut, env) == Prefixed([request], Follow(origin, script[0].response, log, tail[..m - 1], env));
      }
      if m > 0 && tail[m - 1].Failed? {
        assert script[n - 1] == tail[m - 1];
      }
    }
  }

  lemma {:induction false} FollowTransportFailureAborts(origin: Url, resp: WorkerResponse, log: seq<Insertion>, script: seq<Reply>, env: Env)
    ensures var t := Follow(origin, resp, log, script, env);
            var n := |script| - |t.rest|;
            && ((t.outcome.Aborted? && t.outcome.error.TransportFailure?) <==> (n > 0 && script[n - 1].Failed?))
            && (n > 0 && script[n - 1].Failed? ==>
                  && t.outcome == Aborted(TransportFailure(script[n - 1].reason))
                  && Follow(origin, resp, log, script[..n - 1], env) == Trace(Exhausted, t.log, t.sent, []))
    decreases |script|, 1
  {
    if IsRedirect(resp.status) && GetHeader(resp.headers, "Location").Read? {
      var target := Target(GetHeader(resp.headers, "Location").value, env.parseUrl);
      if target.Some? {
        var s := StoreSetCookie(resp, target.value, log, env.parseCookie);
        if s.stop.None? {
          TransportFailureAborts(origin, FollowUp(target.value, s.log, env.matching), s.log, script, env);
        }
      }
    }
  }

  // ---------------------------------------------------------------------------
  // Two chains

  /** A 302 from A to B that sets cookies, then a final response from B with
      none: the cookies are in the jar against B, not A, and the GET to B
      already carries them in its `Cookie` header. */
  lemma RedirectCookiesKeyedToTarget(a: Url, b: Url, location: string, request: Outgoing,
                                     r1: WorkerResponse, setCookie: string, r2: WorkerResponse,
                                     log: seq<Insertion>, env: Env)
    requires r1.status == 302 && GetHeader(r1.headers, "Location") == Read(Some(location))
    requires env.parseUrl(location) == Some(b)
    requires GetHeader(r1.headers, "Set-Cookie") == Read(Some(setCookie))
    requires !Segment(setCookie, env.parseCookie).aborted
    requires !IsRedirect(r2.status) && GetHeader(r2.headers, "Set-Cookie") == Read(None)
    ensures var t := Send(a, request, log, [Received(r1), Received(r2)], env);
            var stored := log + Tagged(Segment(setCookie, env.parseCookie).inserted, b);
            && t.outcome == Completed(r2)
            && t.log == stored
            && t.sent == [request, FollowUp(b, stored, env.matching)]
  {
    var script := [Received(r1), Received(r2)];
    assert script[1..] == [Received(r2)] && [Received(r2)][1..] == [];
    var stored := log + Tagged(Segment(setCookie, env.parseCookie).inserted, b);
    assert StoreSetCookie(r1, b, log, env.parseCookie) == Stored(stored, None);
    var fu := FollowUp(b, stored, env.matching);
    var last := Follow(a, r2, stored, [], env);
    assert last == Trace(Completed(r2), stored, [], []);
    assert Send(a, fu, stored, [Received(r2)], env) == Prefixed([fu], last);
    assert Follow(a, r1, log, [Received(r2)], env) == Send(a, fu, stored, [Received(r2)], env);
  }

  /** The final response's cookies are stored against the URL the call
      started from, not against the URL that answered last: after A redirects
      to B without cookies and B answers with cookies, they are keyed to A. */
  lemma FinalCookiesKeyedToOrigin(a: Url, b: Url, location: string, request: Outgoing,
                                  r1: WorkerResponse, r2: WorkerResponse, setCookie: string,
                                  log: seq<Insertion>, env: Env)
    requires r1.status == 301 && GetHeader(r1.headers, "Location") == Read(Some(location))
    requires env.parseUrl(location) == Some(b)
    requires GetHeader(r1.headers, "Set-Cookie") == Read(None)
    requires !IsRedirect(r2.status) && GetHeader(r2.headers, "Set-Cookie") == Read(Some(setCookie))
    requires !Segment(setCookie, env.parseCookie).aborted
    ensures var t := Send(a, request, log, [Received(r1), Received(r2)], env);
            && t.outcome == Completed(r2)
            && t.log == log + Tagged(Segment(setCookie, env.parseCookie).inserted, a)
            && t.sent == [request, FollowUp(b, log, env.matching)]
  {
    var script := [Received(r1), Received(r2)];
    assert script[1..] == [Received(r2)] && [Received(r2)][1..] == [];
    var fu := FollowUp(b, log, env.matching);
    var last := Follow(a, r2, log, [], env);
    assert StoreSetCookie(r2, a, log, env.parseCookie).log == log + Tagged(Segment(setCookie, env.parseCookie).inserted, a);
    assert last == Trace(Completed(r2), log + Tagged(Segment(setCookie, env.parseCookie).inserted, a), [], []);
    assert Send(a, fu, log, [Received(r2)], env) == Prefixed([fu], last);
    assert Follow(a, r1, log, [Received(r2)], env) == Send(a, fu, log, [Received(r2)], env);
  }
}
