/** `add_response_cookies` (src/util.rs:6-39): the segmenter's loop, run
    against a cookie store. `Client.Agent.StoreResponseCookies` is the same
    loop in src/agent.rs and is modelled by a call to this one. */
module Util {
  import opened Http
  import opened Segmenter
  import opened CookieJar

  /** Walks the fragments of `cookies` with one fragment of lookahead and
      inserts each recovered cookie into `store` against `url`. The store
      receives exactly the insertions `Segment` prescribes, all against `url`;
      `panicked` reports the `unwrap` panic, after which nothing more is done. */
  method AddResponseCookies(store: CookieStore, cookies: string, url: Url, parse: CookieParser)
    returns (panicked: bool)
    modifies store
    ensures store.log == old(store.log) + Tagged(Segment(cookies, parse).inserted, url)
    ensures panicked == Segment(cookies, parse).aborted
  {
    ghost var goal := Segment(cookies, parse);
    var frags := SplitInclusive(cookies);

    // the peekable iterator: `pos` is the index of the fragment it yields next
    var pos := 0;
    var pending: Option<Cookie> := None;
    var curr, next;
    curr, pos := NextFragment(frags, pos);
    next := PeekFragment(frags, pos);

    ghost var i := 0;                   // index of `curr` in `frags`
    ghost var done: seq<Cookie> := [];  // inserted so far
    while next.Some?
      invariant i <= |frags|
      invariant pos == if i < |frags| then i + 1 else |frags|
      invariant curr == PeekFragment(frags, i)
      invariant next == PeekFragment(frags, i + 1)
      invariant goal == Then(done, Walk(frags, i, pending, parse))
      invariant store.log == old(store.log) + Tagged(done, url)
      decreases |frags| - pos
    {
      var nextCookie := parse(next.value);
      if nextCookie.Some? {
        var committed := if pending.Some? then pending else parse(curr.value);
        WalkCommits(frags, i, pending, parse);
        if committed.None? {
          // `new.unwrap()` panics
          return true;
        }
        store.InsertRaw(committed.value, url);
        Committed(old(store.log), done, [committed.value], Walk(frags, i + 1, nextCookie, parse), url);
        done := done + [committed.value];
        pending := nextCookie;
        i := i + 1;
      } else {
        // the current and the next fragment are adjacent in `cookies`
        var glued := curr.value + next.value;
        var parsed := parse(glued);
        WalkMerges(frags, i, pending, parse);
        if parsed.Some? {
          store.InsertRaw(parsed.value, url);
        }
        Committed(old(store.log), done, Found(parsed), Walk(frags, i + 2, pending, parse), url);
        done := done + Found(parsed);
        pos := pos + 1;  // `cookies.next()` consumes the next fragment
        i := i + 2;
      }
      // `curr_part = cookies.next(); next_part = cookies.peek();`
      curr, pos := NextFragment(frags, pos);
      next := PeekFragment(frags, pos);
    }

    WalkEnds(frags, i, pending, parse);
    if curr.Some? {
      var last := parse(curr.value);
      if last.Some? {
        store.InsertRaw(last.value, url);
      }
      Committed(old(store.log), done, Found(last), SegOutcome([], false), url);
      done := done + Found(last);
    }
    return false;
  }

  /** `Iterator::next` on the fragments, with `pos` the index of the next one. */
  method NextFragment(frags: seq<string>, pos: nat) returns (item: Option<string>, pos': nat)
    requires pos <= |frags|
    ensures item == PeekFragment(frags, pos)
    ensures pos' == if item.Some? then pos + 1 else pos
  {
    if pos < |frags| {
      item, pos' := Some(frags[pos]), pos + 1;
    } else {
      item, pos' := None, pos;
    }
  }

  /** `Peekable::peek` on the fragments. */
  function PeekFragment(frags: seq<string>, pos: nat): Option<string> {
    if pos < |frags| then Some(frags[pos]) else None
  }

  /** The walk's step when the next fragment parses: commit the pending
      cookie or the current fragment's, or panic when there is neither. */
  lemma WalkCommits(frags: seq<string>, i: nat, pending: Option<Cookie>, parse: CookieParser)
    requires i + 1 < |frags| && parse(frags[i + 1]).Some?
    ensures var committed := if pending.Some? then pending else parse(frags[i]);
            Walk(frags, i, pending, parse) ==
              if committed.None? then SegOutcome([], true)
              else Then([committed.value], Walk(frags, i + 1, parse(frags[i + 1]), parse))
  {
  }

  /** The walk's step when the next fragment does not parse: the two are glued. */
  lemma WalkMerges(frags: seq<string>, i: nat, pending: Option<Cookie>, parse: CookieParser)
    requires i + 1 < |frags| && parse(frags[i + 1]).None?
    ensures Walk(frags, i, pending, parse) == Then(Found(parse(frags[i] + frags[i + 1])), Walk(frags, i + 2, pending, parse))
  {
  }

  /** The walk's end: the last fragment, if any, is inserted when it parses. */
  lemma WalkEnds(frags: seq<string>, i: nat, pending: Option<Cookie>, parse: CookieParser)
    requires i <= |frags| && |frags| <= i + 1
    ensures Walk(frags, i, pending, parse) == SegOutcome(if i < |frags| then Found(parse(frags[i])) else [], false)
  {
  }

  /** Moving freshly inserted cookies from the rest of the walk to what is done. */
  lemma Committed(before: seq<Insertion>, done: seq<Cookie>, step: seq<Cookie>, rest: SegOutcome, url: Url)
    ensures Then(done, Then(step, rest)) == Then(done + step, rest)
    ensures Tagged(done + step, url) == Tagged(done, url) + Tagged(step, url)
    ensures before + Tagged(done + step, url) == before + Tagged(done, url) + Tagged(step, url)
    ensures |step| == 1 ==> Tagged(step, url) == [Insertion(step[0], url)]
    ensures step == [] ==> Tagged(step, url) == []
  {
    assert done + (step + rest.inserted) == (done + step) + rest.inserted;
  }
}
