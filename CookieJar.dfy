/** The cookie jar as the core sees it, and the `Cookie` request header made
    from it (src/agent.rs:32-40).

    The jar itself belongs to an external crate. Its only observable here is
    the ordered log of raw insertions it received; what it yields for a URL is
    its own matching rule applied to that log. */
module CookieJar {
  import opened Http

  class CookieStore {
    /** Every `insert_raw(cookie, url)` call, oldest first. */
    var log: seq<Insertion>
    /** The jar's own domain, path and expiry rules. */
    const matching: Matcher

    /** An empty jar, as `Agent::new` creates it. */
    constructor (matching: Matcher)
      ensures log == [] && this.matching == matching
    {
      this.log := [];
      this.matching := matching;
    }

    /** `get_request_values(url)`: the pairs the jar yields for `url`, in its order. */
    function RequestValues(url: Url): seq<NameValue>
      reads this
    {
      matching(log, url)
    }

    /** `insert_raw(cookie, url)`; the result is discarded by every caller. */
    method InsertRaw(cookie: Cookie, url: Url)
      modifies this
      ensures log == old(log) + [Insertion(cookie, url)]
    {
      log := log + [Insertion(cookie, url)];
    }
  }

  /** One pair as it appears in the `Cookie` header: `name=value; `. */
  function Entry(p: NameValue): string {
    p.name + "=" + p.value + "; "
  }

  /** The `Cookie` header for the pairs a jar yields: their entries, in order. */
  function CookieHeader(pairs: seq<NameValue>): (r: string)
    ensures |r| >= 3 * |pairs|
  {
    if pairs == [] then "" else Entry(pairs[0]) + CookieHeader(pairs[1..])
  }

  /** The header grows entry by entry, which is how the source builds it. */
  lemma {:induction false} CookieHeaderAppend(pairs: seq<NameValue>, p: NameValue)
    ensures CookieHeader(pairs + [p]) == CookieHeader(pairs) + Entry(p)
  {
    if pairs == [] {
      assert [p][1..] == [];
    } else {
      assert (pairs + [p])[1..] == pairs[1..] + [p];
      CookieHeaderAppend(pairs[1..], p);
    }
  }

  /** No pairs give the empty header; otherwise the header ends in "; ". */
  lemma {:induction false} CookieHeaderShape(pairs: seq<NameValue>)
    ensures pairs == [] <==> CookieHeader(pairs) == ""
    ensures pairs != [] ==> |CookieHeader(pairs)| >= 2 && CookieHeader(pairs)[|CookieHeader(pairs)| - 2..] == "; "
  {
    if pairs != [] {
      var rest := pairs[1..];
      CookieHeaderShape(rest);
      var h := CookieHeader(pairs);
      assert h == Entry(pairs[0]) + CookieHeader(rest);
      if rest == [] {
        assert h[|h| - 2..] == Entry(pairs[0])[|Entry(pairs[0])| - 2..];
      } else {
        assert h[|h| - 2..] == CookieHeader(rest)[|CookieHeader(rest)| - 2..];
      }
    }
  }

  // ---------------------------------------------------------------------------
  // Reading the header back, as a server does

  /** The text before the first `c` of `s` and the text after it (all of `s`
      and nothing when there is no `c`). */
  function CutAt(s: string, c: char): (r: (string, string))
    ensures |r.1| < |s| || s == []
    ensures c !in r.0
  {
    if s == [] then ([], [])
    else if s[0] == c then ([], s[1..])
    else var (before, after) := CutAt(s[1..], c); ([s[0]] + before, after)
  }

  lemma {:induction false} CutAtFirst(a: string, c: char, b: string)
    requires c !in a
    ensures CutAt(a + [c] + b, c) == (a, b)
  {
    if a == [] {
      assert a + [c] + b == [c] + b;
    } else {
      var x := a + [c] + b;
      assert x[0] == a[0] && a[0] in a;
      assert x[1..] == a[1..] + [c] + b;
      CutAtFirst(a[1..], c, b);
      assert [a[0]] + a[1..] == a;
    }
  }

  /** Splits a `Cookie` header into its pairs: a name up to '=', a value up to
      ';', then the separating space. */
  function DecodeCookieHeader(s: string): seq<NameValue>
    decreases |s|
  {
    if s == [] then []
    else
      var (name, rest) := CutAt(s, '=');
      var (value, tail) := CutAt(rest, ';');
      [NameValue(name, value)] + DecodeCookieHeader(if tail == [] then [] else tail[1..])
  }

  /** A pair the header format can carry: no '=' in the name, no ';' in the
      value (the cookie parser never produces either). */
  predicate Transmissible(p: NameValue) {
    '=' !in p.name && ';' !in p.value
  }

  /** Reading the header back yields exactly the jar's pairs, in order. */
  lemma {:induction false} DecodeCookieHeaderInverse(pairs: seq<NameValue>)
    requires forall k :: 0 <= k < |pairs| ==> Transmissible(pairs[k])
    ensures DecodeCookieHeader(CookieHeader(pairs)) == pairs
  {
    if pairs != [] {
      var p, rest := pairs[0], CookieHeader(pairs[1..]);
      assert Transmissible(p);
      var s := CookieHeader(pairs);
      var tail := [' '] + rest;
      var afterName := p.value + [';'] + tail;
      assert s == p.name + ['='] + afterName;
      CutAtFirst(p.name, '=', afterName);
      CutAtFirst(p.value, ';', tail);
      assert tail[1..] == rest;
      DecodeCookieHeaderInverse(pairs[1..]);
      assert DecodeCookieHeader(s) == [NameValue(p.name, p.value)] + DecodeCookieHeader(rest);
    }
  }
}
