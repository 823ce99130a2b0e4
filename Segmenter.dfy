/** The Set-Cookie segmenter: recovering the individual cookie declarations
    from one comma-joined `Set-Cookie` header value (src/agent.rs:42-76 and its
    copy src/util.rs:6-39).

    The header is cut with `split_inclusive(',')` (`SplitInclusive`), then walked
    with one fragment of lookahead (`Walk`). `Walk` is the reference definition
    of the source's loop, quirks included; `Util.AddResponseCookies` is the loop
    itself, proved against it. `Intended` is the walk with the two defects listed
    under "Findings" in README.md corrected. */
module Segmenter {
  import opened Http

  // ---------------------------------------------------------------------------
  // Splitting

  function Concat(frags: seq<string>): string {
    if frags == [] then [] else frags[0] + Concat(frags[1..])
  }

  lemma {:induction false} ConcatAppend(a: seq<string>, b: seq<string>)
    ensures Concat(a + b) == Concat(a) + Concat(b)
  {
    if a == [] {
      assert a + b == b;
    } else {
      assert (a + b)[0] == a[0];
      assert (a + b)[1..] == a[1..] + b;
      ConcatAppend(a[1..], b);
    }
  }

  /** The index of the first ',' of `s`, or `|s|` when there is none. */
  function CommaIndex(s: string): (i: nat)
    ensures i <= |s|
    ensures forall k :: 0 <= k < i ==> s[k] != ','
    ensures i < |s| ==> s[i] == ','
  {
    if s == [] || s[0] == ',' then 0 else 1 + CommaIndex(s[1..])
  }

  /** A fragment of `split_inclusive(',')`: not empty, and no ',' before its last character. */
  predicate IsPiece(f: string) {
    f != [] && forall k :: 0 <= k < |f| - 1 ==> f[k] != ','
  }

  predicate EndsInComma(f: string) {
    f != [] && f[|f| - 1] == ','
  }

  /** `frags` is a lossless cut of `s` in which every fragment but the last
      ends at a comma and no fragment holds a comma anywhere else. */
  predicate IsSplitOf(frags: seq<string>, s: string) {
    && Concat(frags) == s
    && (forall k :: 0 <= k < |frags| ==> IsPiece(frags[k]))
    && (forall k :: 0 <= k < |frags| - 1 ==> EndsInComma(frags[k]))
  }

  /** `str::split_inclusive(',')`: each fragment keeps its terminating comma,
      an empty string gives no fragment, and a trailing comma gives no empty
      last fragment. */
  function SplitInclusive(s: string): (frags: seq<string>)
    ensures IsSplitOf(frags, s)
    decreases |s|
  {
    if s == [] then []
    else
      var i := CommaIndex(s);
      if i == |s| then [s]
      else
        var rest := SplitInclusive(s[i + 1..]);
        assert s == s[..i + 1] + s[i + 1..];
        [s[..i + 1]] + rest
  }

  /** The properties `IsSplitOf` determine the fragments uniquely: any lossless
      comma-terminated cut of `s` is `split_inclusive`'s. */
  lemma {:induction false} SplitUnique(frags: seq<string>, s: string)
    requires IsSplitOf(frags, s)
    ensures frags == SplitInclusive(s)
  {
    if frags == [] {
    } else {
      var f := frags[0];
      assert s == f + Concat(frags[1..]);
      var i := CommaIndex(s);
      if |frags| == 1 {
        assert Concat(frags[1..]) == [];
        assert s == f;
        assert IsPiece(s);
        if i == |s| - 1 {
          assert SplitInclusive(s[i + 1..]) == [];
        }
      } else {
        assert EndsInComma(f);
        assert s[..|f|] == f;
        forall k | 0 <= k < |f| - 1 ensures s[k] != ',' {
          assert s[k] == f[k];
        }
        assert s[|f| - 1] == f[|f| - 1];
        assert i == |f| - 1;
        assert s[..i + 1] == f;
        assert s[i + 1..] == Concat(frags[1..]);
        forall k | 0 <= k < |frags[1..]| ensures IsPiece(frags[1..][k]) {
          assert frags[1..][k] == frags[k + 1];
        }
        forall k | 0 <= k < |frags[1..]| - 1 ensures EndsInComma(frags[1..][k]) {
          assert frags[1..][k] == frags[k + 1];
        }
        SplitUnique(frags[1..], s[i + 1..]);
      }
    }
  }

  /** A header without a comma is a single fragment, or none when it is empty. */
  lemma CommaFreeSplit(header: string)
    requires forall k :: 0 <= k < |header| ==> header[k] != ','
    ensures SplitInclusive(header) == if header == [] then [] else [header]
  {
  }

  /** Gluing the current and the next fragment back together gives exactly the
      adjacent stretch of the header that starts at the current fragment and
      spans both lengths: the slice the source rebuilds from the current
      fragment's pointer. */
  lemma {:induction false} MergedIsAdjacentSlice(header: string, i: nat)
    requires i + 1 < |SplitInclusive(header)|
    ensures var frags := SplitInclusive(header);
            var start := |Concat(frags[..i])|;
            start + |frags[i]| + |frags[i + 1]| <= |header| &&
            header[start..start + |frags[i]| + |frags[i + 1]|] == frags[i] + frags[i + 1]
  {
    var frags := SplitInclusive(header);
    assert frags == frags[..i] + [frags[i], frags[i + 1]] + frags[i + 2..];
    ConcatAppend(frags[..i] + [frags[i], frags[i + 1]], frags[i + 2..]);
    ConcatAppend(frags[..i], [frags[i], frags[i + 1]]);
    assert Concat([frags[i], frags[i + 1]]) == frags[i] + frags[i + 1] by {
      assert [frags[i], frags[i + 1]][1..] == [frags[i + 1]];
      assert Concat([frags[i + 1]]) == frags[i + 1] + Concat([]);
    }
    var start := |Concat(frags[..i])|;
    assert header == Concat(frags[..i]) + (frags[i] + frags[i + 1]) + Concat(frags[i + 2..]);
  }

  // ---------------------------------------------------------------------------
  // The walk, as the source has it

  /** The cookies the walk inserts, in order, and whether it ended in the panic
      of `new.unwrap()` (src/agent.rs:53); insertions before a panic stay. */
  datatype SegOutcome = SegOutcome(inserted: seq<Cookie>, aborted: bool)

  function Then(done: seq<Cookie>, rest: SegOutcome): SegOutcome {
    SegOutcome(done + rest.inserted, rest.aborted)
  }

  function Found(c: Option<Cookie>): seq<Cookie> {
    if c.Some? then [c.value] else []
  }

  /** The source's loop from the fragment at index `i` on (`frags[i]` is
      `curr_part`, `frags[i + 1]` the peeked `next_part`):
      - the next fragment parses: commit `pending`, or failing that the parse of
        the current fragment (a panic when both are missing); `pending` becomes
        the parse of the next fragment; advance by one;
      - the next fragment does not parse: insert current ++ next if that parses,
        leave `pending` as it is, advance by two;
      - no next fragment: insert the current one if it parses. */
  function Walk(frags: seq<string>, i: nat, pending: Option<Cookie>, parse: CookieParser): (r: SegOutcome)
    requires i <= |frags|
    ensures |r.inserted| <= |frags| - i
    decreases |frags| - i
  {
    if i + 1 < |frags| then
      match parse(frags[i + 1])
      case Some(next) =>
        var committed := if pending.Some? then pending else parse(frags[i]);
        if committed.None? then SegOutcome([], true)
        else Then([committed.value], Walk(frags, i + 1, Some(next), parse))
      case None =>
        Then(Found(parse(frags[i] + frags[i + 1])), Walk(frags, i + 2, pending, parse))
    else if i < |frags| then
      SegOutcome(Found(parse(frags[i])), false)
    else
      SegOutcome([], false)
  }

  /** What the segmenter does with one header value. */
  function Segment(header: string, parse: CookieParser): (r: SegOutcome)
    ensures |r.inserted| <= |SplitInclusive(header)|
  {
    Walk(SplitInclusive(header), 0, None, parse)
  }

  /** An empty header inserts nothing; a header without a comma is inserted
      exactly when it parses, and never panics. */
  lemma CommaFreeHeader(header: string, parse: CookieParser)
    requires forall k :: 0 <= k < |header| ==> header[k] != ','
    ensures Segment(header, parse) == SegOutcome(if header == [] then [] else Found(parse(header)), false)
  {
    CommaFreeSplit(header);
  }

  /** The `unwrap` panic: the next fragment parses, nothing is pending, and the
      current fragment does not parse. Nothing is inserted at that step. */
  lemma UnwrapPanics(frags: seq<string>, i: nat, parse: CookieParser)
    requires i + 1 < |frags| && parse(frags[i + 1]).Some? && parse(frags[i]).None?
    ensures Walk(frags, i, None, parse) == SegOutcome([], true)
  {
  }

  /** The parse of every fragment, in order. */
  function ParseAll(frags: seq<string>, parse: CookieParser): (r: seq<Cookie>)
    requires forall k :: 0 <= k < |frags| ==> parse(frags[k]).Some?
    ensures |r| == |frags|
    ensures forall k :: 0 <= k < |frags| ==> Some(r[k]) == parse(frags[k])
  {
    if frags == [] then [] else [parse(frags[0]).value] + ParseAll(frags[1..], parse)
  }

  /** When every fragment parses on its own, each fragment from the current
      one on is inserted once, in order, whatever `pending` caches about the
      current fragment. */
  lemma {:induction false} AllFragmentsParse(frags: seq<string>, i: nat, pending: Option<Cookie>, parse: CookieParser)
    requires i <= |frags|
    requires forall k :: 0 <= k < |frags| ==> parse(frags[k]).Some?
    requires pending.Some? ==> i < |frags| && pending == parse(frags[i])
    ensures Walk(frags, i, pending, parse) == SegOutcome(ParseAll(frags[i..], parse), false)
    decreases |frags| - i
  {
    if i + 1 < |frags| {
      AllFragmentsParse(frags, i + 1, parse(frags[i + 1]), parse);
      assert frags[i..][1..] == frags[i + 1..];
    } else if i < |frags| {
      assert frags[i..] == [frags[i]];
    }
  }

  /** Joins declarations with ',' the way the transport joins several
      `Set-Cookie` headers into one value. */
  function Join(decls: seq<string>): string
    requires decls != []
  {
    if |decls| == 1 then decls[0] else decls[0] + "," + Join(decls[1..])
  }

  /** The fragments `split_inclusive(',')` makes of `Join(decls)`: every
      declaration but the last keeps the joining comma. */
  function Terminated(decls: seq<string>): (r: seq<string>)
    requires decls != []
    ensures |r| == |decls|
  {
    if |decls| == 1 then [decls[0]] else [decls[0] + ","] + Terminated(decls[1..])
  }

  lemma {:induction false} JoinSplit(decls: seq<string>)
    requires decls != []
    requires forall k, j :: 0 <= k < |decls| && 0 <= j < |decls[k]| ==> decls[k][j] != ','
    requires forall k :: 0 <= k < |decls| ==> decls[k] != []
    ensures IsSplitOf(Terminated(decls), Join(decls))
  {
    if |decls| > 1 {
      JoinSplit(decls[1..]);
      var t := Terminated(decls);
      assert t[1..] == Terminated(decls[1..]);
      assert Concat(t) == decls[0] + "," + Concat(t[1..]);
      var d := decls[0] + ",";
      assert IsPiece(d) by {
        forall k | 0 <= k < |d| - 1 ensures d[k] != ',' { assert d[k] == decls[0][k]; }
      }
      forall k | 1 <= k < |t| ensures IsPiece(t[k]) { assert t[k] == t[1..][k - 1]; }
      forall k | 1 <= k < |t| - 1 ensures EndsInComma(t[k]) { assert t[k] == t[1..][k - 1]; }
    } else {
      assert Concat(Terminated(decls)) == decls[0] + Concat([]);
    }
  }

  /** A header made of comma-free declarations joined with ',' whose fragments
      each parse on their own is recovered exactly: one insertion per
      declaration, in order, and no panic. */
  lemma JoinedDeclarationsRecovered(decls: seq<string>, parse: CookieParser)
    requires decls != []
    requires forall k, j :: 0 <= k < |decls| && 0 <= j < |decls[k]| ==> decls[k][j] != ','
    requires forall k :: 0 <= k < |decls| ==> decls[k] != []
    requires forall k :: 0 <= k < |Terminated(decls)| ==> parse(Terminated(decls)[k]).Some?
    ensures Segment(Join(decls), parse) == SegOutcome(ParseAll(Terminated(decls), parse), false)
  {
    JoinSplit(decls);
    SplitUnique(Terminated(decls), Join(decls));
    AllFragmentsParse(Terminated(decls), 0, None, parse);
    assert Terminated(decls)[0..] == Terminated(decls);
  }

  /** The case a date attribute makes: "a=1; Expires=Wed," parses, " 21 Oct 2015
      07:28:00 GMT," does not, their concatenation does, and " b=2" parses.
      The two declarations are recovered, the first one whole. */
  lemma ExpiresDateRecovered(a: string, b: string, c: string, parse: CookieParser)
    requires parse(a).Some? && parse(b).None? && parse(a + b).Some? && parse(c).Some?
    ensures Walk([a, b, c], 0, None, parse) == SegOutcome([parse(a + b).value, parse(c).value], false)
  {
  }

  /** `c` is the parse of one fragment, or of two adjacent fragments glued. */
  ghost predicate ParsedFrom(c: Cookie, frags: seq<string>, parse: CookieParser) {
    exists j :: 0 <= j < |frags| &&
      (parse(frags[j]) == Some(c) || (j + 1 < |frags| && parse(frags[j] + frags[j + 1]) == Some(c)))
  }

  lemma ParsedFromSuffix(c: Cookie, frags: seq<string>, n: nat, parse: CookieParser)
    requires n <= |frags| && ParsedFrom(c, frags[n..], parse)
    ensures ParsedFrom(c, frags, parse)
  {
    var j :| 0 <= j < |frags[n..]| &&
      (parse(frags[n..][j]) == Some(c) || (j + 1 < |frags[n..]| && parse(frags[n..][j] + frags[n..][j + 1]) == Some(c)));
    assert frags[n..][j] == frags[n + j];
    if j + 1 < |frags[n..]| { assert frags[n..][j + 1] == frags[n + j + 1]; }
  }

  /** No cookie is made up: every inserted cookie is the cached `pending` one
      or the parse of a fragment or of two adjacent fragments. With nothing
      pending at the start, every insertion comes from the header itself. */
  lemma {:induction false} InsertedComeFromFragments(frags: seq<string>, i: nat, pending: Option<Cookie>, parse: CookieParser)
    requires i <= |frags|
    ensures forall k :: 0 <= k < |Walk(frags, i, pending, parse).inserted| ==>
      Some(Walk(frags, i, pending, parse).inserted[k]) == pending ||
      ParsedFrom(Walk(frags, i, pending, parse).inserted[k], frags, parse)
    decreases |frags| - i
  {
    var r := Walk(frags, i, pending, parse);
    if i + 1 < |frags| {
      match parse(frags[i + 1])
      case Some(next) =>
        var committed := if pending.Some? then pending else parse(frags[i]);
        if committed.Some? {
          var rest := Walk(frags, i + 1, Some(next), parse);
          InsertedComeFromFragments(frags, i + 1, Some(next), parse);
          forall k | 0 <= k < |r.inserted|
            ensures Some(r.inserted[k]) == pending || ParsedFrom(r.inserted[k], frags, parse)
          {
            if k == 0 {
              if pending.None? { assert parse(frags[i]) == Some(r.inserted[0]); }
            } else {
              var c := r.inserted[k];
              assert c == rest.inserted[k - 1];
              if Some(c) == Some(next) {
                assert parse(frags[i + 1]) == Some(c);
              }
            }
          }
        }
      case None =>
        var glued := Found(parse(frags[i] + frags[i + 1]));
        var rest := Walk(frags, i + 2, pending, parse);
        InsertedComeFromFragments(frags, i + 2, pending, parse);
        forall k | 0 <= k < |r.inserted|
          ensures Some(r.inserted[k]) == pending || ParsedFrom(r.inserted[k], frags, parse)
        {
          if k < |glued| {
            assert parse(frags[i] + frags[i + 1]) == Some(r.inserted[k]);
          } else {
            assert r.inserted[k] == rest.inserted[k - |glued|];
          }
        }
    } else if i < |frags| {
      if r.inserted != [] { assert parse(frags[i]) == Some(r.inserted[0]); }
    }
  }

  // ---------------------------------------------------------------------------
  // Findings: the walk as written against the walk as evidently intended

  /** The merge branch keeps `pending`, so a later "next parses" step commits
      that stale cookie instead of the current fragment. For the header
      "x=1, a=1; Expires=Wed, 21 Oct 2015 07:28:00 GMT, b=2, c=3" the fragments
      are f0 .. f4 below; the jar receives x=1, the whole a=1, then the
      truncated a=1 again, then c=3, and b=2 is lost. */
  lemma StalePendingReinserted(f0: string, f1: string, f2: string, f3: string, f4: string, parse: CookieParser)
    requires parse(f0).Some? && parse(f1).Some? && parse(f2).None?
    requires parse(f1 + f2).Some? && parse(f3).Some? && parse(f4).Some?
    ensures Walk([f0, f1, f2, f3, f4], 0, None, parse) ==
      SegOutcome([parse(f0).value, parse(f1 + f2).value, parse(f1).value, parse(f4).value], false)
    ensures Intended([f0, f1, f2, f3, f4], parse) ==
      [parse(f0).value, parse(f1 + f2).value, parse(f3).value, parse(f4).value]
  {
    var a, glued, b, c := parse(f1).value, parse(f1 + f2).value, parse(f3).value, parse(f4).value;
    var fs := [f0, f1, f2, f3, f4];
    assert Walk(fs, 3, Some(a), parse) == SegOutcome([a, c], false);
    assert Walk(fs, 1, Some(a), parse) == SegOutcome([glued, a, c], false);
    assert fs[1..] == [f1, f2, f3, f4];
    assert [f1, f2, f3, f4][2..] == [f3, f4];
    assert [f3, f4][1..] == [f4];
    assert Intended([f3, f4], parse) == [b, c];
    assert Intended([f1, f2, f3, f4], parse) == [glued, b, c];
  }

  /** A malformed fragment before a valid one panics instead of being dropped:
      for "=bad,b=2" the parser rejects "=bad," (empty name) and accepts "b=2",
      and nothing reaches the jar. The corrected walk keeps "b=2". */
  lemma MalformedBeforeValidPanics(bad: string, good: string, parse: CookieParser)
    requires IsPiece(bad) && EndsInComma(bad) && IsPiece(good) && good[|good| - 1] != ','
    requires parse(bad).None? && parse(good).Some?
    ensures Segment(bad + good, parse) == SegOutcome([], true)
    ensures Intended(SplitInclusive(bad + good), parse) == [parse(good).value]
  {
    var fs := [bad, good];
    assert fs[1..] == [good];
    assert Concat([good]) == good + Concat([]);
    assert Concat(fs) == bad + good;
    assert IsSplitOf(fs, bad + good);
    SplitUnique(fs, bad + good);
    assert Walk(fs, 0, None, parse) == SegOutcome([], true);
    assert Intended(fs, parse) == [parse(good).value];
  }

  /** The walk with both defects corrected: the merge branch forgets the cached
      cookie (so the cache always holds the parse of the current fragment and
      can be dropped), and a current fragment that does not parse is skipped
      instead of unwrapped. */
  function Intended(frags: seq<string>, parse: CookieParser): (r: seq<Cookie>)
    ensures |r| <= |frags|
    decreases |frags|
  {
    if |frags| >= 2 then
      if parse(frags[1]).Some? then Found(parse(frags[0])) + Intended(frags[1..], parse)
      else Found(parse(frags[0] + frags[1])) + Intended(frags[2..], parse)
    else if |frags| == 1 then Found(parse(frags[0]))
    else []
  }

  /** One declaration of a joined header: a single fragment that parses, or a
      fragment that parses followed by one that does not (the tail of a date
      attribute cut at its comma) whose concatenation parses. */
  predicate IsDeclaration(d: seq<string>, parse: CookieParser) {
    && (|d| == 1 || |d| == 2)
    && parse(d[0]).Some?
    && (|d| == 2 ==> parse(d[1]).None? && parse(d[0] + d[1]).Some?)
  }

  function Flatten(decls: seq<seq<string>>): seq<string> {
    if decls == [] then [] else decls[0] + Flatten(decls[1..])
  }

  /** The cookie each declaration stands for. */
  function Declared(decls: seq<seq<string>>, parse: CookieParser): seq<Cookie>
    requires forall k :: 0 <= k < |decls| ==> IsDeclaration(decls[k], parse)
  {
    if decls == [] then []
    else
      var d := decls[0];
      assert IsDeclaration(d, parse);
      [if |d| == 1 then parse(d[0]).value else parse(d[0] + d[1]).value] + Declared(decls[1..], parse)
  }

  /** The corrected walk recovers every declaration, in order, whether it is
      one fragment or a date-split pair. */
  lemma {:induction false} IntendedRecoversDeclarations(decls: seq<seq<string>>, parse: CookieParser)
    requires forall k :: 0 <= k < |decls| ==> IsDeclaration(decls[k], parse)
    ensures Intended(Flatten(decls), parse) == Declared(decls, parse)
  {
    if decls != [] {
      var d, rest := decls[0], Flatten(decls[1..]);
      IntendedRecoversDeclarations(decls[1..], parse);
      assert Flatten(decls) == d + rest;
      assert rest != [] ==> parse(rest[0]).Some? by {
        if rest != [] {
          assert decls[1..] != [];
          assert IsDeclaration(decls[1], parse);
          assert rest == decls[1] + Flatten(decls[2..]);
          assert decls[1..][1..] == decls[2..];
        }
      }
      if |d| == 1 {
        assert (d + rest)[1..] == rest;
      } else {
        assert (d + rest)[2..] == rest;
      }
    }
  }

  /** The corrected walk never panics and drops every fragment that parses
      neither alone nor glued to its neighbour: whatever it inserts is the parse
      of one fragment or two adjacent ones. */
  lemma {:induction false} IntendedInsertsOnlyParsed(frags: seq<string>, parse: CookieParser)
    ensures forall k :: 0 <= k < |Intended(frags, parse)| ==> ParsedFrom(Intended(frags, parse)[k], frags, parse)
    decreases |frags|
  {
    var r := Intended(frags, parse);
    if |frags| >= 2 {
      var n := if parse(frags[1]).Some? then 1 else 2;
      var head := if n == 1 then Found(parse(frags[0])) else Found(parse(frags[0] + frags[1]));
      IntendedInsertsOnlyParsed(frags[n..], parse);
      assert r == head + Intended(frags[n..], parse);
      forall k | 0 <= k < |r| ensures ParsedFrom(r[k], frags, parse) {
        if k < |head| {
          assert 0 < |frags|;
        } else {
          assert r[k] == Intended(frags[n..], parse)[k - |head|];
          ParsedFromSuffix(r[k], frags, n, parse);
        }
      }
    } else if |frags| == 1 {
      if r != [] { assert parse(frags[0]) == Some(r[0]); }
    }
  }

  /** Where no fragment is date-split, the source's walk and the corrected
      walk insert the same cookies: the defects only show around a merge or a
      fragment that does not parse. */
  lemma {:induction false} AgreesWhenAllParse(frags: seq<string>, parse: CookieParser)
    requires forall k :: 0 <= k < |frags| ==> parse(frags[k]).Some?
    ensures Walk(frags, 0, None, parse) == SegOutcome(Intended(frags, parse), false)
  {
    AllFragmentsParse(frags, 0, None, parse);
    assert frags[0..] == frags;
    IntendedAllParse(frags, parse);
  }

  lemma {:induction false} IntendedAllParse(frags: seq<string>, parse: CookieParser)
    requires forall k :: 0 <= k < |frags| ==> parse(frags[k]).Some?
    ensures Intended(frags, parse) == ParseAll(frags, parse)
  {
    if |frags| >= 2 {
      IntendedAllParse(frags[1..], parse);
    }
  }
}
