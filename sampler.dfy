/**
 * `_tag_analyze`: how many different projects post to a tag, sampled page
 * by page from the tag's listing, and the memo table `functools.cache`
 * keeps in front of it. A listing page is given by what the bot reads off
 * it: the query of the first tag link that carries an icon (if any) and the
 * hrefs of the post headers' project handles. Fetching a page is a
 * parameter; it stands for `_try_with_backoff` and may fail.
 */
module TagSampler {
  import opened Wrappers
  import opened Errors
  import opened Text

  const CursorKey: string := "refTimestamp"

  /** One listing page as the bot sees it. */
  datatype Page = Page(tagLink: Option<seq<(string, string)>>, handleHrefs: seq<string>)

  /** The query sent for one page: the tag, `skipPosts` and `refTimestamp`. */
  datatype Request = Request(tag: string, skipPosts: Option<nat>, refTimestamp: Option<seq<string>>)

  /** The verdict `(enough, count)`, or the error that escaped. */
  type Verdict = (bool, string)

  /** The outcome of one analysis and the page requests it sent, in order. */
  datatype Report = Report(outcome: Result<Verdict, Exc>, requests: seq<Request>)

  /** The loop's variables: `page_count`, `offset`, `reft`, `uniques`, and the requests so far. */
  datatype Scan = Scan(pageCount: nat, offset: nat, reft: Option<seq<string>>, uniques: set<string>, sent: seq<Request>)

  const Start: Scan := Scan(0, 0, None, {}, [])

  /**
   * `parse_qs(query).get("refTimestamp")`: the non-blank values given for
   * the cursor key, in order (blank values are dropped by `parse_qs`).
   */
  function CursorValues(query: seq<(string, string)>): (vs: seq<string>)
    ensures |vs| <= |query|
    ensures forall i :: 0 <= i < |vs| ==> vs[i] != ""
  {
    if query == [] then []
    else if query[0].0 == CursorKey && query[0].1 != "" then [query[0].1] + CursorValues(query[1..])
    else CursorValues(query[1..])
  }

  /** The cursor values are exactly the non-blank values of the cursor key. */
  lemma {:induction false} CursorValuesExact(query: seq<(string, string)>)
    ensures var vs := CursorValues(query);
      && (forall i :: 0 <= i < |query| && query[i].0 == CursorKey && query[i].1 != "" ==> query[i].1 in vs)
      && (forall v :: v in vs ==> v != "" && exists i :: 0 <= i < |query| && query[i] == (CursorKey, v))
      && (vs == [] <==> forall i :: 0 <= i < |query| ==> query[i].0 != CursorKey || query[i].1 == "")
  {
    if query != [] {
      var rest := CursorValues(query[1..]);
      CursorValuesExact(query[1..]);
      forall v | v in rest ensures exists i :: 0 <= i < |query| && query[i] == (CursorKey, v) {
        var i :| 0 <= i < |query[1..]| && query[1..][i] == (CursorKey, v);
        assert query[i + 1] == (CursorKey, v);
      }
      assert forall i :: 1 <= i < |query| ==> query[i] == query[1..][i - 1];
      if CursorValues(query) != [] {
        var v := CursorValues(query)[0];
        assert v in CursorValues(query);
      }
    }
  }

  /** The values keep the order of the query: those of a concatenation are the concatenation of theirs. */
  lemma {:induction false} CursorValuesOfConcat(a: seq<(string, string)>, b: seq<(string, string)>)
    ensures CursorValues(a + b) == CursorValues(a) + CursorValues(b)
  {
    if a == [] {
      assert a + b == b;
    } else {
      assert (a + b)[0] == a[0] && (a + b)[1..] == a[1..] + b;
      CursorValuesOfConcat(a[1..], b);
    }
  }

  /**
   * The cursor after reading a page: kept when the page has no icon-bearing
   * tag link, otherwise replaced by that link's cursor values (`None` when
   * it has none).
   */
  function NextCursor(page: Page, reft: Option<seq<string>>): (r: Option<seq<string>>)
    ensures page.tagLink.None? ==> r == reft
    ensures page.tagLink.Some? ==>
      var q := page.tagLink.value;
      && (r.None? <==> forall i :: 0 <= i < |q| ==> q[i].0 != CursorKey || q[i].1 == "")
      && (r.Some? ==> r.value == CursorValues(q))
  {
    match page.tagLink
    case None => reft
    case Some(q) =>
      var vs := CursorValues(q);
      CursorValuesExact(q);
      if vs == [] then None else Some(vs)
  }

  /** The handles on a page: the last path segment of each header href, in order. */
  function Handles(hrefs: seq<string>): (hs: seq<string>)
    ensures |hs| == |hrefs|
    ensures forall i :: 0 <= i < |hrefs| ==> hs[i] == LastSegment(hrefs[i], '/')
    ensures forall i :: 0 <= i < |hs| ==> '/' !in hs[i]
  {
    seq(|hrefs|, i requires 0 <= i < |hrefs| => LastSegment(hrefs[i], '/'))
  }

  /** `set(xs)`. */
  function Members(xs: seq<string>): set<string> {
    if xs == [] then {} else {xs[0]} + Members(xs[1..])
  }

  lemma {:induction false} MembersOf(xs: seq<string>)
    ensures forall x :: x in Members(xs) <==> x in xs
  {
    if xs != [] {
      MembersOf(xs[1..]);
      assert forall x :: x in xs <==> x == xs[0] || x in xs[1..];
    }
  }

  /** The request for the next page: `skipPosts` only past the first post, `refTimestamp` only when held. */
  function RequestFor(tag: string, offset: nat, reft: Option<seq<string>>): Request {
    Request(tag, if offset > 0 then Some(offset) else None, reft)
  }

  /** `(len(uniques) >= target, <count string>)`. */
  function VerdictOf(uniques: set<string>, target: int, more: bool): Verdict {
    (|uniques| >= target, if more then NatToString(|uniques|) + " or more" else NatToString(|uniques|))
  }


  function Remaining(pageCount: nat, maxPages: int): nat {
    if pageCount < maxPages then maxPages - pageCount else 0
  }


  /**
   * The state after a page with handles: one more page, the offset moved by
   * the number of handles (repeats included), the cursor as the page sets
   * it, the handles added to the set, and the request recorded.
   */
  function Advance(st: Scan, page: Page, req: Request): Scan {
    var handles := Handles(page.handleHrefs);
    Scan(st.pageCount + 1, st.offset + |handles|, NextCursor(page, st.reft), st.uniques + Members(handles), st.sent + [req])
  }

  /**
   * The loop of `_tag_analyze` from the state `st`. On a page without
   * handles the set is left as it was, which is what adding no handles
   * to it gives.
   */
  function Sample(fetch: Request -> Result<Page, Exc>, tag: string, target: int, maxPages: int, st: Scan): (t: Report)
    ensures |st.sent| <= |t.requests| <= |st.sent| + Remaining(st.pageCount, maxPages)
    ensures t.requests[..|st.sent|] == st.sent
    ensures st.pageCount < maxPages ==> |t.requests| > |st.sent| && t.requests[|st.sent|] == RequestFor(tag, st.offset, st.reft)
    decreases Remaining(st.pageCount, maxPages)
  {
    if st.pageCount >= maxPages then
      Report(Ok(VerdictOf(st.uniques, target, true)), st.sent)
    else
      var req := RequestFor(tag, st.offset, st.reft);
      match fetch(req)
      case Err(e) => Report(Err(e), st.sent + [req])
      case Ok(page) =>
        if |page.handleHrefs| == 0 then Report(Ok(VerdictOf(st.uniques, target, false)), st.sent + [req])
        else
          var next := Advance(st, page, req);
          var t := Sample(fetch, tag, target, maxPages, next);
          assert t.requests[..|st.sent|] == t.requests[..|next.sent|][..|st.sent|];
          assert t.requests[|st.sent|] == t.requests[..|next.sent|][|st.sent|];
          t
  }

  /** With the budget spent, the loop ends with a count "or more". */
  lemma BudgetSpent(fetch: Request -> Result<Page, Exc>, tag: string, target: int, maxPages: int, st: Scan)
    requires st.pageCount >= maxPages
    ensures Sample(fetch, tag, target, maxPages, st) == Report(Ok(VerdictOf(st.uniques, target, true)), st.sent)
  {
  }

  /** A page that fails to load ends the loop with its error. */
  lemma FetchFails(fetch: Request -> Result<Page, Exc>, tag: string, target: int, maxPages: int, st: Scan)
    requires st.pageCount < maxPages && fetch(RequestFor(tag, st.offset, st.reft)).Err?
    ensures Sample(fetch, tag, target, maxPages, st)
         == Report(Err(fetch(RequestFor(tag, st.offset, st.reft)).error), st.sent + [RequestFor(tag, st.offset, st.reft)])
  {
  }

  /** A page without handles ends the loop with the exact count. */
  lemma EmptyPage(fetch: Request -> Result<Page, Exc>, tag: string, target: int, maxPages: int, st: Scan, page: Page)
    requires st.pageCount < maxPages && fetch(RequestFor(tag, st.offset, st.reft)) == Ok(page)
    requires |page.handleHrefs| == 0
    ensures Sample(fetch, tag, target, maxPages, st)
         == Report(Ok(VerdictOf(st.uniques, target, false)), st.sent + [RequestFor(tag, st.offset, st.reft)])
  {
  }

  /** One turn of the loop over a page with handles. */
  lemma Turn(fetch: Request -> Result<Page, Exc>, tag: string, target: int, maxPages: int, st: Scan, page: Page)
    requires st.pageCount < maxPages && fetch(RequestFor(tag, st.offset, st.reft)) == Ok(page)
    requires |page.handleHrefs| > 0
    ensures Sample(fetch, tag, target, maxPages, st)
         == Sample(fetch, tag, target, maxPages, Advance(st, page, RequestFor(tag, st.offset, st.reft)))
  {
  }

  /** `_tag_analyze(tag, target, max_pages)` without its cache. */
  method TagAnalyze(fetch: Request -> Result<Page, Exc>, tag: string, target: int, maxPages: int)
    returns (r: Result<Verdict, Exc>, requests: seq<Request>)
    ensures Report(r, requests) == Sample(fetch, tag, target, maxPages, Start)
  {
    ghost var goal := Sample(fetch, tag, target, maxPages, Start);
    var reft: Option<seq<string>> := None;
    var pageCount: nat := 0;
    var uniques: set<string> := {};
    var offset: nat := 0;
    requests := [];
    while pageCount < maxPages
      invariant Sample(fetch, tag, target, maxPages, Scan(pageCount, offset, reft, uniques, requests)) == goal
      decreases maxPages - pageCount
    {
      ghost var st := Scan(pageCount, offset, reft, uniques, requests);
      var query := RequestFor(tag, offset, reft);
      requests := requests + [query];
      var result := fetch(query);
      if result.Err? {
        FetchFails(fetch, tag, target, maxPages, st);
        r := Err(result.error);
        return;
      }
      var page := result.value;
      ghost var next := Advance(st, page, query);
      if page.tagLink.Some? {
        var vs := CursorValues(page.tagLink.value);
        reft := if vs == [] then None else Some(vs);
      }
      assert reft == next.reft;
      pageCount := pageCount + 1;
      var handles := Handles(page.handleHrefs);
      uniques := uniques + Members(handles);
      if |handles| == 0 {
        EmptyPage(fetch, tag, target, maxPages, st, page);
        assert uniques == st.uniques by {
          assert handles == [];
        }
        r := Ok((|uniques| >= target, NatToString(|uniques|)));
        return;
      }
      offset := offset + |handles|;
      Turn(fetch, tag, target, maxPages, st, page);
      assert pageCount == next.pageCount && offset == next.offset && uniques == next.uniques && requests == next.sent;
    }
    BudgetSpent(fetch, tag, target, maxPages, Scan(pageCount, offset, reft, uniques, requests));
    r := Ok((|uniques| >= target, NatToString(|uniques|) + " or more"));
  }

  /** What a verdict's count text may be: an exact count, or a count "or more", and whether it reaches the target. */
  ghost predicate IsCountVerdict(v: Verdict, target: int) {
    exists n: nat :: (v.1 == NatToString(n) || v.1 == NatToString(n) + " or more") && (v.0 <==> n >= target)
  }

  /**
   * A verdict is the number of handles in decimal, followed by " or more"
   * when the count may be short, and whether that number reaches the target;
   * the digits read back as the count.
   */
  lemma VerdictCounts(uniques: set<string>, target: int, more: bool)
    ensures var v := VerdictOf(uniques, target, more);
      var digits := NatToString(|uniques|);
      && v.0 == (|uniques| >= target)
      && v.1 == digits + (if more then " or more" else "")
      && DigitsValue(v.1[..|digits|]) == |uniques|
      && IsCountVerdict(v, target)
  {
    var n: nat := |uniques|;
    var v := VerdictOf(uniques, target, more);
    DigitsValueOfNatToString(n);
    assert v.1[..|NatToString(n)|] == NatToString(n);
    assert v.1 == NatToString(n) || v.1 == NatToString(n) + " or more";
  }

  /** The handles on the pages answering `reqs`; a page that failed to load gives none. */
  function HandlesRead(fetch: Request -> Result<Page, Exc>, reqs: seq<Request>): set<string> {
    if reqs == [] then {}
    else
      var last := match fetch(reqs[|reqs| - 1])
        case Ok(page) => Members(Handles(page.handleHrefs))
        case Err(_) => {};
      HandlesRead(fetch, reqs[..|reqs| - 1]) + last
  }

  /** Every page answering `reqs` loaded and carried handles. */
  predicate AllFull(fetch: Request -> Result<Page, Exc>, reqs: seq<Request>) {
    forall i :: 0 <= i < |reqs| ==> fetch(reqs[i]).Ok? && |fetch(reqs[i]).value.handleHrefs| > 0
  }

  /**
   * From a state that has read one page per request, all of them full, and
   * holds their handles: a verdict counts the handles on every page read,
   * and says "or more" exactly when every page read was full, which happens
   * only when the page budget ran out.
   */
  lemma {:induction false} SampleCountsFrom(fetch: Request -> Result<Page, Exc>, tag: string, target: int, maxPages: int, st: Scan)
    requires st.pageCount == |st.sent| && AllFull(fetch, st.sent) && st.uniques == HandlesRead(fetch, st.sent)
    ensures var t := Sample(fetch, tag, target, maxPages, st);
      t.outcome.Ok? ==>
        && t.outcome.value == VerdictOf(HandlesRead(fetch, t.requests), target, AllFull(fetch, t.requests))
        && (AllFull(fetch, t.requests) ==> |t.requests| == if |st.sent| < maxPages then maxPages else |st.sent|)
    decreases Remaining(st.pageCount, maxPages)
  {
    if st.pageCount >= maxPages {
      BudgetSpent(fetch, tag, target, maxPages, st);
    } else {
      var req := RequestFor(tag, st.offset, st.reft);
      var sent := st.sent + [req];
      assert sent[..|sent| - 1] == st.sent && sent[|sent| - 1] == req;
      match fetch(req)
      case Err(e) =>
        FetchFails(fetch, tag, target, maxPages, st);
      case Ok(page) =>
        assert HandlesRead(fetch, sent) == st.uniques + Members(Handles(page.handleHrefs));
        if |page.handleHrefs| == 0 {
          EmptyPage(fetch, tag, target, maxPages, st, page);
          assert Handles(page.handleHrefs) == [];
          assert HandlesRead(fetch, sent) == st.uniques;
          assert !AllFull(fetch, sent) by {
            assert sent[|st.sent|] == req;
          }
        } else {
          assert AllFull(fetch, sent) by {
            forall i | 0 <= i < |sent| ensures fetch(sent[i]).Ok? && |fetch(sent[i]).value.handleHrefs| > 0 {
              if i < |st.sent| { assert sent[i] == st.sent[i]; }
            }
          }
          Turn(fetch, tag, target, maxPages, st, page);
          SampleCountsFrom(fetch, tag, target, maxPages, Advance(st, page, req));
        }
    }
  }

  /**
   * Whatever the pages, a successful analysis counts the distinct handles on
   * all the pages it read, and says "or more" exactly when it read
   * `max_pages` pages (none when the budget is not positive) and none of
   * them was empty; the count text is a count verdict for the target.
   */
  lemma SampleVerdict(fetch: Request -> Result<Page, Exc>, tag: string, target: int, maxPages: int)
    ensures var t := Sample(fetch, tag, target, maxPages, Start);
      t.outcome.Ok? ==>
        && t.outcome.value == VerdictOf(HandlesRead(fetch, t.requests), target, AllFull(fetch, t.requests))
        && (AllFull(fetch, t.requests) ==> |t.requests| == if maxPages > 0 then maxPages else 0)
        && IsCountVerdict(t.outcome.value, target)
  {
    SampleCountsFrom(fetch, tag, target, maxPages, Start);
    var t := Sample(fetch, tag, target, maxPages, Start);
    VerdictCounts(HandlesRead(fetch, t.requests), target, AllFull(fetch, t.requests));
  }

  /**
   * The memo table of `functools.cache`, keyed by the argument tuple
   * `(tag, target, max_pages)`. Only results are stored: a call that
   * raises leaves the table as it was.
   */
  class TagAnalyzeCache {
    var memo: map<(string, int, int), Verdict>

    /** Every stored verdict is a count verdict for its own target. */
    ghost predicate Valid()
      reads this
    {
      forall k :: k in memo ==> IsCountVerdict(memo[k], k.1)
    }

    constructor()
      ensures memo == map[] && Valid()
    {
      memo := map[];
    }

    /** `tag_analyze(tag, target, max_pages)`: the stored verdict, or a fresh analysis that is then stored. */
    method Analyze(fetch: Request -> Result<Page, Exc>, tag: string, target: int, maxPages: int)
      returns (r: Result<Verdict, Exc>, requests: seq<Request>)
      requires Valid()
      modifies this
      ensures Valid()
      ensures r.Ok? ==> IsCountVerdict(r.value, target)
      ensures (tag, target, maxPages) in old(memo) ==>
        r == Ok(old(memo)[(tag, target, maxPages)]) && requests == [] && memo == old(memo)
      ensures (tag, target, maxPages) !in old(memo) ==>
        && Report(r, requests) == Sample(fetch, tag, target, maxPages, Start)
        && memo == if r.Ok? then old(memo)[(tag, target, maxPages) := r.value] else old(memo)
    {
      var key := (tag, target, maxPages);
      if key in memo {
        return Ok(memo[key]), [];
      }
      r, requests := TagAnalyze(fetch, tag, target, maxPages);
      SampleVerdict(fetch, tag, target, maxPages);
      if r.Ok? {
        memo := memo[key := r.value];
      }
    }
  }

  /**
   * A second call with the same arguments sends nothing and repeats the
   * first answer, even when the pages have changed since.
   */
  method RepeatCallIsCached(c: TagAnalyzeCache, fetch: Request -> Result<Page, Exc>, later: Request -> Result<Page, Exc>,
                            tag: string, target: int, maxPages: int)
    returns (first: Result<Verdict, Exc>, second: Result<Verdict, Exc>, resent: seq<Request>)
    requires c.Valid()
    modifies c
    ensures c.Valid()
    ensures first.Ok? ==> second == first && resent == []
  {
    var sent;
    first, sent := c.Analyze(fetch, tag, target, maxPages);
    second, resent := c.Analyze(later, tag, target, maxPages);
  }

  /** At most `max_pages` pages are fetched, and none when the budget is not positive. */
  lemma AtMostMaxPages(fetch: Request -> Result<Page, Exc>, tag: string, target: int, maxPages: int)
    ensures |Sample(fetch, tag, target, maxPages, Start).requests| <= if maxPages > 0 then maxPages else 0
    ensures maxPages <= 0 ==> Sample(fetch, tag, target, maxPages, Start) == Report(Ok((0 >= target, "0 or more")), [])
  {
    assert NatToString(0) + " or more" == "0 or more";
    assert |Start.uniques| == 0;
  }

  /**
   * The requests of one run: all for the same tag, `skipPosts` on every
   * request but the first, and its value strictly growing.
   */
  predicate RequestsInOrder(sent: seq<Request>, tag: string) {
    && (forall i :: 0 <= i < |sent| ==> sent[i].tag == tag && (sent[i].skipPosts.Some? <==> i > 0))
    && (forall i, j :: 0 <= i < j < |sent| && sent[i].skipPosts.Some? && sent[j].skipPosts.Some? ==>
          sent[i].skipPosts.value < sent[j].skipPosts.value)
  }

  /** Every `skipPosts` sent so far is below the current offset. */
  predicate SkipsBelow(sent: seq<Request>, offset: nat) {
    forall i :: 0 <= i < |sent| && sent[i].skipPosts.Some? ==> sent[i].skipPosts.value < offset
  }

  /** Sending the next request keeps the order, and any later offset stays above every skip sent. */
  lemma AppendRequest(sent: seq<Request>, tag: string, offset: nat, reft: Option<seq<string>>, grown: nat)
    requires RequestsInOrder(sent, tag) && SkipsBelow(sent, offset) && (offset > 0 <==> |sent| > 0)
    requires grown > offset
    ensures RequestsInOrder(sent + [RequestFor(tag, offset, reft)], tag)
    ensures SkipsBelow(sent + [RequestFor(tag, offset, reft)], grown)
  {
    var all := sent + [RequestFor(tag, offset, reft)];
    assert forall i :: 0 <= i < |sent| ==> all[i] == sent[i];
    assert all[|sent|] == RequestFor(tag, offset, reft);
  }

  lemma {:induction false} RequestsInOrderFrom(fetch: Request -> Result<Page, Exc>, tag: string, target: int, maxPages: int, st: Scan)
    requires RequestsInOrder(st.sent, tag) && SkipsBelow(st.sent, st.offset) && (st.offset > 0 <==> |st.sent| > 0)
    ensures RequestsInOrder(Sample(fetch, tag, target, maxPages, st).requests, tag)
    decreases Remaining(st.pageCount, maxPages)
  {
    if st.pageCount < maxPages {
      var req := RequestFor(tag, st.offset, st.reft);
      AppendRequest(st.sent, tag, st.offset, st.reft, st.offset + 1);
      match fetch(req)
      case Err(e) =>
      case Ok(page) =>
        if |page.handleHrefs| > 0 {
          var next := Advance(st, page, req);
          AppendRequest(st.sent, tag, st.offset, st.reft, next.offset);
          RequestsInOrderFrom(fetch, tag, target, maxPages, next);
        }
    }
  }

  /**
   * The first request carries neither `skipPosts` nor `refTimestamp`; every
   * later one is for the same tag and carries a larger `skipPosts` than the
   * one before.
   */
  lemma FirstRequestBare(fetch: Request -> Result<Page, Exc>, tag: string, target: int, maxPages: int)
    requires maxPages >= 1
    ensures var t := Sample(fetch, tag, target, maxPages, Start);
      && |t.requests| >= 1
      && t.requests[0] == Request(tag, None, None)
      && RequestsInOrder(t.requests, tag)
  {
    RequestsInOrderFrom(fetch, tag, target, maxPages, Start);
  }

  /** A page that fails to load ends the analysis with its error; nothing is returned for it. */
  lemma FetchErrorEscapes(fetch: Request -> Result<Page, Exc>, tag: string, target: int, maxPages: int)
    requires maxPages >= 1 && fetch(Request(tag, None, None)).Err?
    ensures Sample(fetch, tag, target, maxPages, Start)
         == Report(Err(fetch(Request(tag, None, None)).error), [Request(tag, None, None)])
  {
  }

  /** The handle in `/name` is `name`. */
  lemma HandleOf(name: string)
    requires '/' !in name
    ensures Handles(["/" + name]) == [name] && Members([name]) == {name}
  {
    LastSegmentAfterSeparator("", '/', name);
    assert "" + ['/'] + name == "/" + name;
    assert Members([name]) == {name} + Members([]);
  }

  /** Two different handles count as "2". */
  lemma CountOfTwo(a: string, b: string, target: int, more: bool)
    requires a != b
    ensures VerdictOf({a, b}, target, more) == (2 >= target, if more then "2 or more" else "2")
  {
    assert |{a, b}| == 2;
    assert NatToString(2) == "2";
    assert NatToString(2) + " or more" == "2 or more";
  }

  /** The first page of `DuplicatesAdvanceOffset`: two handles and the cursor 7. */
  lemma FirstPageOfTwo(tag: string, a: string, b: string)
    requires '/' !in a && '/' !in b
    ensures Advance(Start, Page(Some([(CursorKey, "7")]), ["/" + a, "/" + b]), Request(tag, None, None))
         == Scan(1, 2, Some(["7"]), {a, b}, [Request(tag, None, None)])
  {
    HandleOf(a);
    HandleOf(b);
    assert CursorValues([(CursorKey, "7")]) == ["7"];
    assert Handles(["/" + a, "/" + b]) == [a, b] by {
      assert Handles(["/" + a, "/" + b])[0] == Handles(["/" + a])[0];
      assert Handles(["/" + a, "/" + b])[1] == Handles(["/" + b])[0];
    }
    assert Members([a, b]) == {a} + Members([b]);
  }

  /**
   * Pages with handles `[a, b]` (and a cursor link `refTimestamp=7`), `[a]`
   * (no cursor link), then none, against a target of 3: three requests,
   * `skipPosts` 2 and then 3 because the repeated `a` still counts towards
   * the offset, the cursor kept for the third, and the exact count "2".
   */
  lemma DuplicatesAdvanceOffset(fetch: Request -> Result<Page, Exc>, tag: string, a: string, b: string)
    requires a != b && '/' !in a && '/' !in b
    requires fetch(Request(tag, None, None)) == Ok(Page(Some([(CursorKey, "7")]), ["/" + a, "/" + b]))
    requires fetch(Request(tag, Some(2), Some(["7"]))) == Ok(Page(None, ["/" + a]))
    requires fetch(Request(tag, Some(3), Some(["7"]))) == Ok(Page(None, []))
    ensures Sample(fetch, tag, 3, 10, Start) == Report(Ok((false, "2")),
      [Request(tag, None, None), Request(tag, Some(2), Some(["7"])), Request(tag, Some(3), Some(["7"]))])
  {
    var r1, r2, r3 := Request(tag, None, None), Request(tag, Some(2), Some(["7"])), Request(tag, Some(3), Some(["7"]));
    var s1 := Scan(1, 2, Some(["7"]), {a, b}, [r1]);
    var s2 := Scan(2, 3, Some(["7"]), {a, b}, [r1, r2]);
    Turn(fetch, tag, 3, 10, Start, Page(Some([(CursorKey, "7")]), ["/" + a, "/" + b]));
    FirstPageOfTwo(tag, a, b);
    Turn(fetch, tag, 3, 10, s1, Page(None, ["/" + a]));
    assert Advance(s1, Page(None, ["/" + a]), r2) == s2 by {
      HandleOf(a);
      assert {a, b} + {a} == {a, b};
    }
    EmptyPage(fetch, tag, 3, 10, s2, Page(None, []));
    CountOfTwo(a, b, 3, false);
  }

  /** The states of `BudgetSpentSaysOrMore`, page by page. */
  lemma ThreeFullPages(tag: string, a: string, b: string)
    requires '/' !in a && '/' !in b
    ensures var r1, r2 := Request(tag, None, None), Request(tag, Some(1), Some(["9"]));
      && Advance(Start, Page(Some([(CursorKey, "9")]), ["/" + a]), r1) == Scan(1, 1, Some(["9"]), {a}, [r1])
      && Advance(Scan(1, 1, Some(["9"]), {a}, [r1]), Page(Some([(CursorKey, "")]), ["/" + b]), r2)
         == Scan(2, 2, None, {a, b}, [r1, r2])
      && Advance(Scan(2, 2, None, {a, b}, [r1, r2]), Page(None, ["/" + a]), Request(tag, Some(2), None))
         == Scan(3, 3, None, {a, b}, [r1, r2, Request(tag, Some(2), None)])
  {
    HandleOf(a);
    HandleOf(b);
    assert CursorValues([(CursorKey, "9")]) == ["9"];
    assert CursorValues([(CursorKey, "")]) == [];
    assert {} + {a} == {a};
    assert {a, b} + {a} == {a, b};
  }

  /**
   * Three pages of budget, every page full: the verdict says "or more" even
   * though the target was met, and a cursor link whose `refTimestamp` is
   * blank drops the cursor for the next request.
   */
  lemma BudgetSpentSaysOrMore(fetch: Request -> Result<Page, Exc>, tag: string, a: string, b: string)
    requires a != b && '/' !in a && '/' !in b
    requires fetch(Request(tag, None, None)) == Ok(Page(Some([(CursorKey, "9")]), ["/" + a]))
    requires fetch(Request(tag, Some(1), Some(["9"]))) == Ok(Page(Some([(CursorKey, "")]), ["/" + b]))
    requires fetch(Request(tag, Some(2), None)) == Ok(Page(None, ["/" + a]))
    ensures Sample(fetch, tag, 2, 3, Start) == Report(Ok((true, "2 or more")),
      [Request(tag, None, None), Request(tag, Some(1), Some(["9"])), Request(tag, Some(2), None)])
  {
    var r1, r2, r3 := Request(tag, None, None), Request(tag, Some(1), Some(["9"])), Request(tag, Some(2), None);
    var p1, p2, p3 := Page(Some([(CursorKey, "9")]), ["/" + a]), Page(Some([(CursorKey, "")]), ["/" + b]), Page(None, ["/" + a]);
    var s1 := Scan(1, 1, Some(["9"]), {a}, [r1]);
    var s2 := Scan(2, 2, None, {a, b}, [r1, r2]);
    var s3 := Scan(3, 3, None, {a, b}, [r1, r2, r3]);
    Turn(fetch, tag, 2, 3, Start, p1);
    Turn(fetch, tag, 2, 3, s1, p2);
    Turn(fetch, tag, 2, 3, s2, p3);
    ThreeFullPages(tag, a, b);
    BudgetSpent(fetch, tag, 2, 3, s3);
    CountOfTwo(a, b, 2, true);
  }
}
