/**
 * Who wrote a post: `get_author_classic` reads the handle off the
 * `_links` of the classic per-post document, and `try_post` falls back to
 * the probe (`get_author_hacky`) only when that raises a `ValueError`.
 * The document is given by the hrefs of its `_links`; the probe, which
 * creates and deletes a remote post, is given by its result.
 */
module Author {
  import opened Wrappers
  import opened Errors
  import opened Text
  import Executor
  import Calendar

  const ProjectPrefix: string := "/api/v1/project/"
  const PostsSuffix: string := "/posts"

  /** A link to a project that is not its post listing. */
  predicate IsProjectLink(href: string) {
    StartsWith(href, ProjectPrefix) && !EndsWith(href, PostsSuffix)
  }

  /** The `filter(...)` of the links: the project links, in document order. */
  function ProjectLinks(links: seq<string>): (r: seq<string>)
    ensures forall x :: x in r ==> x in links && IsProjectLink(x)
    ensures forall x :: x in links && IsProjectLink(x) ==> x in r
    ensures r != [] ==> exists i :: 0 <= i < |links| && links[i] == r[0]
                          && forall k :: 0 <= k < i ==> !IsProjectLink(links[k])
  {
    if links == [] then []
    else if IsProjectLink(links[0]) then [links[0]] + ProjectLinks(links[1..])
    else
      var rest := ProjectLinks(links[1..]);
      assert rest != [] ==> exists i :: 1 <= i < |links| && links[i] == rest[0]
                              && forall k :: 1 <= k < i ==> !IsProjectLink(links[k]) by {
        if rest != [] {
          var i :| 0 <= i < |links[1..]| && links[1..][i] == rest[0]
                   && forall k :: 0 <= k < i ==> !IsProjectLink(links[1..][k]);
          assert links[i + 1] == rest[0];
          assert forall k :: 1 <= k < i + 1 ==> links[k] == links[1..][k - 1];
        }
      }
      rest
  }

  /** `get_author_classic(pid)` on the `_links` hrefs of the fetched document. */
  function AuthorClassic(links: seq<string>): Result<string, Exc> {
    var candidates := ProjectLinks(links);
    if candidates == [] then Err(IndexError)    // `author[0]` of an empty list
    else Ok(LastSegment(candidates[0], '/'))
  }

  /**
   * The handle is the last path segment of the first project link; with no
   * project link the lookup raises `IndexError`.
   */
  lemma {:induction false} AuthorFromFirstProjectLink(links: seq<string>)
    ensures AuthorClassic(links).Err? <==> forall x :: x in links ==> !IsProjectLink(x)
    ensures AuthorClassic(links).Err? ==> AuthorClassic(links).error == IndexError
    ensures AuthorClassic(links).Ok? ==>
      exists i :: 0 <= i < |links| && IsProjectLink(links[i])
        && (forall k :: 0 <= k < i ==> !IsProjectLink(links[k]))
        && AuthorClassic(links).value == LastSegment(links[i], '/')
        && '/' !in AuthorClassic(links).value
  {
    var candidates := ProjectLinks(links);
    if candidates != [] {
      assert candidates[0] in candidates;
    } else {
      assert forall x :: x in links ==> !IsProjectLink(x);
    }
  }

  /** A project link followed by the listing link: the handle is the project's. */
  lemma ProjectThenListing(handle: string)
    requires '/' !in handle && !EndsWith(ProjectPrefix + handle, PostsSuffix)
    ensures AuthorClassic([ProjectPrefix + handle, ProjectPrefix + handle + PostsSuffix]) == Ok(handle)
  {
    var link := ProjectPrefix + handle;
    assert StartsWith(link, ProjectPrefix);
    assert ProjectPrefix == "/api/v1/project" + "/";
    assert link == "/api/v1/project" + ['/'] + handle;
    LastSegmentAfterSeparator("/api/v1/project", '/', handle);
  }

  /** Which path found the author, and what it gave. */
  datatype Resolution = Resolution(author: Result<string, Exc>, probed: bool)

  /**
   * The author lookup at the top of `try_post`: the classic result, or
   * the probe's when the classic one raised a `ValueError`.
   */
  function ResolveAuthor(classic: Result<string, Exc>, probe: Result<string, Exc>): (r: Resolution)
    ensures r.probed <==> classic.Err? && IsValueError(classic.error)
    ensures r.author == if r.probed then probe else classic
  {
    if classic.Err? && classic.error.ValueError? then Resolution(probe, true)
    else Resolution(classic, false)
  }

  /** The classic path end to end: the fetch of the document, then its links. */
  function ClassicLookup(fetch: Result<seq<string>, Exc>): Result<string, Exc> {
    match fetch
    case Err(e) => Err(e)
    case Ok(links) => AuthorClassic(links)
  }

  /**
   * A document with no usable project link raises `IndexError`, which is
   * not a `ValueError`: the probe is not tried and the error propagates.
   */
  lemma {:induction false} NoProjectLinkNoFallback(links: seq<string>, probe: Result<string, Exc>)
    requires forall x :: x in links ==> !IsProjectLink(x)
    ensures ResolveAuthor(ClassicLookup(Ok(links)), probe) == Resolution(Err(IndexError), false)
  {
    AuthorFromFirstProjectLink(links);
  }

  /**
   * A non-200, non-retryable answer to the classic fetch whose body the
   * message extraction gets through is a `ValueError`: the probe runs,
   * once, and its result is the author.
   */
  lemma {:induction false} BadStatusFallsBack(serve: nat -> Executor.Response, clock: nat -> Executor.Readings, probe: Result<string, Exc>)
    requires !Executor.IsRetryable(serve(0).status) && serve(0).status != 200
    requires Executor.ExtractMessages(serve(0).body).Ok?
    ensures var t := Executor.Run(serve, clock, 0, []);
      ResolveAuthor(ClassicLookup(Err(t.outcome.error)), probe) == Resolution(probe, true)
  {
    Executor.NonRetryableFailsAtOnce(serve, clock);
  }

  /**
   * A `retry-after` deadline past `datetime.max` on the classic fetch: an
   * `OverflowError`, which is no `ValueError`, so no probe either. A hint
   * so long that `int()` refuses it is a `ValueError` instead, and then
   * the probe runs.
   */
  lemma {:induction false} OverflowNoFallback(serve: nat -> Executor.Response, clock: nat -> Executor.Readings, n: nat,
                                              probe: Result<string, Exc>)
    requires Executor.IsRetryable(serve(0).status) && serve(0).retryAfter == Some(NatToString(n))
    requires Calendar.Overflows(clock(1).inParse, n)
    ensures var t := Executor.Run(serve, clock, 0, []);
      && (|NatToString(n)| <= IntMaxStrDigits ==>
            t == Executor.Trace(Err(OverflowError), 1, [])
            && ResolveAuthor(ClassicLookup(Err(t.outcome.error)), probe) == Resolution(Err(OverflowError), false))
      && (|NatToString(n)| > IntMaxStrDigits ==>
            t == Executor.Trace(Err(ValueError(DigitLimit)), 1, [])
            && ResolveAuthor(ClassicLookup(Err(t.outcome.error)), probe) == Resolution(probe, true))
  {
    Executor.DelayHintSleeps(serve, clock, n);
  }

  /** Retries exhausted on the classic fetch: a `TimeoutError`, so no probe either. */
  lemma {:induction false} TimeoutNoFallback(serve: nat -> Executor.Response, clock: nat -> Executor.Readings, probe: Result<string, Exc>)
    requires Executor.PlainRetries(serve, Executor.MaxRetry + 1)
    ensures var t := Executor.Run(serve, clock, 0, []);
      t.outcome.Err? && ResolveAuthor(ClassicLookup(Err(t.outcome.error)), probe).probed == false
  {
    Executor.ElevenFailuresTimeOut(serve, clock);
  }
}
