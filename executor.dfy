/**
 * The resilient request executor, `_try_with_backoff`: one HTTP request
 * retried while the service answers 418 or 5xx, with a sleep between
 * attempts. The transport is a function from the attempt number (0, 1,
 * ...) to the response it gets; the clock a function from the failure count
 * to the two readings taken while that failure is handled. Sleeps are
 * recorded in whole seconds instead of performed.
 */
module Executor {
  import opened Wrappers
  import opened Errors
  import opened Text
  import opened Calendar
  import TryAgain

  /** `MAX_RETRY`: the failure count above which the executor gives up. */
  const MaxRetry: nat := 10

  /** A decoded JSON document. */
  datatype Json =
    | JNull
    | JBool(b: bool)
    | JNum(n: int)
    | JStr(s: string)
    | JArr(items: seq<Json>)
    | JObj(fields: map<string, Json>)

  /** Status, the optional `retry-after` header, and the body (`None`: not JSON). */
  datatype Response = Response(status: int, retryAfter: Option<string>, body: Option<Json>)

  /** A Python subscript: `js["key"]` or `js[0]`. */
  datatype Key = Name(name: string) | Position(index: int)

  predicate IsRetryable(status: int) {
    status == 418 || 500 <= status <= 599
  }

  /** `t` occurs in `s` as a substring (Python's `t in s` on strings). */
  predicate HasInfix(s: string, t: string)
    decreases |s|
  {
    StartsWith(s, t) || (|s| > 0 && HasInfix(s[1..], t))
  }

  /** Python's `key in js`. */
  function Contains(js: Json, key: string): Result<bool, Exc> {
    match js
    case JObj(m) => Ok(key in m)
    case JArr(xs) => Ok(JStr(key) in xs)
    case JStr(s) => Ok(HasInfix(s, key))
    case _ => Err(TypeError)
  }

  /** Python's `js[key]`. */
  function Subscript(js: Json, key: Key): Result<Json, Exc> {
    match (js, key)
    case (JObj(m), Name(k)) => if k in m then Ok(m[k]) else Err(KeyError)
    case (JObj(_), Position(_)) => Err(KeyError)
    case (JArr(xs), Position(i)) =>
      if 0 <= i < |xs| then Ok(xs[i]) else Err(IndexError)
    case (JStr(s), Position(i)) =>
      if 0 <= i < |s| then Ok(JStr([s[i]])) else Err(IndexError)
    case _ => Err(TypeError)
  }

  /** `value.strip()`, which only a string has. */
  function StripValue(js: Json): Result<string, Exc> {
    if js.JStr? then Ok(Strip(js.s)) else Err(AttributeError)
  }

  /** `if "message" in js: rp(js["message"].strip())`: what it prints. */
  function TopLevelMessage(js: Json): Result<seq<string>, Exc> {
    var present :- Contains(js, "message");
    if !present then Ok([])
    else
      var v :- Subscript(js, Name("message"));
      var text :- StripValue(v);
      Ok([text])
  }

  /** `if "message" in js[0]["error"]: rp(js[0]["error"]["message"].strip())`. */
  function BatchMessage(js: Json): Result<seq<string>, Exc> {
    var first :- Subscript(js, Position(0));
    var error :- Subscript(first, Name("error"));
    var present :- Contains(error, "message");
    if !present then Ok([])
    else
      var v :- Subscript(error, Name("message"));
      var text :- StripValue(v);
      Ok([text])
  }

  /**
   * The message extraction on a non-200, non-retryable response: the
   * messages printed, or the exception that escapes it. A `ValueError` or
   * `KeyError` ends the extraction quietly; any other exception escapes.
   */
  function ExtractMessages(body: Option<Json>): (r: Result<seq<string>, Exc>)
    ensures r.Err? ==> !IsSwallowed(r.error)
  {
    match body
    case None => Ok([])
    case Some(js) =>
      match TopLevelMessage(js)
      case Err(e) => if IsSwallowed(e) then Ok([]) else Err(e)
      case Ok(printed) =>
        match BatchMessage(js)
        case Err(e) => if IsSwallowed(e) then Ok(printed) else Err(e)
        case Ok(more) => Ok(printed + more)
  }

  const SecondsPerDay: nat := 86400

  /**
   * `timedelta.seconds` of a duration of `d` whole seconds: the part within
   * its day, whole days (negative ones included) dropped.
   */
  function SecondsField(d: int): (s: nat)
    ensures s < SecondsPerDay
    ensures 0 <= d < SecondsPerDay ==> s == d
    ensures (d - s) % SecondsPerDay == 0
  {
    d % SecondsPerDay
  }

  /**
   * `timedelta.seconds` of a duration of `us` microseconds: its whole
   * seconds, rounded down, within their day.
   */
  function DurationSeconds(us: int): (s: nat)
    ensures s < SecondsPerDay
    ensures 0 <= us < SecondsPerDay * MicrosPerSecond ==> s * MicrosPerSecond <= us < (s + 1) * MicrosPerSecond
  {
    SecondsField(us / MicrosPerSecond)
  }

  /**
   * The two readings of `datetime.now()` while a hinted failure is handled:
   * the one `parse_retry_after` adds the delay to, and the one the deadline
   * is then compared with (cohost.py, `new_schedule - datetime.now()`).
   */
  datatype Readings = Readings(inParse: int, afterParse: int)

  /**
   * How long `time.sleep(duration.seconds)` sleeps after the
   * `failures`-th retryable response, or why working that out fails.
   */
  function Wait(resp: Response, failures: nat, r: Readings): (w: Result<int, Exc>)
    ensures w.Ok? ==> 0 <= w.value < SecondsPerDay
    ensures w.Err? ==> w.error in {TypeError, ValueError(InvalidDate), ValueError(DigitLimit), OverflowError}
  {
    match resp.retryAfter
    case None =>
      if TryAgain.Backoff(failures) > MaxDeltaSeconds then Err(OverflowError)
      else Ok(SecondsField(TryAgain.Backoff(failures)))
    case Some(hint) =>
      match TryAgain.ParseRetryAfter(hint, failures, r.inParse)
      case Err(e) => Err(e)
      case Ok(None) => Err(TypeError)    // `None - datetime.now()`
      case Ok(Some(deadline)) => Ok(DurationSeconds(deadline - r.afterParse))
  }

  /** What one call did: its result, the requests it issued and the sleeps, in order. */
  datatype Trace = Trace(outcome: Result<Response, Exc>, requests: nat, sleeps: seq<int>)

  /**
   * The executor from the state where `failures` retryable responses were
   * seen and `sleeps` slept: the reference the loop is proved against.
   */
  function Run(serve: nat -> Response, clock: nat -> Readings, failures: nat, sleeps: seq<int>): (t: Trace)
    requires failures <= MaxRetry
    decreases MaxRetry - failures
    ensures failures + 1 <= t.requests <= MaxRetry + 1
    ensures sleeps <= t.sleeps && |t.sleeps| == |sleeps| + t.requests - failures - 1
    ensures t.outcome.Ok? ==> t.outcome.value.status == 200
    ensures t.outcome.Err? && t.outcome.error.TimeoutError? ==> t.requests == MaxRetry + 1
  {
    var resp := serve(failures);
    if IsRetryable(resp.status) then
      var f := failures + 1;
      if f > MaxRetry then Trace(Err(TimeoutError(f)), f, sleeps)
      else match Wait(resp, f, clock(f))
        case Err(e) => Trace(Err(e), f, sleeps)
        case Ok(d) => Run(serve, clock, f, sleeps + [d])
    else if resp.status != 200 then
      match ExtractMessages(resp.body)
      case Err(e) => Trace(Err(e), failures + 1, sleeps)
      case Ok(_) => Trace(Err(ValueError(BadStatus(resp.status))), failures + 1, sleeps)
    else Trace(Ok(resp), failures + 1, sleeps)
  }

  /** `_try_with_backoff(url)` against the scripted transport. */
  method TryWithBackoff(serve: nat -> Response, clock: nat -> Readings)
    returns (outcome: Result<Response, Exc>, requests: nat, sleeps: seq<int>)
    ensures Trace(outcome, requests, sleeps) == Run(serve, clock, 0, [])
    ensures 1 <= requests <= MaxRetry + 1 && |sleeps| == requests - 1
    ensures outcome.Ok? ==> outcome.value.status == 200
  {
    var failures: nat := 0;
    sleeps := [];
    while true
      invariant failures <= MaxRetry && |sleeps| == failures
      invariant Run(serve, clock, failures, sleeps) == Run(serve, clock, 0, [])
      decreases MaxRetry - failures
    {
      var resp := serve(failures);
      if IsRetryable(resp.status) {
        failures := failures + 1;
        if failures > MaxRetry {
          return Err(TimeoutError(failures)), failures, sleeps;
        }
        var duration := Wait(resp, failures, clock(failures));
        if duration.Err? {
          return Err(duration.error), failures, sleeps;
        }
        sleeps := sleeps + [duration.value];
        continue;
      } else if resp.status != 200 {
        var printed := ExtractMessages(resp.body);
        if printed.Err? {
          return Err(printed.error), failures + 1, sleeps;
        }
        return Err(ValueError(BadStatus(resp.status))), failures + 1, sleeps;
      }
      return Ok(resp), failures + 1, sleeps;
    }
  }

  /** `[Backoff(from), ..., Backoff(to)]`. */
  function BackoffWaits(from: nat, to: nat): seq<int>
    decreases to + 1 - from
  {
    if from > to then [] else [TryAgain.Backoff(from)] + BackoffWaits(from + 1, to)
  }

  /** The first `n` responses are retryable and carry no `retry-after` header. */
  predicate PlainRetries(serve: nat -> Response, n: nat) {
    forall k :: 0 <= k < n ==> IsRetryable(serve(k).status) && serve(k).retryAfter.None?
  }

  /** The sleeps so far, one more backoff, then the rest of the waits. */
  lemma BackoffWaitsStep(sleeps: seq<int>, from: nat, to: nat)
    requires from <= to
    ensures sleeps + [TryAgain.Backoff(from)] + BackoffWaits(from + 1, to) == sleeps + BackoffWaits(from, to)
  {
    assert BackoffWaits(from, to) == [TryAgain.Backoff(from)] + BackoffWaits(from + 1, to);
    assert sleeps + [TryAgain.Backoff(from)] + BackoffWaits(from + 1, to)
        == sleeps + ([TryAgain.Backoff(from)] + BackoffWaits(from + 1, to));
  }

  /** A retryable response without a hint, short of the limit: sleep `backoff(f + 1)`, go on. */
  lemma PlainRetryStep(serve: nat -> Response, clock: nat -> Readings, f: nat, sleeps: seq<int>)
    requires f < MaxRetry && IsRetryable(serve(f).status) && serve(f).retryAfter.None?
    ensures Run(serve, clock, f, sleeps) == Run(serve, clock, f + 1, sleeps + [TryAgain.Backoff(f + 1)])
  {
    BackoffUnderADay(f + 1);
    assert Wait(serve(f), f + 1, clock(f + 1)) == Ok(TryAgain.Backoff(f + 1));
  }

  /** No backoff the executor reaches lasts a day, so `.seconds` keeps all of it. */
  lemma BackoffUnderADay(f: nat)
    requires f <= MaxRetry
    ensures TryAgain.Backoff(f) < SecondsPerDay
  {
    if f < MaxRetry {
      TryAgain.BackoffStrictlyIncreasing(f, MaxRetry);
    }
    assert TryAgain.Backoff(MaxRetry) == 1024;
  }

  /**
   * Without `retry-after` headers the wait after the k-th retryable
   * failure is `backoff(k)`; a 200 after `n` of them is returned.
   */
  lemma {:induction false} WaitsAreBackoff(serve: nat -> Response, clock: nat -> Readings, n: nat)
    requires n <= MaxRetry && PlainRetries(serve, n) && serve(n).status == 200
    ensures Run(serve, clock, 0, []) == Trace(Ok(serve(n)), n + 1, BackoffWaits(1, n))
  {
    RunPlainFrom(serve, clock, 0, n, []);
    NothingBefore(BackoffWaits(1, n));
  }

  lemma {:induction false} RunPlainFrom(serve: nat -> Response, clock: nat -> Readings, f: nat, n: nat, sleeps: seq<int>)
    requires f <= n <= MaxRetry && PlainRetries(serve, n) && serve(n).status == 200
    ensures Run(serve, clock, f, sleeps) == Trace(Ok(serve(n)), n + 1, sleeps + BackoffWaits(f + 1, n))
    decreases n - f
  {
    if f < n {
      PlainRetryStep(serve, clock, f, sleeps);
      RunPlainFrom(serve, clock, f + 1, n, sleeps + [TryAgain.Backoff(f + 1)]);
      BackoffWaitsStep(sleeps, f + 1, n);
    } else {
      assert sleeps + BackoffWaits(f + 1, n) == sleeps;
    }
  }

  lemma NothingBefore(xs: seq<int>)
    ensures [] + xs == xs
  {
  }

  /** Statuses 503, 503, 200: sleeps of `backoff(1)` and `backoff(2)`, then the 200 response. */
  lemma TwoServiceUnavailableThenOk(clock: nat -> Readings, ok: Response)
    requires ok.status == 200
    ensures var serve := (k: nat) => if k < 2 then Response(503, None, None) else ok;
      Run(serve, clock, 0, []) == Trace(Ok(ok), 3, [TryAgain.Backoff(1), TryAgain.Backoff(2)])
  {
    var serve := (k: nat) => if k < 2 then Response(503, None, None) else ok;
    WaitsAreBackoff(serve, clock, 2);
  }

  /** Eleven retryable responses in a row: a timeout after exactly eleven requests. */
  lemma {:induction false} ElevenFailuresTimeOut(serve: nat -> Response, clock: nat -> Readings)
    requires PlainRetries(serve, MaxRetry + 1)
    ensures Run(serve, clock, 0, []) == Trace(Err(TimeoutError(MaxRetry + 1)), MaxRetry + 1, BackoffWaits(1, MaxRetry))
  {
    ExhaustFrom(serve, clock, 0, []);
    NothingBefore(BackoffWaits(1, MaxRetry));
  }

  lemma {:induction false} ExhaustFrom(serve: nat -> Response, clock: nat -> Readings, f: nat, sleeps: seq<int>)
    requires f <= MaxRetry && PlainRetries(serve, MaxRetry + 1)
    ensures Run(serve, clock, f, sleeps)
         == Trace(Err(TimeoutError(MaxRetry + 1)), MaxRetry + 1, sleeps + BackoffWaits(f + 1, MaxRetry))
    decreases MaxRetry - f
  {
    if f < MaxRetry {
      PlainRetryStep(serve, clock, f, sleeps);
      ExhaustFrom(serve, clock, f + 1, sleeps + [TryAgain.Backoff(f + 1)]);
      BackoffWaitsStep(sleeps, f + 1, MaxRetry);
    } else {
      assert sleeps + BackoffWaits(f + 1, MaxRetry) == sleeps;
    }
  }

  /** Any other non-200 status fails on the first request, with no retry and no sleep. */
  lemma NonRetryableFailsAtOnce(serve: nat -> Response, clock: nat -> Readings)
    requires !IsRetryable(serve(0).status) && serve(0).status != 200
    ensures var t := Run(serve, clock, 0, []);
      && t.requests == 1 && t.sleeps == []
      && t.outcome.Err?
      && (ExtractMessages(serve(0).body).Ok? ==> t.outcome.error == ValueError(BadStatus(serve(0).status)))
  {
  }

  /** A `retry-after` value that parses to nothing ends the call with a `TypeError`. */
  lemma UnparsedHintFails(serve: nat -> Response, clock: nat -> Readings, hint: string)
    requires IsRetryable(serve(0).status) && serve(0).retryAfter == Some(hint)
    requires TryAgain.ParseRetryAfter(hint, 1, clock(1).inParse) == Ok(None)
    ensures Run(serve, clock, 0, []) == Trace(Err(TypeError), 1, [])
  {
  }

  /**
   * A delta-seconds hint of `n`: the whole seconds from the second reading
   * to the deadline, within their day, are slept. A hint longer than
   * `int()`'s digit cap raises `ValueError`, and a deadline past
   * `datetime.max` raises `OverflowError`; either ends the call.
   */
  lemma {:induction false} DelayHintSleeps(serve: nat -> Response, clock: nat -> Readings, n: nat)
    requires IsRetryable(serve(0).status) && serve(0).retryAfter == Some(NatToString(n))
    ensures var r := clock(1);
      && (!Overflows(r.inParse, n) ==>
            Run(serve, clock, 0, []) == Run(serve, clock, 1, [DurationSeconds(r.inParse + n * MicrosPerSecond - r.afterParse)]))
      && (Overflows(r.inParse, n) && |NatToString(n)| <= IntMaxStrDigits ==>
            Run(serve, clock, 0, []) == Trace(Err(OverflowError), 1, []))
      && (|NatToString(n)| > IntMaxStrDigits ==> Run(serve, clock, 0, []) == Trace(Err(ValueError(DigitLimit)), 1, []))
  {
    if Overflows(clock(1).inParse, n) {
      DelayHintRaises(serve, clock, n);
    } else {
      TryAgain.NoOverflowWithinDigitCap(clock(1).inParse, n);
      DelayHintWaits(serve, clock, n);
    }
  }

  lemma DelayHintRaises(serve: nat -> Response, clock: nat -> Readings, n: nat)
    requires IsRetryable(serve(0).status) && serve(0).retryAfter == Some(NatToString(n))
    requires Overflows(clock(1).inParse, n)
    ensures Run(serve, clock, 0, [])
         == Trace(Err(if |NatToString(n)| > IntMaxStrDigits then ValueError(DigitLimit) else OverflowError), 1, [])
  {
    DelayHintWait(serve(0), 1, clock(1), n);
    WaitFails(serve, clock, 0, []);
  }

  lemma DelayHintWaits(serve: nat -> Response, clock: nat -> Readings, n: nat)
    requires IsRetryable(serve(0).status) && serve(0).retryAfter == Some(NatToString(n))
    requires !Overflows(clock(1).inParse, n)
    ensures var r := clock(1);
      Run(serve, clock, 0, []) == Run(serve, clock, 1, [DurationSeconds(r.inParse + n * MicrosPerSecond - r.afterParse)])
  {
    TryAgain.NoOverflowWithinDigitCap(clock(1).inParse, n);
    var w := DurationSeconds(clock(1).inParse + n * MicrosPerSecond - clock(1).afterParse);
    DelayHintWait(serve(0), 1, clock(1), n);
    FirstWait(serve, clock, w);
  }

  /** A first retryable failure whose wait is worked out as `w`: the executor sleeps `w` and goes on. */
  lemma FirstWait(serve: nat -> Response, clock: nat -> Readings, w: int)
    requires IsRetryable(serve(0).status) && Wait(serve(0), 1, clock(1)) == Ok(w)
    ensures Run(serve, clock, 0, []) == Run(serve, clock, 1, [w])
  {
    WaitStep(serve, clock, 0, []);
    NothingBefore([w]);
  }

  /**
   * The wait for a hint of `n` seconds: its duration from the second
   * reading, or the digit cap's `ValueError`, or the overflow.
   */
  lemma DelayHintWait(resp: Response, failures: nat, r: Readings, n: nat)
    requires resp.retryAfter == Some(NatToString(n))
    ensures Wait(resp, failures, r)
         == if |NatToString(n)| > IntMaxStrDigits then Err(ValueError(DigitLimit))
            else if Overflows(r.inParse, n) then Err(OverflowError)
            else Ok(DurationSeconds(r.inParse + n * MicrosPerSecond - r.afterParse))
  {
    TryAgain.DelaySecondsHint(n, failures, r.inParse);
  }

  /** Division by a second has one answer. */
  lemma WholeSecondsOf(us: int, q: int)
    requires q * MicrosPerSecond <= us < (q + 1) * MicrosPerSecond
    ensures us / MicrosPerSecond == q
  {
    assert MicrosPerSecond == 1000000;
  }

  /** Read at the same instant twice, the hint is slept as `n` seconds, within their day. */
  lemma SameInstantHintSleeps(serve: nat -> Response, clock: nat -> Readings, n: nat)
    requires IsRetryable(serve(0).status) && serve(0).retryAfter == Some(NatToString(n))
    requires clock(1).afterParse == clock(1).inParse && !Overflows(clock(1).inParse, n)
    ensures Run(serve, clock, 0, []) == Run(serve, clock, 1, [SecondsField(n)])
    ensures n < SecondsPerDay ==> Run(serve, clock, 0, []) == Run(serve, clock, 1, [n])
  {
    DelayHintSleeps(serve, clock, n);
    var r := clock(1);
    var us := r.inParse + n * MicrosPerSecond - r.afterParse;
    assert us == n * MicrosPerSecond;
    WholeSecondsOf(us, n);
  }

  /**
   * When the clock has moved on by less than a second between the two
   * readings, the hint is slept as `n - 1` seconds within their day: a hint
   * of 0 sleeps 86399 seconds.
   */
  lemma MovedOnHintSleeps(serve: nat -> Response, clock: nat -> Readings, n: nat)
    requires IsRetryable(serve(0).status) && serve(0).retryAfter == Some(NatToString(n))
    requires clock(1).inParse < clock(1).afterParse < clock(1).inParse + MicrosPerSecond
    requires !Overflows(clock(1).inParse, n)
    ensures Run(serve, clock, 0, []) == Run(serve, clock, 1, [SecondsField(n - 1)])
  {
    var r := clock(1);
    TryAgain.NoOverflowWithinDigitCap(r.inParse, n);
    DelayHintWait(serve(0), 1, r, n);
    SecondEarlier(r.inParse, r.afterParse, n);
    assert Wait(serve(0), 1, r) == Ok(SecondsField(n - 1));
    WaitStep(serve, clock, 0, []);
    NothingBefore([SecondsField(n - 1)]);
  }

  /** A second reading up to a second later takes one whole second off a delay of `n`. */
  lemma SecondEarlier(before: int, after: int, n: int)
    requires before < after < before + MicrosPerSecond
    ensures DurationSeconds(before + n * MicrosPerSecond - after) == SecondsField(n - 1)
  {
    assert MicrosPerSecond == 1000000;
    WholeSecondsOf(before + n * MicrosPerSecond - after, n - 1);
  }

  /**
   * `Retry-After: 0`, with the clock moved on between the readings: the
   * executor sleeps 86399 seconds, almost a day, before it retries.
   */
  lemma ZeroHintSleepsAlmostADay(serve: nat -> Response, clock: nat -> Readings)
    requires IsRetryable(serve(0).status) && serve(0).retryAfter == Some("0")
    requires clock(1).inParse < clock(1).afterParse < clock(1).inParse + MicrosPerSecond
    requires IsInstant(clock(1).inParse)
    ensures Run(serve, clock, 0, []) == Run(serve, clock, 1, [SecondsPerDay - 1])
  {
    assert NatToString(0) == "0";
    assert !Overflows(clock(1).inParse, 0);
    MovedOnHintSleeps(serve, clock, 0);
    assert SecondsField(0 - 1) == SecondsPerDay - 1;
  }

  /**
   * A hint of exactly one day sleeps nothing when both readings are the
   * same instant, and 86399 seconds when the clock has moved on.
   */
  lemma DayLongHint(serve: nat -> Response, clock: nat -> Readings)
    requires IsRetryable(serve(0).status) && serve(0).retryAfter == Some("86400")
    requires clock(1).inParse <= clock(1).afterParse < clock(1).inParse + MicrosPerSecond
    requires IsInstant(clock(1).inParse) && clock(1).inParse + SecondsPerDay * MicrosPerSecond <= MaxInstant
    ensures clock(1).afterParse == clock(1).inParse ==> Run(serve, clock, 0, []) == Run(serve, clock, 1, [0])
    ensures clock(1).afterParse > clock(1).inParse ==> Run(serve, clock, 0, []) == Run(serve, clock, 1, [SecondsPerDay - 1])
  {
    assert NatToString(86400) == "86400";
    if clock(1).afterParse == clock(1).inParse {
      SameInstantHintSleeps(serve, clock, 86400);
    } else {
      MovedOnHintSleeps(serve, clock, 86400);
    }
  }

  predicate AllUnderADay(sleeps: seq<int>) {
    forall k :: 0 <= k < |sleeps| ==> 0 <= sleeps[k] < SecondsPerDay
  }

  lemma AppendUnderADay(sleeps: seq<int>, w: int)
    requires AllUnderADay(sleeps) && 0 <= w < SecondsPerDay
    ensures AllUnderADay(sleeps + [w])
  {
  }

  /** Every sleep the executor performs is under a day and never negative. */
  lemma {:induction false} SleepsUnderADay(serve: nat -> Response, clock: nat -> Readings, f: nat, sleeps: seq<int>)
    requires f <= MaxRetry && AllUnderADay(sleeps)
    ensures AllUnderADay(Run(serve, clock, f, sleeps).sleeps)
    decreases MaxRetry - f
  {
    if IsRetryable(serve(f).status) && f < MaxRetry && Wait(serve(f), f + 1, clock(f + 1)).Ok? {
      var w := Wait(serve(f), f + 1, clock(f + 1)).value;
      WaitStep(serve, clock, f, sleeps);
      AppendUnderADay(sleeps, w);
      SleepsUnderADay(serve, clock, f + 1, sleeps + [w]);
    } else {
      NoWaitKeepsSleeps(serve, clock, f, sleeps);
    }
  }

  /** A response that is not waited on ends the call with the sleeps as they were. */
  lemma NoWaitKeepsSleeps(serve: nat -> Response, clock: nat -> Readings, f: nat, sleeps: seq<int>)
    requires f <= MaxRetry
    requires !(IsRetryable(serve(f).status) && f < MaxRetry && Wait(serve(f), f + 1, clock(f + 1)).Ok?)
    ensures Run(serve, clock, f, sleeps).sleeps == sleeps
  {
  }

  /** A retryable response whose wait raises: the call ends with that exception. */
  lemma WaitFails(serve: nat -> Response, clock: nat -> Readings, f: nat, sleeps: seq<int>)
    requires f < MaxRetry && IsRetryable(serve(f).status) && Wait(serve(f), f + 1, clock(f + 1)).Err?
    ensures Run(serve, clock, f, sleeps) == Trace(Err(Wait(serve(f), f + 1, clock(f + 1)).error), f + 1, sleeps)
  {
  }

  /** A retryable response whose wait is worked out: that sleep, and the next request. */
  lemma WaitStep(serve: nat -> Response, clock: nat -> Readings, f: nat, sleeps: seq<int>)
    requires f < MaxRetry && IsRetryable(serve(f).status) && Wait(serve(f), f + 1, clock(f + 1)).Ok?
    ensures var w := Wait(serve(f), f + 1, clock(f + 1)).value;
      && 0 <= w < SecondsPerDay
      && Run(serve, clock, f, sleeps) == Run(serve, clock, f + 1, sleeps + [w])
  {
  }

  /**
   * A parsed deadline less than a day after the second reading is slept as
   * the whole seconds left until it, rounded down.
   */
  lemma HintedWaitUnderADay(resp: Response, failures: nat, r: Readings, deadline: int)
    requires resp.retryAfter.Some?
    requires TryAgain.ParseRetryAfter(resp.retryAfter.value, failures, r.inParse) == Ok(Some(deadline))
    requires r.afterParse <= deadline < r.afterParse + SecondsPerDay * MicrosPerSecond
    ensures Wait(resp, failures, r).Ok?
    ensures var s := Wait(resp, failures, r).value;
      s * MicrosPerSecond <= deadline - r.afterParse < (s + 1) * MicrosPerSecond
  {
  }

  /**
   * A deadline that has passed by at most a second when the second reading
   * is taken is slept as 86399 seconds: `.seconds` of a small negative
   * duration.
   */
  lemma PassedDeadlineSleepsAlmostADay(resp: Response, failures: nat, r: Readings, deadline: int)
    requires resp.retryAfter.Some?
    requires TryAgain.ParseRetryAfter(resp.retryAfter.value, failures, r.inParse) == Ok(Some(deadline))
    requires deadline < r.afterParse <= deadline + MicrosPerSecond
    ensures Wait(resp, failures, r) == Ok(SecondsPerDay - 1)
  {
    WholeSecondsOf(deadline - r.afterParse, -1);
  }

  /**
   * What the wait evidently means: the whole seconds up to the deadline,
   * rounded up, and nothing once it has passed.
   */
  function IntendedWait(deadline: int, now: int): (s: nat)
    ensures deadline <= now ==> s == 0
    ensures now + s * MicrosPerSecond >= deadline
    ensures deadline > now ==> now + (s - 1) * MicrosPerSecond < deadline
  {
    if deadline <= now then 0 else (deadline - now + MicrosPerSecond - 1) / MicrosPerSecond
  }

  /**
   * The intended wait agrees with the source's whenever the deadline lies
   * whole seconds after the second reading, less than a day ahead.
   */
  lemma IntendedWaitAgrees(resp: Response, failures: nat, r: Readings, deadline: int)
    requires resp.retryAfter.Some?
    requires TryAgain.ParseRetryAfter(resp.retryAfter.value, failures, r.inParse) == Ok(Some(deadline))
    requires (deadline - r.afterParse) % MicrosPerSecond == 0
    requires r.afterParse <= deadline < r.afterParse + SecondsPerDay * MicrosPerSecond
    ensures Wait(resp, failures, r) == Ok(IntendedWait(deadline, r.afterParse))
  {
    var d := deadline - r.afterParse;
    WholeSecondsOf(d, d / MicrosPerSecond);
    WholeSecondsOf(d + MicrosPerSecond - 1, d / MicrosPerSecond);
  }

  /** A plain JSON object with a string `message`: that message is printed, nothing escapes. */
  lemma ObjectMessagePrinted(fields: map<string, Json>, text: string)
    requires "message" in fields && fields["message"] == JStr(text)
    ensures ExtractMessages(Some(JObj(fields))) == Ok([Strip(text)])
  {
  }

  /** A batch-wrapped error `[{"error": {"message": ...}}]` has its message printed. */
  lemma BatchMessagePrinted(text: string)
    ensures ExtractMessages(Some(JArr([JObj(map["error" := JObj(map["message" := JStr(text)])])])))
         == Ok([Strip(text)])
  {
    var inner := JObj(map["message" := JStr(text)]);
    var first := JObj(map["error" := inner]);
    var js := JArr([first]);
    assert JStr("message") !in js.items;
    assert TopLevelMessage(js) == Ok([]);
    assert Subscript(js, Position(0)) == Ok(first);
    assert Subscript(first, Name("error")) == Ok(inner);
    assert Contains(inner, "message") == Ok(true);
    assert BatchMessage(js) == Ok([Strip(text)]);
    assert [] + [Strip(text)] == [Strip(text)];
  }

  /** A body that is not JSON is ignored: the status error is raised. */
  lemma NotJsonIgnored()
    ensures ExtractMessages(None) == Ok([])
  {
  }

  /** An empty JSON array escapes with an `IndexError` instead of the status error. */
  lemma EmptyArrayEscapes()
    ensures ExtractMessages(Some(JArr([]))) == Err(IndexError)
  {
  }
}
