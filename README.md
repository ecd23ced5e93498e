# cohost-randombot, modelled in Dafny

A model of the core of cohost-randombot: a bot that reshares a random
post from the cohost service, and a handler that reads the asks sent to
the bot for operator instructions. The model covers:

- **TryAgain** (`tryagain.py`): the exponential backoff and the
  `Retry-After` parser. A hint is either delta-seconds or an IMF-fixdate
  (section 7.1.3 of RFC 7231). The parser also uses the `_month` table and
  `datetime.strptime`. **Calendar** supplies the dates: which tuples
  `datetime` accepts, and a point in time as whole seconds.
- **Executor** (`_try_with_backoff` in `cohost.py`): one request, retried
  while the service answers 418 or 5xx, giving up after `MAX_RETRY`. A
  non-200 answer has its error messages extracted before the `ValueError`.
- **Posts** (`cohost.py`): the post records, `typeof`, and the share-lineage
  collapse `find_the_original_content`.
- **Author** (`cohost.py`): `get_author_classic`, and the fallback at the
  top of `try_post`.
- **TagSampler** (`_tag_analyze` in `cohost.py`): counts the projects that
  post to a tag, page by page. The `functools.cache` memo table in front of
  it is a class.
- **Randomizer** (`randomizer.py`): `effective_tags`, and the candidate
  search of `main`. The search draws ids, screens each post in the
  source's order of checks, judges the tags, and counts the attempts.
- **Manager** (`manager.py`): `parse`, which finds the fenced block, reads
  its instructions line by line and rejects the ask. Also `op_delete` and
  its authorisation test over `BOT_OP`.
- **Text**: the Python string behaviour the code relies on: `\d+` and
  `int()`, `str(n)`, `split("/")[-1]`, `strip()` and `splitlines()`.
- **Errors** and **Wrappers**: the exceptions, and `Option`/`Result`.

What lies outside the program is a parameter:

- the HTTP transport is a function from the attempt number to the response;
- the clock is a function from the failure count to its two readings of
  the current time, in microseconds;
- the random draws are a function from the draw number to an id;
- the post lookup, the tag analysis, a page fetch, and `post_info`/`delete`
  are functions that may raise.

Side effects are recorded rather than performed:

- the sleeps are a list of seconds;
- the calls `parse` makes are a list of `DeleteCall`/`RejectCall` effects.

The loops the source runs imperatively are methods proved against a
recursive reference function:

- `Executor.TryWithBackoff` against `Run`;
- `TagSampler.TagAnalyze` against `Sample`;
- `Posts.FindTheOriginalContent` against `CollapseAsWritten`;
- `Randomizer.CheckTags`, `TryCandidate` and `SelectCandidate` against
  `FirstPassing`, `Attempt` and `Select`;
- `Manager.RunInstructions` and `Parse` against `RunLines` and `ParseAsk`.

The properties are proved as lemmas about those functions.

## Model

| member | source | states |
|---|---|---|
| TryAgain.Backoff | tryagain.py:19-27 | the wait `2 ** failures + 0` is always longer than the minimum |
| TryAgain.BackoffDoubles | tryagain.py:20-27 | each further failure doubles the wait above the minimum |
| TryAgain.BackoffStrictlyIncreasing | tryagain.py:23-27 | more failures give strictly longer waits |
| TryAgain.MonthTableKeys | tryagain.py:5-18 | `_month` has exactly the twelve month names of the date pattern as keys |
| TryAgain.MonthNumberOf | tryagain.py:41-44 | the i-th month name reads back through `_month` and `%m` as month i + 1 |
| TryAgain.DropFinalNewline | tryagain.py:32-39 | `$` also matches before one final newline: a text ending in `\n` loses exactly that character, any other text is kept whole |
| TryAgain.ParseRetryAfter | tryagain.py:30-51 | a deadline returned is never before now and never past `datetime.max`; the only exceptions are `ValueError` for an impossible date or a delay past `int()`'s 4300-digit cap, and `OverflowError` |
| TryAgain.MatchFormatted | tryagain.py:36-44 | matching a formatted IMF-fixdate gives back exactly its fields; the weekday name is not used |
| TryAgain.HintIsDate | tryagain.py:32-40 | a formatted date is not all digits, so it takes the date branch, and it matches in full |
| TryAgain.DelaySecondsHint | tryagain.py:49-51 | the hint `str(n)` gives now + n seconds whatever the failure count; `ValueError` when `str(n)` has more than 4300 digits, else `OverflowError` when the deadline passes `datetime.max` or n passes `timedelta.max` |
| TryAgain.DelaySecondsHintPadded | tryagain.py:32-51 | leading zeros and one trailing newline are accepted; the result is that of `int(digits)` seconds, and `ValueError` when the digits, zeros included, number more than 4300 |
| TryAgain.DigitBranch | tryagain.py:30-50 | a hint whose text before one final newline is all digits takes the delay branch: `ValueError` past the digit cap, else the overflow or now plus that many seconds |
| TryAgain.ZerosPastDigitCap | tryagain.py:49-50 | a hint of 4301 zeros raises `ValueError` in `int()`, though its value is 0 |
| TryAgain.NoOverflowWithinDigitCap | tryagain.py:50 | a delay `timedelta` can hold and now can be moved by has far fewer than 4300 digits, so `int()` never refuses it |
| TryAgain.CenturiesOfDelayOverflow | tryagain.py:50-51 | a delay between 300000000000 seconds and `timedelta.max`, read in 2026 or later, raises `OverflowError` instead of giving a deadline |
| TryAgain.PastDateHint | tryagain.py:44-46 | a valid date before now gives now + `backoff(failures)`, or `OverflowError` past `datetime.max` |
| TryAgain.FutureDateHint | tryagain.py:44-48 | a valid date not before now, equal included, gives that date plus one second; the last second of year 9999 raises `OverflowError` |
| TryAgain.OneSecondPastOverflows | tryagain.py:48 | one second after a valid date overflows exactly when the date is 9999-12-31 23:59:59 |
| TryAgain.LastSecondOverflows | tryagain.py:45-48 | `Fri, 31 Dec 9999 23:59:59 GMT`, read before it has passed, raises `OverflowError` |
| TryAgain.ImpossibleDateHint | tryagain.py:41-44 | a date the pattern accepts but the calendar does not (31 Feb, hour 24) raises `ValueError` |
| TryAgain.WeekdayIgnored | tryagain.py:36-48 | two hints that differ only in the weekday name give the same result |
| TryAgain.UnparsedHints | tryagain.py:33-40 | a hint of neither form returns `None`: the empty hint, and the RFC 850 and asctime dates |
| Calendar.TimestampOrder | tryagain.py:44-45 | on valid datetimes, comparing seconds since 0001-01-01 is Python's `<` on datetimes, in both directions |
| Calendar.TimestampInjective | tryagain.py:44 | different valid datetimes are different points in time |
| Calendar.AddSeconds | tryagain.py:46-51 | `t + timedelta(seconds=n)` is exactly n seconds later and within `datetime`'s range; `OverflowError` exactly when the `timedelta` or the sum leaves its range |
| Calendar.NotAfterLastSecond | tryagain.py:36-44 | no valid datetime with a four-digit year comes after 9999-12-31 23:59:59, and only that one is equal to it |
| Executor.SecondsField | cohost.py:163 | `.seconds` of a whole-second duration: under a day, the duration itself when it is already under a day, and otherwise off by whole days |
| Executor.DurationSeconds | cohost.py:158-163 | `.seconds` of a duration in microseconds: under a day, and the whole seconds rounded down when the duration is under a day |
| Executor.Wait | cohost.py:156-163 | the sleep after a retryable failure is between 0 and 86399 seconds; working it out raises only `TypeError` (a hint parsed to `None`), `ValueError` for an impossible date or a delay past the digit cap, or `OverflowError` |
| Executor.Run | cohost.py:146-178 | 1 to 11 requests; one sleep per retried failure; an `Ok` response has status 200; `TimeoutError` only after 11 requests |
| Executor.TryWithBackoff | cohost.py:146-178 | the loop's result, request count and sleeps are `Run`'s; 1 to 11 requests, one sleep fewer than requests, and an `Ok` response has status 200 |
| Executor.ExtractMessages | cohost.py:165-175 | the message extraction lets no `ValueError` or `KeyError` escape |
| Executor.ObjectMessagePrinted | cohost.py:166-169 | a JSON object with a string `message` prints that message stripped, and nothing escapes |
| Executor.BatchMessagePrinted | cohost.py:170-171 | `[{"error": {"message": m}}]` prints `m` stripped |
| Executor.NotJsonIgnored | cohost.py:166-173 | a body that is not JSON prints nothing and lets the status error be raised |
| Executor.EmptyArrayEscapes | cohost.py:170 | an empty JSON array raises `IndexError`, which escapes in place of the status error |
| Executor.PlainRetryStep | cohost.py:150-164 | a retryable response without `retry-after`, short of the limit, sleeps `backoff(failures)` and retries |
| Executor.BackoffUnderADay | cohost.py:153-163 | no backoff the loop reaches lasts a day, so `.seconds` keeps all of it |
| Executor.WaitsAreBackoff | cohost.py:150-164 | after n plain retryable failures and then a 200, that response comes back after n + 1 requests with sleeps `backoff(1)`, ..., `backoff(n)` |
| Executor.RunPlainFrom | cohost.py:147-178 | the same, from any failure count |
| Executor.TwoServiceUnavailableThenOk | cohost.py:150-164 | statuses 503, 503, 200 give three requests and the sleeps `backoff(1)` and `backoff(2)` |
| Executor.ElevenFailuresTimeOut | cohost.py:152-154 | eleven retryable responses raise `TimeoutError(11)` after exactly eleven requests and ten backoff sleeps |
| Executor.ExhaustFrom | cohost.py:150-164 | the same, from any failure count |
| Executor.NonRetryableFailsAtOnce | cohost.py:165-176 | any other non-200 status fails on the first request, with no sleep, with `ValueError` unless the extraction raised |
| Executor.UnparsedHintFails | cohost.py:156-158 | a `retry-after` that parses to `None` raises `TypeError` (`None - datetime`) before any sleep |
| Executor.WaitFails | cohost.py:156-158 | a wait that raises ends the call with that exception, with no further request or sleep |
| Executor.DelayHintWait | cohost.py:157-158 | the wait for the hint `str(n)` is the whole seconds from the second clock reading to the first reading plus n, within their day; or `ValueError` when `str(n)` has more than 4300 digits; or `OverflowError` |
| Executor.DelayHintSleeps | cohost.py:156-163 | after a first response with the hint `str(n)` the executor sleeps that wait and goes on, or ends with no sleep: `ValueError` past the digit cap, `OverflowError` for a deadline past `datetime.max` |
| Executor.DelayHintRaises | cohost.py:156-158 | a hint whose deadline would overflow ends the call after one request: `ValueError` when it is past the digit cap, `OverflowError` otherwise |
| Executor.SameInstantHintSleeps | cohost.py:156-163 | when both clock readings are the same instant, the hint n sleeps `n mod 86400`, exactly n under a day |
| Executor.MovedOnHintSleeps | cohost.py:156-163 | when the clock moves on by less than a second between the readings, the hint n sleeps `(n - 1) mod 86400` |
| Executor.ZeroHintSleepsAlmostADay | cohost.py:156-163 | `Retry-After: 0` with the clock moved on sleeps 86399 seconds before the retry |
| Executor.DayLongHint | cohost.py:156-163 | the hint `86400` sleeps 0 seconds when both readings agree and 86399 when the clock has moved on |
| Executor.HintedWaitUnderADay | cohost.py:158-163 | a deadline less than a day after the second reading is slept as the whole seconds up to it, rounded down |
| Executor.PassedDeadlineSleepsAlmostADay | cohost.py:158-163 | a deadline passed by at most a second at the second reading is slept as 86399 seconds |
| Executor.IntendedWait | cohost.py:158-163 | corrected wait: nothing once the deadline has passed, otherwise the whole seconds that reach the deadline and not one second more |
| Executor.IntendedWaitAgrees | cohost.py:158-163 | the corrected and the written wait agree when the deadline is whole seconds ahead of the second reading and less than a day away |
| Executor.WaitStep | cohost.py:150-164 | a wait that is worked out is under a day and not negative, and the loop goes on with it |
| Executor.NoWaitKeepsSleeps | cohost.py:150-178 | a response that is not waited on ends the call without another sleep |
| Executor.SleepsUnderADay | cohost.py:156-163 | every sleep the loop performs is between 0 and 86399 seconds |
| Posts.TypeOf | cohost.py:480-487 | "post" iff not a share; "reply" iff a share that is not transparent; "tags" or "share" for a transparent share with or without tags |
| Posts.LastOriginal | cohost.py:453-457 | the index found is the last entry that is not a transparent share, and every later entry is one; `None` iff all are |
| Posts.SliceTo | cohost.py:458 | Python's `s[:stop]` is a prefix of `s` that holds position i exactly when i is below `stop`, a negative `stop` counting from the end |
| Posts.CollapseAsWritten | cohost.py:446-459 | a post that is not a transparent share comes back as it was; `IndexError` iff every share-tree entry is transparent; otherwise an original with the input's comments and a prefix of the tree as share tree |
| Posts.CollapseToOriginal | cohost.py:446-459 | corrected collapse: the same, and the post found is the tree entry just after its kept prefix, with that prefix as its share tree |
| Posts.FindTheOriginalContent | cohost.py:446-459 | the negative-index loop computes `CollapseAsWritten`, and raises `IndexError` when it runs off the front |
| Posts.NotTransparentUnchanged | cohost.py:446-449 | a post that is not a transparent share comes back unchanged |
| Posts.CollapseFindsLastOriginal | cohost.py:446-459 | for a transparent share: `IndexError` iff every entry is transparent; otherwise the result is the last original entry, with the input's comments |
| Posts.AsWrittenShareTree | cohost.py:458 | as written, a match at position -k with k >= 2 keeps `tree[:len - k + 1]`, a prefix that ends with the matched entry itself; a match at -1 keeps nothing (`tree[:0]`), dropping the entries before it |
| Posts.AsWrittenKeepsMatchInItsOwnTree | cohost.py:458 | tree `[A, B]` with B transparent: as written A's share tree is `[A]`; corrected it is `[]` |
| Posts.AsWrittenDropsEntriesBefore | cohost.py:458 | tree `[X, A]` with A an original: as written A's share tree is `[]`; corrected it is `[X]` |
| Posts.CorrectedShareTreeIsPrefix | cohost.py:451-458 | corrected: the entry found keeps exactly the entries before it as its share tree |
| Posts.CollapsesAgree | cohost.py:453-459 | both versions fail alike and pick the same post, with the same fields except the share tree, and the same comments |
| Posts.CollapsedKind | cohost.py:455-457 | what the collapse finds is an original post or a reply, never a transparent share |
| Posts.ThreeEntryExample | cohost.py:446-459 | tree `[A, B, C]` with B and C transparent collapses to A with share tree `[A]`, keeping the comments |
| Author.ProjectLinks | cohost.py:185-191 | the filter keeps exactly the project links that are not post listings; its first is the first such link in document order |
| Author.AuthorFromFirstProjectLink | cohost.py:185-193 | `IndexError` iff no link is a project link; otherwise the last path segment of the first one, with no `/` |
| Author.ProjectThenListing | cohost.py:185-193 | links `/api/v1/project/h` and `/api/v1/project/h/posts` give `h` |
| Author.ResolveAuthor | cohost.py:433-436 | the probe is used iff the classic lookup raised a `ValueError`, and then its result is the author |
| Author.NoProjectLinkNoFallback | cohost.py:192 | no project link raises `IndexError`, which is not caught: the probe is not tried |
| Author.BadStatusFallsBack | cohost.py:433-436 | a non-200, non-retryable answer to the classic fetch is a `ValueError`: the probe runs and gives the author |
| Author.OverflowNoFallback | cohost.py:433-436 | a `retry-after` deadline past `datetime.max` on the classic fetch raises `OverflowError`, so the probe is not tried; a hint past the 4300-digit cap raises `ValueError` instead, and the probe's result is the author |
| Author.TimeoutNoFallback | cohost.py:433-436 | exhausted retries raise `TimeoutError`, so the probe is not tried |
| TagSampler.CursorValues | cohost.py:262 | `parse_qs(...).get("refTimestamp")` holds no blank value and no more values than the query has pairs |
| TagSampler.CursorValuesExact | cohost.py:260-262 | the cursor values are exactly the non-blank `refTimestamp` values of the link's query, and empty iff there is none |
| TagSampler.CursorValuesOfConcat | cohost.py:262 | the values keep the query's order and repeats: those of two queries joined are the first's followed by the second's |
| TagSampler.NextCursor | cohost.py:255-262 | the cursor is kept when the page has no icon-bearing tag link; otherwise it becomes that link's `refTimestamp` values, `None` iff it has none |
| TagSampler.Handles | cohost.py:265-270 | one handle per header link, in order: the last path segment of its href, which holds no `/` |
| TagSampler.MembersOf | cohost.py:271 | `uniques.update(handles)` adds exactly the handles |
| TagSampler.Sample | cohost.py:239-275 | the requests sent start with those already sent, add at most one per page of budget left, and the next is the one the state asks for |
| TagSampler.BudgetSpent | cohost.py:275 | once `max_pages` pages are read the loop ends with the count "or more" |
| TagSampler.FetchFails | cohost.py:249 | a page that fails to load ends the analysis with its error |
| TagSampler.EmptyPage | cohost.py:272-273 | a page without handles ends the loop with the exact count |
| TagSampler.Turn | cohost.py:239-274 | a page with handles adds them, moves the offset by their number, repeats included, and updates the cursor |
| TagSampler.TagAnalyze | cohost.py:225-275 | the while loop returns `Sample`'s verdict and sends `Sample`'s requests |
| TagSampler.VerdictCounts | cohost.py:272-275 | a verdict's text is `str(len(uniques))`, followed by " or more" when the budget ran out, its digits read back as the count, and its flag says whether the count reaches the target |
| TagSampler.SampleCountsFrom | cohost.py:239-275 | from a state holding the handles of the full pages read so far, a verdict counts the distinct handles of every page read and says "or more" iff every page read was full, which takes the whole budget |
| TagSampler.SampleVerdict | cohost.py:239-275 | from the start, whatever the pages: a verdict counts the distinct handles on all pages read, and says "or more" iff `max_pages` pages were read and none was empty |
| TagSampler.TagAnalyzeCache.constructor | cohost.py:224 | the memo table starts empty |
| TagSampler.TagAnalyzeCache.Analyze | cohost.py:224-225 | a stored key answers from the table with no request; otherwise the analysis runs and only a result, not an error, is stored; every answer is a count verdict for its target |
| TagSampler.RepeatCallIsCached | cohost.py:224 | a second call with the same arguments sends nothing and repeats the first answer, even when the pages have changed |
| TagSampler.AtMostMaxPages | cohost.py:239 | at most `max_pages` pages are fetched, and none when it is not positive |
| TagSampler.AppendRequest | cohost.py:240-246 | sending the next request keeps the requests in order |
| TagSampler.RequestsInOrderFrom | cohost.py:238-274 | every request is for the same tag, and each `skipPosts` is larger than the one before |
| TagSampler.FirstRequestBare | cohost.py:240-246 | the first request carries neither `skipPosts` nor `refTimestamp`; every later one carries `skipPosts` |
| TagSampler.FetchErrorEscapes | cohost.py:249 | a failing first page ends the analysis with its error and no verdict |
| TagSampler.HandleOf | cohost.py:269 | the handle in `/name` is `name` |
| TagSampler.CountOfTwo | cohost.py:273-275 | two different handles count as "2" |
| TagSampler.FirstPageOfTwo | cohost.py:249-274 | the first page of `DuplicatesAdvanceOffset`: two handles, and the cursor 7 |
| TagSampler.DuplicatesAdvanceOffset | cohost.py:239-274 | pages `[a, b]`, `[a]`, `[]`: `skipPosts` 2 then 3, because repeats still move the offset; the cursor is kept; the count is an exact "2" |
| TagSampler.ThreeFullPages | cohost.py:239-274 | the states of `BudgetSpentSaysOrMore`, page by page |
| TagSampler.BudgetSpentSaysOrMore | cohost.py:239-275 | with the budget spent the verdict says "or more" even though the target was met; a blank cursor drops the cursor |
| Randomizer.EffectiveTags | randomizer.py:23-26 | one's own post: all its tags; otherwise exactly the tags both posts carry |
| Randomizer.HandleNeverBanned | randomizer.py:72 | the handle, a string, is never in the ban list of integer ids |
| Randomizer.FirstPassingNone | randomizer.py:100-110 | the tag loop finds nothing iff it passes over every tag: too long, or used by too few |
| Randomizer.FirstPassingStops | randomizer.py:101-109 | otherwise it stops at the first tag it does not pass over, with that tag's verdict or error |
| Randomizer.CheckTags | randomizer.py:100-109 | the `for tag in eft` loop with its `break` computes `FirstPassing` |
| Randomizer.Screen | randomizer.py:60-113 | an accepted post records its judged tags, and the tag it records is one of them, at most 50 long, analysed as used enough with the count recorded; a transparent share with no original raises `IndexError` |
| Randomizer.Attempt | randomizer.py:59-113 | a failing lookup raises its error; an accepted post's recorded tag and count are those of a passing analysis of one of its judged tags |
| Randomizer.PassingTag | randomizer.py:101-109 | the tag the loop accepts is in `eft`, at most 50 long, and analysed as used enough, with that count |
| Randomizer.JudgedTagIsEffective | randomizer.py:89-98 | a judged tag is an effective tag for a share, and one of the post's own tags otherwise |
| Randomizer.ScreenIgnoresBanList | randomizer.py:72-75 | the ban list never decides a screen |
| Randomizer.AcceptedCandidate | randomizer.py:61-114 | an accepted post adds content, is not adult, can be shared, has a display name without the robot and a handle without `-bot`, has tags, and its tag loop found a passing tag |
| Randomizer.NoTagPasses | randomizer.py:89-113 | a post or reply that passes every earlier check is skipped as "no tags used by others" iff it has tags to judge and every one of them is passed over |
| Randomizer.NoDisplayNameRaises | randomizer.py:80 | a project without a display name raises `TypeError` at the bot test |
| Randomizer.TransparentShareNotAdditive | randomizer.py:61-67 | a transparent share whose tree holds other ids is skipped as not additive when the tree holds an original, and raises `IndexError` in the collapse when every entry is transparent |
| Randomizer.TryCandidate | randomizer.py:59-114 | the body of the `try` for one id, with its `continue`s, computes `Attempt` |
| Randomizer.AttemptIgnoresBanList | randomizer.py:58-75 | an attempt's outcome does not depend on the ban list |
| Randomizer.Select | randomizer.py:50-116 | the draw count and ban list only grow, attempts only fall, the ids tried only get appended to, and a chosen id is in the ban list |
| Randomizer.SelectAccounting | randomizer.py:50-57 | only repeated draws cost attempts: attempts left plus repeats is constant, and the search runs out iff none is left |
| Randomizer.SelectTriesEachOnce | randomizer.py:54-58 | the ids tried are distinct, in range and in the ban list |
| Randomizer.SelectEnds | randomizer.py:50-116 | a chosen id is the last tried, its post is the one looked up, and the screen accepted it. A crash is either `randint` over an empty range before any draw, or a non-`ValueError` from the last id tried |
| Randomizer.SelectRejectsTheRest | randomizer.py:50-116 | every id tried before the last was rejected, and all were when the attempts ran out |
| Randomizer.ExhaustedRangeRunsOut | randomizer.py:51-57 | once the whole range is banned every draw repeats, and the search ends with nothing |
| Randomizer.SingleIdRange | randomizer.py:50-58 | a range of one rejected id: one lookup, then fifty repeated draws, then out of attempts |
| Randomizer.EmptyRangeCrashes | randomizer.py:54 | `randint(last, latest)` with `last > latest` raises before any post is looked up |
| Randomizer.SearchFromStart | randomizer.py:44-58 | from the start: at most 50 repeats, exactly 50 iff out of attempts, and each id is fetched once and drawn from the range |
| Randomizer.SelectCandidate | randomizer.py:44-116 | the `while 1` loop computes `Select` from `ban_list = set()` and `max_att = 50` |
| Manager.FirstClose | manager.py:47 | the lazy body ends at the first closing `\r?\n` fence from the body start, and no earlier position closes |
| Manager.Leftmost | manager.py:47 | `re.search` tries positions from the left: the first accepted one, and none before it |
| Manager.FindBlock | manager.py:47-48 | a block is found iff one matches at some position; it is the body of the leftmost match |
| Manager.FencedBlockFound | manager.py:47-50 | the opening fence, a newline, a body and a newline with the closing fence give the body back when no closing fence starts inside it |
| Manager.MatchInstruction | manager.py:52-57 | a line matches iff one of the three operation words matches it stripped, and the instruction is that word's reading |
| Manager.MatchedLine | manager.py:52-57 | a matched line is, stripped, the operation word, one space and the target's digits, which are the target group's text |
| Manager.InstructionRoundTrip | manager.py:52-61 | an operation word, a space and `str(n)` match as that instruction with target text `str(n)`, which `int()` turns back into n within the digit cap |
| Manager.OpDelete | manager.py:19-42 | at most one call, always the delete of the target; with no call, an exception is an empty share tree's `IndexError` or the lookup's own |
| Manager.OpDeleteAuthorisation | manager.py:19-42 | `delete` is called iff the post exists with a share tree and the requester is its immediate author, its root author or in `BOT_OP`, and then only for the target. A missing post is no error; an empty share tree raises `IndexError`; lookup and delete errors propagate |
| Manager.RunLines | manager.py:51-67 | the loop only appends calls, and only deletions; an exception that ends it is neither `ValueError` nor `KeyError` |
| Manager.ParseAsk | manager.py:45-69 | no block: no call; an escaping exception: deletions only; otherwise deletions and then the reject of this ask as the last call |
| Manager.RunLinesSkip | manager.py:55-56 | a line matching no instruction is skipped |
| Manager.RunLinesGoOn | manager.py:58-67 | an instruction that raises nothing, `ValueError` or `KeyError` lets the loop go on with its calls |
| Manager.RunLinesStop | manager.py:58-67 | any other exception ends the loop with the calls made so far |
| Manager.RunInstructions | manager.py:51-67 | the `for` loop computes `RunLines` |
| Manager.Parse | manager.py:45-69 | `parse` computes `ParseAsk` |
| Manager.DispatchDeletes | manager.py:58-65 | one instruction calls `delete` iff it is a `delete` whose target has at most 4300 digits and the requester is permitted on `int(target)`, and then only for that post |
| Manager.DeleteTargetPastDigitCap | manager.py:58-65 | a `delete` target of more than 4300 digits raises `ValueError` in `int()`, which the `try` swallows; no call is made |
| Manager.RunLinesDeletes | manager.py:51-67 | without an escaping exception, the loop makes exactly the permitted deletions of the `delete` lines whose targets `int()` accepts, in line order |
| Manager.RunLinesSafe | manager.py:51-67 | every call is a permitted deletion that a `delete` line names, and an escaping exception is neither `ValueError` nor `KeyError` |
| Manager.ParseWithoutBlock | manager.py:47-49 | without a fenced block no call is made and the ask is not rejected |
| Manager.ParseWithBlock | manager.py:45-69 | with a block and no escaping exception, the permitted deletions of the `delete` lines within the digit cap, in line order, then one reject of this ask |
| Manager.ParseWithBlockSafe | manager.py:45-69 | with a block, every deletion is sanctioned by a line; on an escaping exception it is neither `ValueError` nor `KeyError`, and the ask is not rejected |
| Text.NatToString | cohost.py:273 | `str(n)` is all digits, with a leading zero only for 0 itself |
| Text.DigitsValueOfNatToString | manager.py:61 | `int(str(n)) == n` |
| Text.IntOf | tryagain.py:50 | `int()` of a numeral is its value when it has at most 4300 digits, leading zeros counted, and a `ValueError` otherwise |
| Text.IntOfNatToString | manager.py:61 | `int(str(n))` is n while `str(n)` is within the digit cap, and a `ValueError` beyond it |
| Text.NatToStringLength | cohost.py:273 | `str(n)` has at most k digits iff n < 10^k, so the digit cap is n < 10^4300 |
| Text.LastSegment | cohost.py:192 | `split("/")[-1]`: the text after the last separator, which holds no separator |
| Text.LastSegmentAfterSeparator | cohost.py:192 | the segment after the last separator is exactly what follows it |
| Text.Strip | manager.py:53 | `strip()` is the slice of the text after its leading white space, followed only by white space, and neither starting nor ending with white space |
| Text.StripEmpty | manager.py:53 | `strip()` gives the empty string iff the text is all white space |
| Text.StripUnpadded | manager.py:53 | text without white space at either end is left alone by `strip()` |
| Text.SplitLinesOfJoined | manager.py:50 | lines joined with newlines split back into the same lines |

## Left out

- The HTTP transport, cookies and headers. Responses come from a scripted
  function of the attempt number. A listing page is given by its icon-link
  query and its handle hrefs; BeautifulSoup, `urlparse`, `parse_qs`,
  `urlencode` and `quote` are not part of this model.
- `time.sleep` is recorded, not performed. `datetime.now()` is a
  parameter: two readings, in microseconds, per retryable failure with a
  `retry-after` header, one inside `parse_retry_after` and one when the
  deadline is compared with now.
- TryAgain.ParseRetryAfter: reads now once. For a date already past, the
  source reads the clock twice inside `parse_retry_after` (for the
  comparison and for the sum); the model uses one reading for both.
- `get_author_hacky` creates, polls and deletes a remote post. It is given
  by its result.
- `create_share`, `switch`, `switchn`, `enable_shares`, `enable_comments`,
  `next_id`, `am_login` and `chain` are thin RPC wrappers and printing.
- `list_asks`, `post_info`, `delete`, `ask_reject` and `AskModel` are not
  part of this model. The first four are parameters or recorded calls.
- Pydantic validation. The records hold only the fields the logic reads.
- `settings.py`: environment loading only.
- In `randomizer.py`: reading and writing `last.txt`, the Jinja2
  rendering, and the posting calls after the loop. The percentage there
  divides by `latest - last`, which is zero when no new post appeared; that
  lies after the modelled loop.
- `random.randint` is the `draws` parameter, so the draws are fixed in
  advance. `list(set)` order is the `order` parameter, which lists exactly
  the set's members.
- Randomizer.Attempt: the tag analysis is a fixed function of the tag.
  In the source, an analysis that raised is not cached and can be fetched
  again for a later candidate, with another outcome.
- TagSampler.TagAnalyzeCache: keyed by `(tag, target, max_pages)`.
  `functools.cache` keys on the arguments as written, so `f(t, 3)` and
  `f(t, 3, 10)` are different keys. The model passes `max_pages` always.
- `main`'s `.lock` file polling in `manager.py`, and the logging
  everywhere.
- `int()`'s digit cap is CPython's default of 4300 (3.10.7 and later).
  Changing it with `sys.set_int_max_str_digits` or
  `PYTHONINTMAXSTRDIGITS` is not modelled.
- `\d` accepts only the ASCII digits here, where Python's `re` also
  accepts other Unicode decimal digits. The white space of `strip()` and
  the line breaks of `splitlines()` are Python's full lists.
- The screen in Randomizer.Screen uses the corrected collapse
  (Posts.CollapseToOriginal). It reads only the post id, which both
  versions agree on (Posts.CollapsesAgree).
- The executor keeps the source's wait (Executor.Wait), so that its
  traces are the source's; the corrected wait of the second finding is
  Executor.IntendedWait, and Executor.IntendedWaitAgrees shows where the
  two agree.

Three behaviours of the code worth knowing; the model follows the code:

- The collapse of `[A, B, C]`, B and C transparent, gives A with share tree
  `[A]`, not an empty one (see Findings).
- A listing page without the cursor link does not end the sampling. The
  cursor is kept, and the loop ends on a page without handles or when
  `max_pages` pages are spent.
- `tag_analyze(tag, 3)` reads up to 10 pages. The `max_pages = 3` default
  of the `Protocol` is a type annotation only; the function's own default
  of 10 applies.

## Findings

| source | as written | input that shows it | evidently intended | confidence | as-written member | corrected member |
|---|---|---|---|---|---|---|
| cohost.py:458 | the share tree of the original found is `tree[:index + 1]`, with `index` its negative position: for index -2 or below it ends with the original itself; for index -1 it is `tree[:0]`, empty, and the entries before the original are lost | share tree `[A, B]`, A original, B a transparent share: A comes back with share tree `[A]`; share tree `[X, A]`, A the original: A comes back with share tree `[]`, not `[X]` | the entries before the original: `tree[:index]`, here `[]` and `[X]` (Posts.AsWrittenDropsEntriesBefore shows the second) | not executed | Posts.AsWrittenKeepsMatchInItsOwnTree | Posts.CorrectedShareTreeIsPrefix |
| cohost.py:158-163 | the wait is `(deadline - datetime.now()).seconds`, the part of the duration within its day | `Retry-After: 0`: the deadline is the first clock reading, the second reading is microseconds later, so the duration is slightly negative and `.seconds` is 86399: the executor sleeps almost a day | nothing once the deadline has passed, otherwise the seconds up to it | not executed | Executor.ZeroHintSleepsAlmostADay | Executor.IntendedWait |
