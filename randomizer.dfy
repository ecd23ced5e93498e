/**
 * The candidate search of `randomizer.py`: draw a post id at random between
 * the last run's high-water mark and the newest id, look the post up, and
 * skip it unless it adds content, is shareable, is not by a bot, and carries
 * a tag that other projects use. `effective_tags` says which tags a share
 * may be judged by.
 *
 * What the loop calls out to is given as a `Sources` value: the random
 * draws in order, the post lookup (`try_post`), the tag analysis
 * (`tag_analyze(tag, 3)`) and the order in which `list(set)` lists a set.
 */
module Randomizer {
  import opened Wrappers
  import opened Errors
  import opened Text
  import opened Posts
  import TagSampler

  const MaxAttempts: int := 50
  /** Longer tags are taken to be prose written in tags and are not checked. */
  const MaxTagLength: nat := 50
  const Robot: char := '\U{1F916}'
  const BotSuffix: string := "-bot"

  /**
   * `effective_tags(topmost, share)`: a project may always reshare its own
   * post under any tag; otherwise only the tags both posts carry count.
   */
  function EffectiveTags(topmost: Post, share: Post): (r: set<string>)
    ensures forall t :: t in r ==> t in share.tags
    ensures topmost.postingProject.projectId == share.postingProject.projectId ==>
              forall t :: t in share.tags ==> t in r
    ensures topmost.postingProject.projectId != share.postingProject.projectId ==>
              forall t :: t in r <==> t in topmost.tags && t in share.tags
  {
    if topmost.postingProject.projectId == share.postingProject.projectId then set t | t in share.tags
    else (set t | t in topmost.tags) * (set t | t in share.tags)
  }

  /** The values a Python set may hold here: the ban list holds post ids only. */
  datatype PyValue = PyInt(i: int) | PyStr(s: string)

  function AsPyValues(banList: set<int>): set<PyValue> {
    set i | i in banList :: PyInt(i)
  }

  /**
   * The handle test against the ban list compares a string with ints: it
   * never fires, because `PyStr` and `PyInt` are different constructors, so
   * no string value equals any value the ban list holds.
   */
  lemma HandleNeverBanned(handle: string, banList: set<int>)
    ensures PyStr(handle) !in AsPyValues(banList)
  {
  }

  /** Why a candidate was passed over, one per `SKIP` message. */
  datatype SkipReason =
    | NotAdditive
    | AdultContent
    | BanListed
    | CannotShare
    | Bot
    | NoTags
    | NoEffectiveTags
    | NoTagUsedByOthers

  /** A candidate skipped, or accepted with its tags and the tag that passed. */
  datatype Decision =
    | Skip(reason: SkipReason)
    | Accept(eft: seq<string>, verifyWith: string, verifyCount: string)

  /** The collaborators of the loop. */
  datatype Sources = Sources(
    draws: nat -> int,
    tryPost: int -> Result<ExtendedPost, Exc>,
    analyze: string -> Result<TagSampler.Verdict, Exc>,
    order: set<string> -> seq<string>)

  /** `list(s)` lists exactly the members of `s`. */
  ghost predicate ListsSets(order: set<string> -> seq<string>) {
    forall s: set<string>, t :: t in order(s) <==> t in s
  }

  /** A tag the usage loop goes past: too long to check, or used by too few. */
  predicate PassedOver(tag: string, analyze: string -> Result<TagSampler.Verdict, Exc>) {
    |tag| > MaxTagLength || (analyze(tag).Ok? && !analyze(tag).value.0)
  }

  /** How the usage loop stops at a tag it does not pass over. */
  function StopAt(tag: string, v: Result<TagSampler.Verdict, Exc>): Result<Option<(string, string)>, Exc> {
    match v
    case Err(e) => Err(e)
    case Ok(verdict) => Ok(Some((tag, verdict.1)))
  }

  /**
   * The usage loop over `eft` from position `from`: the first checked tag
   * that passes with its count, `None` when none does, or the error an
   * analysis raised.
   */
  function FirstPassing(eft: seq<string>, analyze: string -> Result<TagSampler.Verdict, Exc>, from: nat): Result<Option<(string, string)>, Exc>
    requires from <= |eft|
    decreases |eft| - from
  {
    if from == |eft| then Ok(None)
    else if PassedOver(eft[from], analyze) then FirstPassing(eft, analyze, from + 1)
    else StopAt(eft[from], analyze(eft[from]))
  }

  /** The loop finds nothing exactly when it passes over every tag. */
  lemma {:induction false} FirstPassingNone(eft: seq<string>, analyze: string -> Result<TagSampler.Verdict, Exc>, from: nat)
    requires from <= |eft|
    decreases |eft| - from
    ensures FirstPassing(eft, analyze, from) == Ok(None) <==>
              forall j :: from <= j < |eft| ==> PassedOver(eft[j], analyze)
  {
    if from < |eft| {
      if PassedOver(eft[from], analyze) {
        FirstPassingNone(eft, analyze, from + 1);
      } else {
        assert StopAt(eft[from], analyze(eft[from])) != Ok(None);
      }
    }
  }

  /**
   * Otherwise the loop stops at the first tag it does not pass over, with
   * that tag's verdict or error.
   */
  lemma {:induction false} FirstPassingStops(eft: seq<string>, analyze: string -> Result<TagSampler.Verdict, Exc>, from: nat)
    requires from <= |eft|
    requires FirstPassing(eft, analyze, from) != Ok(None)
    decreases |eft| - from
    ensures exists i :: from <= i < |eft| && !PassedOver(eft[i], analyze)
                && (forall j :: from <= j < i ==> PassedOver(eft[j], analyze))
                && FirstPassing(eft, analyze, from) == StopAt(eft[i], analyze(eft[i]))
  {
    if PassedOver(eft[from], analyze) {
      FirstPassingStops(eft, analyze, from + 1);
      var i :| from + 1 <= i < |eft| && !PassedOver(eft[i], analyze)
                && (forall j :: from + 1 <= j < i ==> PassedOver(eft[j], analyze))
                && FirstPassing(eft, analyze, from + 1) == StopAt(eft[i], analyze(eft[i]));
      assert forall j :: from <= j < i ==> PassedOver(eft[j], analyze);
    }
  }

  /** The `for tag in eft` loop with its `break`. */
  method CheckTags(eft: seq<string>, analyze: string -> Result<TagSampler.Verdict, Exc>)
    returns (r: Result<Option<(string, string)>, Exc>)
    ensures r == FirstPassing(eft, analyze, 0)
  {
    var i := 0;
    while i < |eft|
      invariant 0 <= i <= |eft|
      invariant FirstPassing(eft, analyze, i) == FirstPassing(eft, analyze, 0)
    {
      var tag := eft[i];
      if |tag| <= MaxTagLength {
        var v := analyze(tag);
        if v.Err? {
          return Err(v.error);
        }
        if v.value.0 {
          return Ok(Some((tag, v.value.1)));
        }
      }
      i := i + 1;
    }
    return Ok(None);
  }

  /** The tags a candidate is judged by: the effective ones for a share, else its own. */
  function JudgedTags(p: Post, order: set<string> -> seq<string>): seq<string> {
    if |p.shareTree| > 0 then order(EffectiveTags(p.shareTree[0], p)) else p.tags
  }

  /**
   * The body of the `try` for one fetched candidate, in the order of its
   * checks. `'🤖' in displayName` raises `TypeError` on a project without
   * a display name before the handle is looked at.
   */
  function Screen(info: ExtendedPost, banList: set<int>, analyze: string -> Result<TagSampler.Verdict, Exc>,
                  order: set<string> -> seq<string>): (d: Result<Decision, Exc>)
    ensures d.Ok? && d.value.Accept? ==>
      && d.value.eft == JudgedTags(info.post, order)
      && d.value.verifyWith in d.value.eft && |d.value.verifyWith| <= MaxTagLength
      && analyze(d.value.verifyWith) == Ok((true, d.value.verifyCount))
    ensures IsTransparent(info.post) && CollapseToOriginal(info).Err? ==> d == Err(IndexError)
  {
    var oc :- CollapseToOriginal(info);
    var p := info.post;
    if oc.post.postId != p.postId then Ok(Skip(NotAdditive))
    else if p.effectiveAdultContent then Ok(Skip(AdultContent))
    else if PyStr(p.postingProject.handle) in AsPyValues(banList) then Ok(Skip(BanListed))
    else if !p.canShare then Ok(Skip(CannotShare))
    else if p.postingProject.displayName.None? then Err(TypeError)
    else if Robot in p.postingProject.displayName.value || EndsWith(p.postingProject.handle, BotSuffix) then Ok(Skip(Bot))
    else if |p.tags| == 0 then Ok(Skip(NoTags))
    else
      var eft := JudgedTags(p, order);
      if |p.shareTree| > 0 && |eft| == 0 then Ok(Skip(NoEffectiveTags))
      else
        var found :- FirstPassing(eft, analyze, 0);
        match found
        case None => Ok(Skip(NoTagUsedByOthers))
        case Some(hit) =>
          PassingTag(eft, analyze, hit.0, hit.1);
          Ok(Accept(eft, hit.0, hit.1))
  }

  /** One attempt on post id `c`: the lookup, then the screen. */
  function Attempt(w: Sources, c: int, banList: set<int>): (d: Result<Decision, Exc>)
    ensures w.tryPost(c).Err? ==> d == Err(w.tryPost(c).error)
    ensures d.Ok? ==> w.tryPost(c).Ok?
    ensures d.Ok? && d.value.Accept? ==>
      && d.value.eft == JudgedTags(w.tryPost(c).value.post, w.order)
      && d.value.verifyWith in d.value.eft
      && w.analyze(d.value.verifyWith) == Ok((true, d.value.verifyCount))
  {
    var info :- w.tryPost(c);
    Screen(info, banList, w.analyze, w.order)
  }

  /** The ban list never decides a screen: the handle test cannot fire. */
  lemma ScreenIgnoresBanList(info: ExtendedPost, b1: set<int>, b2: set<int>,
                             analyze: string -> Result<TagSampler.Verdict, Exc>, order: set<string> -> seq<string>)
    ensures Screen(info, b1, analyze, order) == Screen(info, b2, analyze, order)
  {
    HandleNeverBanned(info.post.postingProject.handle, b1);
    HandleNeverBanned(info.post.postingProject.handle, b2);
  }

  /**
   * An accepted candidate adds content, is not adult, may be shared, has a
   * display name without the robot and a handle without `-bot`, has tags,
   * and the analysis of those tags found a passing one.
   */
  lemma AcceptedCandidate(info: ExtendedPost, banList: set<int>, analyze: string -> Result<TagSampler.Verdict, Exc>,
                          order: set<string> -> seq<string>, eft: seq<string>, tag: string, count: string)
    requires Screen(info, banList, analyze, order) == Ok(Accept(eft, tag, count))
    ensures var p := info.post;
      && CollapseToOriginal(info).Ok? && CollapseToOriginal(info).value.post.postId == p.postId
      && !p.effectiveAdultContent && p.canShare
      && p.postingProject.displayName.Some? && Robot !in p.postingProject.displayName.value
      && !EndsWith(p.postingProject.handle, BotSuffix)
      && |p.tags| > 0
      && eft == JudgedTags(p, order)
      && FirstPassing(eft, analyze, 0) == Ok(Some((tag, count)))
  {
    HandleNeverBanned(info.post.postingProject.handle, banList);
  }

  /**
   * The tag the usage loop stops on with a verdict is one of `eft`, short
   * enough, and analysed as used by enough projects with that count.
   */
  lemma PassingTag(eft: seq<string>, analyze: string -> Result<TagSampler.Verdict, Exc>, tag: string, count: string)
    requires FirstPassing(eft, analyze, 0) == Ok(Some((tag, count)))
    ensures tag in eft && |tag| <= MaxTagLength && analyze(tag) == Ok((true, count))
  {
    FirstPassingStops(eft, analyze, 0);
    var i :| 0 <= i < |eft| && !PassedOver(eft[i], analyze)
             && FirstPassing(eft, analyze, 0) == StopAt(eft[i], analyze(eft[i]));
    if analyze(eft[i]).Ok? {
      assert StopAt(eft[i], analyze(eft[i])) == Ok(Some((eft[i], analyze(eft[i]).value.1)));
    }
  }

  /** A judged tag is an effective tag for a share and one of the post's own otherwise. */
  lemma JudgedTagIsEffective(p: Post, order: set<string> -> seq<string>, tag: string)
    requires ListsSets(order) && tag in JudgedTags(p, order)
    ensures |p.shareTree| > 0 ==> tag in EffectiveTags(p.shareTree[0], p) && tag in p.tags
    ensures |p.shareTree| == 0 ==> tag in p.tags
  {
  }

  /**
   * Once all earlier checks let a candidate through, it is skipped as "no
   * tags used by others" exactly when it has tags to judge (a share with
   * no effective tags is skipped before) and every one of them is passed
   * over.
   */
  lemma NoTagPasses(info: ExtendedPost, banList: set<int>, analyze: string -> Result<TagSampler.Verdict, Exc>,
                    order: set<string> -> seq<string>)
    requires !IsTransparent(info.post)
    requires var p := info.post;
      && !p.effectiveAdultContent && p.canShare
      && p.postingProject.displayName.Some? && Robot !in p.postingProject.displayName.value
      && !EndsWith(p.postingProject.handle, BotSuffix)
      && |p.tags| > 0
    ensures var p, eft := info.post, JudgedTags(info.post, order);
      Screen(info, banList, analyze, order) == Ok(Skip(NoTagUsedByOthers))
      <==> (|p.shareTree| == 0 || |eft| > 0) && forall i :: 0 <= i < |eft| ==> PassedOver(eft[i], analyze)
  {
    HandleNeverBanned(info.post.postingProject.handle, banList);
    FirstPassingNone(JudgedTags(info.post, order), analyze, 0);
  }

  /** A project without a display name gets as far as the bot test and raises `TypeError`. */
  lemma NoDisplayNameRaises(info: ExtendedPost, banList: set<int>, analyze: string -> Result<TagSampler.Verdict, Exc>,
                            order: set<string> -> seq<string>)
    requires !IsTransparent(info.post)
    requires !info.post.effectiveAdultContent && info.post.canShare
    requires info.post.postingProject.displayName.None?
    ensures Screen(info, banList, analyze, order) == Err(TypeError)
  {
    HandleNeverBanned(info.post.postingProject.handle, banList);
  }

  /**
   * A transparent share is never additive: its original has another id, so
   * a tree that holds an original is skipped; a tree of transparent shares
   * only raises `IndexError` in the collapse.
   */
  lemma TransparentShareNotAdditive(info: ExtendedPost, banList: set<int>, analyze: string -> Result<TagSampler.Verdict, Exc>,
                                    order: set<string> -> seq<string>)
    requires IsTransparent(info.post)
    requires forall q :: q in info.post.shareTree ==> q.postId != info.post.postId
    ensures (exists i :: 0 <= i < |info.post.shareTree| && !IsTransparent(info.post.shareTree[i]))
         ==> Screen(info, banList, analyze, order) == Ok(Skip(NotAdditive))
    ensures (forall i :: 0 <= i < |info.post.shareTree| ==> IsTransparent(info.post.shareTree[i]))
         ==> Screen(info, banList, analyze, order) == Err(IndexError)
  {
    CollapseFindsLastOriginal(info);
    CollapsesAgree(info);
    var tree := info.post.shareTree;
    if CollapseToOriginal(info).Ok? {
      var j :| 0 <= j < |tree| && CollapseAsWritten(info).value.post.postId == tree[j].postId;
      assert tree[j] in tree;
    }
  }

  /** The body of the `try` for one drawn id, with its `continue`s as early returns. */
  method TryCandidate(w: Sources, c: int, banList: set<int>) returns (d: Result<Decision, Exc>)
    ensures d == Attempt(w, c, banList)
  {
    var fetched := w.tryPost(c);
    if fetched.Err? {
      return Err(fetched.error);
    }
    var info := fetched.value;
    var oc := CollapseToOriginal(info);
    if oc.Err? {
      return Err(oc.error);
    }
    var p := info.post;
    if oc.value.post.postId != p.postId {
      return Ok(Skip(NotAdditive));
    }
    if p.effectiveAdultContent {
      return Ok(Skip(AdultContent));
    }
    if PyStr(p.postingProject.handle) in AsPyValues(banList) {
      return Ok(Skip(BanListed));
    }
    if !p.canShare {
      return Ok(Skip(CannotShare));
    }
    if p.postingProject.displayName.None? {
      return Err(TypeError);
    }
    if Robot in p.postingProject.displayName.value || EndsWith(p.postingProject.handle, BotSuffix) {
      return Ok(Skip(Bot));
    }
    if |p.tags| == 0 {
      return Ok(Skip(NoTags));
    }
    var eft;
    if |p.shareTree| > 0 {
      eft := w.order(EffectiveTags(p.shareTree[0], p));
      if |eft| == 0 {
        return Ok(Skip(NoEffectiveTags));
      }
    } else {
      eft := p.tags;
    }
    var found := CheckTags(eft, w.analyze);
    if found.Err? {
      return Err(found.error);
    }
    if found.value.None? {
      return Ok(Skip(NoTagUsedByOthers));
    }
    return Ok(Accept(eft, found.value.value.0, found.value.value.1));
  }

  /** How the search ended. */
  datatype Selection =
    | Chosen(id: int, info: ExtendedPost, eft: seq<string>, verifyWith: string, verifyCount: string)
    | OutOfAttempts      // `exit(1)` after "ran out of attempts"
    | Crashed(error: Exc) // an exception the `except ValueError` does not catch

  /**
   * The loop's variables: the next draw's index, `max_att`, `ban_list`,
   * plus (for the proofs) the ids tried in order and the repeated draws.
   */
  datatype Draw = Draw(k: nat, maxAtt: int, banList: set<int>, tried: seq<int>, repeats: nat)

  const Start: Draw := Draw(0, MaxAttempts, {}, [], 0)

  datatype Outcome = Outcome(result: Selection, final: Draw)

  /** `random.randint(last, latest)` draws within the bounds whenever they are ordered. */
  ghost predicate InRange(w: Sources, last: int, latest: int) {
    last <= latest ==> forall i: nat :: last <= w.draws(i) <= latest
  }

  function Budget(maxAtt: int): nat {
    if maxAtt > 0 then maxAtt else 0
  }

  /** The ids of the range not drawn yet. */
  function Unseen(last: int, latest: int, banList: set<int>): set<int> {
    set i | last <= i <= latest && i !in banList
  }

  lemma UnseenShrinks(last: int, latest: int, banList: set<int>, c: int)
    requires last <= c <= latest && c !in banList
    ensures Unseen(last, latest, banList + {c}) < Unseen(last, latest, banList)
  {
    assert c in Unseen(last, latest, banList);
  }

  /** The state after a draw of an id not tried before. */
  function Tried(st: Draw, c: int): Draw {
    Draw(st.k + 1, st.maxAtt, st.banList + {c}, st.tried + [c], st.repeats)
  }

  /** The state after a draw of an id already in the ban list. */
  function Repeated(st: Draw): Draw {
    st.(k := st.k + 1, maxAtt := st.maxAtt - 1, repeats := st.repeats + 1)
  }

  /**
   * The `while 1` loop from state `st`. A repeated draw costs an attempt; a
   * fresh one is banned and screened; a `ValueError` or a skip moves on,
   * any other exception ends the run, an accepted candidate ends the search.
   */
  function Select(w: Sources, last: int, latest: int, st: Draw): (o: Outcome)
    requires InRange(w, last, latest)
    ensures st.k <= o.final.k && st.banList <= o.final.banList && o.final.maxAtt <= st.maxAtt
    ensures |st.tried| <= |o.final.tried| && o.final.tried[..|st.tried|] == st.tried
    ensures o.result.Chosen? ==> o.result.id in o.final.banList
    decreases Budget(st.maxAtt), Unseen(last, latest, st.banList)
  {
    if st.maxAtt <= 0 then Outcome(OutOfAttempts, st)
    else if last > latest then Outcome(Crashed(ValueError(EmptyRange)), st)
    else
      var c := w.draws(st.k);
      if c in st.banList then Select(w, last, latest, Repeated(st))
      else
        var next := Tried(st, c);
        UnseenShrinks(last, latest, st.banList, c);
        assert next.tried[..|st.tried|] == st.tried;
        match Attempt(w, c, next.banList)
        case Err(e) =>
          if IsValueError(e) then
            var o := Select(w, last, latest, next);
            assert o.final.tried[..|st.tried|] == o.final.tried[..|next.tried|][..|st.tried|];
            o
          else Outcome(Crashed(e), next)
        case Ok(Skip(_)) =>
          var o := Select(w, last, latest, next);
          assert o.final.tried[..|st.tried|] == o.final.tried[..|next.tried|][..|st.tried|];
          o
        case Ok(Accept(eft, tag, count)) => Outcome(Chosen(c, w.tryPost(c).value, eft, tag, count), next)
  }

  /** A drawn id the search went past: skipped, or its lookup raised a `ValueError`. */
  predicate Rejected(w: Sources, c: int) {
    var a := Attempt(w, c, {});
    (a.Ok? && a.value.Skip?) || (a.Err? && IsValueError(a.error))
  }

  predicate Distinct(s: seq<int>) {
    forall i, j :: 0 <= i < j < |s| ==> s[i] != s[j]
  }

  lemma AttemptIgnoresBanList(w: Sources, c: int, banList: set<int>)
    ensures Attempt(w, c, banList) == Attempt(w, c, {})
  {
    if w.tryPost(c).Ok? {
      ScreenIgnoresBanList(w.tryPost(c).value, banList, {}, w.analyze, w.order);
    }
  }

  /**
   * Every repeated draw costs one of the attempts, and only those do:
   * attempts left plus repeats is constant, and the search runs out of
   * attempts exactly when none is left.
   */
  lemma {:induction false} SelectAccounting(w: Sources, last: int, latest: int, st: Draw)
    requires InRange(w, last, latest) && st.maxAtt >= 0
    decreases Budget(st.maxAtt), Unseen(last, latest, st.banList)
    ensures var o := Select(w, last, latest, st);
      && o.final.repeats + o.final.maxAtt == st.repeats + st.maxAtt
      && 0 <= o.final.maxAtt
      && (o.result.OutOfAttempts? <==> o.final.maxAtt == 0)
  {
    if st.maxAtt > 0 && last <= latest {
      var c := w.draws(st.k);
      if c in st.banList {
        SelectAccounting(w, last, latest, Repeated(st));
      } else {
        UnseenShrinks(last, latest, st.banList, c);
        var a := Attempt(w, c, st.banList + {c});
        if (a.Err? && IsValueError(a.error)) || (a.Ok? && a.value.Skip?) {
          SelectAccounting(w, last, latest, Tried(st, c));
        }
      }
    }
  }

  /**
   * Each id is fetched at most once: the ids tried are distinct, drawn
   * from the range, and all in the ban list.
   */
  lemma {:induction false} SelectTriesEachOnce(w: Sources, last: int, latest: int, st: Draw)
    requires InRange(w, last, latest)
    requires Distinct(st.tried)
    requires forall x :: x in st.tried ==> x in st.banList && last <= x <= latest
    decreases Budget(st.maxAtt), Unseen(last, latest, st.banList)
    ensures var o := Select(w, last, latest, st);
      && Distinct(o.final.tried)
      && (forall x :: x in o.final.tried ==> x in o.final.banList && last <= x <= latest)
      && st.tried <= o.final.tried
  {
    if st.maxAtt > 0 && last <= latest {
      var c := w.draws(st.k);
      if c in st.banList {
        SelectTriesEachOnce(w, last, latest, Repeated(st));
      } else {
        UnseenShrinks(last, latest, st.banList, c);
        var next := Tried(st, c);
        assert c !in st.tried;
        assert Distinct(next.tried);
        var a := Attempt(w, c, next.banList);
        if (a.Err? && IsValueError(a.error)) || (a.Ok? && a.value.Skip?) {
          SelectTriesEachOnce(w, last, latest, next);
        }
      }
    }
  }

  /**
   * How the search ends: a chosen id is the last one tried, its post is
   * the one looked up and its screen accepted it; a crash is either
   * `randint` over an empty range, before any draw, or an exception other
   * than `ValueError` from the last id tried.
   */
  lemma SelectEnds(w: Sources, last: int, latest: int, st: Draw)
    requires InRange(w, last, latest)
    ensures var o := Select(w, last, latest, st); var t := o.final.tried;
      && (o.result.Chosen? ==>
            && |t| > 0 && t[|t| - 1] == o.result.id && last <= o.result.id <= latest
            && w.tryPost(o.result.id) == Ok(o.result.info)
            && Attempt(w, o.result.id, {}) == Ok(Accept(o.result.eft, o.result.verifyWith, o.result.verifyCount)))
      && (o.result.Crashed? ==>
            || (o.result.error == ValueError(EmptyRange) && last > latest && t == st.tried)
            || (!IsValueError(o.result.error) && |t| > 0 && Attempt(w, t[|t| - 1], {}) == Err(o.result.error)))
  {
    SelectChosen(w, last, latest, st);
    SelectCrashed(w, last, latest, st);
  }

  lemma {:induction false} SelectChosen(w: Sources, last: int, latest: int, st: Draw)
    requires InRange(w, last, latest)
    decreases Budget(st.maxAtt), Unseen(last, latest, st.banList)
    ensures var o := Select(w, last, latest, st); var t := o.final.tried;
      o.result.Chosen? ==>
        && |t| > 0 && t[|t| - 1] == o.result.id && last <= o.result.id <= latest
        && w.tryPost(o.result.id) == Ok(o.result.info)
        && Attempt(w, o.result.id, {}) == Ok(Accept(o.result.eft, o.result.verifyWith, o.result.verifyCount))
  {
    if st.maxAtt > 0 && last <= latest {
      var c := w.draws(st.k);
      if c in st.banList {
        SelectChosen(w, last, latest, Repeated(st));
      } else {
        UnseenShrinks(last, latest, st.banList, c);
        var next := Tried(st, c);
        AttemptIgnoresBanList(w, c, next.banList);
        var a := Attempt(w, c, next.banList);
        if (a.Err? && IsValueError(a.error)) || (a.Ok? && a.value.Skip?) {
          SelectChosen(w, last, latest, next);
        } else {
          assert next.tried[|next.tried| - 1] == c;
        }
      }
    }
  }

  lemma {:induction false} SelectCrashed(w: Sources, last: int, latest: int, st: Draw)
    requires InRange(w, last, latest)
    decreases Budget(st.maxAtt), Unseen(last, latest, st.banList)
    ensures var o := Select(w, last, latest, st); var t := o.final.tried;
      o.result.Crashed? ==>
        || (o.result.error == ValueError(EmptyRange) && last > latest && t == st.tried)
        || (!IsValueError(o.result.error) && |t| > 0 && Attempt(w, t[|t| - 1], {}) == Err(o.result.error))
  {
    if st.maxAtt > 0 && last <= latest {
      var c := w.draws(st.k);
      if c in st.banList {
        SelectCrashed(w, last, latest, Repeated(st));
      } else {
        UnseenShrinks(last, latest, st.banList, c);
        var next := Tried(st, c);
        AttemptIgnoresBanList(w, c, next.banList);
        var a := Attempt(w, c, next.banList);
        if (a.Err? && IsValueError(a.error)) || (a.Ok? && a.value.Skip?) {
          SelectCrashed(w, last, latest, next);
        } else {
          assert next.tried[|next.tried| - 1] == c;
        }
      }
    }
  }


  /** Every id tried before the last was rejected; all were when the attempts ran out. */
  lemma {:induction false} SelectRejectsTheRest(w: Sources, last: int, latest: int, st: Draw)
    requires InRange(w, last, latest)
    requires forall x :: x in st.tried ==> Rejected(w, x)
    decreases Budget(st.maxAtt), Unseen(last, latest, st.banList)
    ensures var o := Select(w, last, latest, st); var t := o.final.tried;
      && (o.result.OutOfAttempts? ==> forall x :: x in t ==> Rejected(w, x))
      && (|t| > 0 ==> forall x :: x in t[..|t| - 1] ==> Rejected(w, x))
  {
    if st.maxAtt > 0 && last <= latest {
      var c := w.draws(st.k);
      if c in st.banList {
        SelectRejectsTheRest(w, last, latest, Repeated(st));
      } else {
        UnseenShrinks(last, latest, st.banList, c);
        var next := Tried(st, c);
        AttemptIgnoresBanList(w, c, next.banList);
        assert next.tried[..|next.tried| - 1] == st.tried;
        var a := Attempt(w, c, next.banList);
        if (a.Err? && IsValueError(a.error)) || (a.Ok? && a.value.Skip?) {
          assert Rejected(w, c);
          SelectRejectsTheRest(w, last, latest, next);
        }
      }
    } else if |st.tried| > 0 {
      assert forall x :: x in st.tried[..|st.tried| - 1] ==> x in st.tried;
    }
  }

  /**
   * Once every id of the range is in the ban list, every draw repeats:
   * the remaining attempts run out and the search ends with nothing.
   */
  lemma {:induction false} ExhaustedRangeRunsOut(w: Sources, last: int, latest: int, st: Draw)
    requires InRange(w, last, latest) && last <= latest && st.maxAtt >= 0
    requires forall i :: last <= i <= latest ==> i in st.banList
    decreases st.maxAtt
    ensures Select(w, last, latest, st)
         == Outcome(OutOfAttempts, Draw(st.k + st.maxAtt, 0, st.banList, st.tried, st.repeats + st.maxAtt))
  {
    if st.maxAtt > 0 {
      assert w.draws(st.k) in st.banList;
      ExhaustedRangeRunsOut(w, last, latest, Repeated(st));
    }
  }

  /**
   * A range of one id whose post is rejected: one lookup, then fifty
   * repeated draws, and the search runs out of attempts.
   */
  lemma SingleIdRange(w: Sources, id: int)
    requires InRange(w, id, id) && Rejected(w, id)
    ensures Select(w, id, id, Start) == Outcome(OutOfAttempts, Draw(51, 0, {id}, [id], 50))
  {
    AttemptIgnoresBanList(w, id, {id});
    assert w.draws(0) == id;
    var next := Tried(Start, id);
    assert Select(w, id, id, Start) == Select(w, id, id, next);
    ExhaustedRangeRunsOut(w, id, id, next);
  }

  /** `randint` over an empty range raises before any post is looked at. */
  lemma EmptyRangeCrashes(w: Sources, last: int, latest: int)
    requires last > latest
    ensures Select(w, last, latest, Start) == Outcome(Crashed(ValueError(EmptyRange)), Start)
  {
  }

  /**
   * From the start: at most fifty repeated draws, exactly fifty when the
   * attempts run out; each id fetched once and drawn from the range; and
   * the ends described by `SelectEnds`.
   */
  lemma SearchFromStart(w: Sources, last: int, latest: int)
    requires InRange(w, last, latest)
    ensures var o := Select(w, last, latest, Start);
      && o.final.repeats <= MaxAttempts
      && (o.result.OutOfAttempts? <==> o.final.repeats == MaxAttempts)
      && Distinct(o.final.tried)
      && (forall x :: x in o.final.tried ==> last <= x <= latest)
  {
    SelectAccounting(w, last, latest, Start);
    SelectTriesEachOnce(w, last, latest, Start);
  }

  /** The search loop of `main`, from `ban_list = set()` and `max_att = 50`. */
  method SelectCandidate(w: Sources, last: int, latest: int) returns (result: Selection, tried: seq<int>, repeats: nat)
    requires InRange(w, last, latest)
    ensures var o := Select(w, last, latest, Start);
      result == o.result && tried == o.final.tried && repeats == o.final.repeats
  {
    var k: nat := 0;
    var maxAtt := MaxAttempts;
    var banList: set<int> := {};
    tried, repeats := [], 0;
    while true
      invariant Select(w, last, latest, Draw(k, maxAtt, banList, tried, repeats)) == Select(w, last, latest, Start)
      decreases Budget(maxAtt), Unseen(last, latest, banList)
    {
      ghost var st := Draw(k, maxAtt, banList, tried, repeats);
      if maxAtt <= 0 {
        return OutOfAttempts, tried, repeats;
      }
      if last > latest {
        return Crashed(ValueError(EmptyRange)), tried, repeats;
      }
      var choiced := w.draws(k);
      k := k + 1;
      if choiced in banList {
        maxAtt := maxAtt - 1;
        repeats := repeats + 1;
        assert Draw(k, maxAtt, banList, tried, repeats) == Repeated(st);
        continue;
      }
      UnseenShrinks(last, latest, banList, choiced);
      banList := banList + {choiced};
      tried := tried + [choiced];
      assert Draw(k, maxAtt, banList, tried, repeats) == Tried(st, choiced);
      var d := TryCandidate(w, choiced, banList);
      if d.Err? {
        if IsValueError(d.error) {
          continue;
        }
        return Crashed(d.error), tried, repeats;
      }
      if d.value.Skip? {
        continue;
      }
      return Chosen(choiced, w.tryPost(choiced).value, d.value.eft, d.value.verifyWith, d.value.verifyCount), tried, repeats;
    }
  }
}
