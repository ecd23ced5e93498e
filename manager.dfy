/**
 * The ask handler of `manager.py`: an ask whose text holds a fenced
 * `randomizer` block is read line by line for `delete`, `suppress` and
 * `unsuppress` instructions; a `delete` goes through only for the post's
 * immediate author, its root author or a bot operator; the ask is then
 * rejected, once.
 *
 * The remote calls are given as a `Remote` value: `post_info` (which may
 * find nothing, or raise) and `delete` (which may raise). What the handler
 * does to the outside is the list of calls it makes, in order.
 */
module Manager {
  import opened Wrappers
  import opened Errors
  import opened Text
  import opened Posts

  /** `BOT_OP`: the project ids of the bot's operators. */
  const BotOp: seq<int> := [188410, 217741]

  const FenceOpen: string := "```randomizer"
  const FenceOpenAt: string := "```@randomizer"

  datatype Ask = Ask(askId: string, askingProject: Project, content: string)

  /** `post_info(pid, POST_TO)` and `delete(pid, POST_TO)`. */
  datatype Remote = Remote(postInfo: int -> Result<Option<ExtendedPost>, Exc>, delete: int -> Option<Exc>)

  /** A call the handler makes to the outside. */
  datatype Effect = DeleteCall(target: int) | RejectCall(askId: string)

  /** What a step did: the exception it raised, if any, and the calls it made. */
  datatype Step = Step(error: Option<Exc>, calls: seq<Effect>)

  // ---------------------------------------------------------------- the fence

  /**
   * Where the body starts when a fence opens at `i`: after ```` ```randomizer ````
   * or ```` ```@randomizer ```` and a `\r\n` or `\n`.
   */
  function BodyStart(s: string, i: nat): Option<nat>
    requires i <= |s|
  {
    var after :=
      if StartsWith(s[i..], FenceOpen) then Some(i + |FenceOpen|)
      else if StartsWith(s[i..], FenceOpenAt) then Some(i + |FenceOpenAt|)
      else None;
    match after
    case None => None
    case Some(j) =>
      if StartsWith(s[j..], "\r\n") then Some(j + 2)
      else if StartsWith(s[j..], "\n") then Some(j + 1)
      else None
  }

  /** A closing fence `\r?\n```` starts at `p`. */
  predicate ClosesAt(s: string, p: nat)
    requires p <= |s|
  {
    StartsWith(s[p..], "\r\n```") || StartsWith(s[p..], "\n```")
  }

  /** The lazy body: the first position from `from` on where a closing fence starts. */
  function FirstClose(s: string, from: nat): (r: Option<nat>)
    requires from <= |s|
    decreases |s| - from
    ensures r.Some? ==> from <= r.value <= |s| && ClosesAt(s, r.value)
                        && forall q :: from <= q < r.value ==> !ClosesAt(s, q)
    ensures r.None? ==> forall q :: from <= q <= |s| ==> !ClosesAt(s, q)
  {
    if ClosesAt(s, from) then Some(from)
    else if from == |s| then None
    else FirstClose(s, from + 1)
  }

  /** A whole fenced block matches from position `i`. */
  predicate HasMatchAt(s: string, i: nat)
    requires i <= |s|
  {
    BodyStart(s, i).Some? && BodyStart(s, i).value <= |s| && FirstClose(s, BodyStart(s, i).value).Some?
  }

  /** The body of the block that matches from `i`. */
  function BlockAt(s: string, i: nat): string
    requires i <= |s| && HasMatchAt(s, i)
  {
    s[BodyStart(s, i).value..FirstClose(s, BodyStart(s, i).value).value]
  }

  /** The first position from `i` up to `n` that `ok` accepts, as a search from the left. */
  function Leftmost(ok: nat -> bool, i: nat, n: nat): (r: Option<nat>)
    requires i <= n
    decreases n - i
    ensures r.Some? ==> i <= r.value <= n && ok(r.value) && forall j :: i <= j < r.value ==> !ok(j)
    ensures r.None? ==> forall j :: i <= j <= n ==> !ok(j)
  {
    if ok(i) then Some(i)
    else if i == n then None
    else Leftmost(ok, i + 1, n)
  }

  /** A whole block matches from `j`, as a predicate on positions. */
  function MatchesFrom(s: string): nat -> bool {
    (j: nat) => j <= |s| && HasMatchAt(s, j)
  }

  /**
   * `re.search(...)` for the fenced block, and its group 1: a block is found
   * exactly when one matches somewhere, and then it is the body of the
   * leftmost one.
   */
  function FindBlock(s: string): (r: Option<string>)
    ensures r.None? <==> forall j :: 0 <= j <= |s| ==> !HasMatchAt(s, j)
    ensures r.Some? ==>
      exists k :: 0 <= k <= |s| && HasMatchAt(s, k) && (forall j :: 0 <= j < k ==> !HasMatchAt(s, j))
                  && r.value == BlockAt(s, k)
  {
    var ok := MatchesFrom(s);
    assert forall j :: 0 <= j <= |s| ==> (ok(j) <==> HasMatchAt(s, j));
    match Leftmost(ok, 0, |s|)
    case None => None
    case Some(k) =>
      assert HasMatchAt(s, k);
      Some(BlockAt(s, k))
  }

  /** Closing fences are found alike in a text and in any text it starts. */
  lemma ClosesAtPrefix(s: string, t: string, p: nat)
    requires p + 5 <= |s| <= |t| && s == t[..|s|]
    ensures ClosesAt(s, p) <==> ClosesAt(t, p)
  {
    assert s[p..][..5] == t[p..][..5];
    assert s[p..][..4] == t[p..][..4];
  }

  /** The first closing fence from `from` is the one at `p` when none starts before it. */
  lemma FirstCloseIs(s: string, from: nat, p: nat)
    requires from <= p <= |s| && ClosesAt(s, p)
    requires forall q :: from <= q < p ==> !ClosesAt(s, q)
    ensures FirstClose(s, from) == Some(p)
  {
  }

  /** The opening line ```` ```randomizer\n ````: the body starts right after it. */
  lemma OpeningFence(rest: string)
    ensures BodyStart(FenceOpen + "\n" + rest, 0) == Some(|FenceOpen| + 1)
  {
    var s := FenceOpen + "\n" + rest;
    assert s[0..][..|FenceOpen|] == FenceOpen;
    assert s[|FenceOpen|..][..1] == "\n";
    assert s[|FenceOpen|] == '\n';
  }

  /** No closing fence starts inside the body when none does in the body and its closing line. */
  lemma NoCloseInBody(body: string, after: string)
    requires forall q :: 0 <= q < |body| ==> !ClosesAt(body + "\n```", q)
    ensures var s := FenceOpen + "\n" + body + "\n```" + after;
      forall q :: |FenceOpen| + 1 <= q < |FenceOpen| + 1 + |body| ==> !ClosesAt(s, q)
  {
    var inner := body + "\n```";
    var s := FenceOpen + "\n" + body + "\n```" + after;
    var b := |FenceOpen| + 1;
    var shifted := s[b..];
    assert shifted[..|inner|] == inner;
    forall q | b <= q < b + |body|
      ensures !ClosesAt(s, q)
    {
      ClosesAtPrefix(inner, shifted, q - b);
      assert s[q..] == shifted[q - b..];
    }
  }

  /**
   * A block written as ```` ```randomizer ````, a newline, the body and a
   * newline with the closing fence is found and gives the body back, when
   * no closing fence starts inside the body.
   */
  lemma FencedBlockFound(body: string, after: string)
    requires forall q :: 0 <= q < |body| ==> !ClosesAt(body + "\n```", q)
    ensures FindBlock(FenceOpen + "\n" + body + "\n```" + after) == Some(body)
  {
    var s := FenceOpen + "\n" + body + "\n```" + after;
    var b := |FenceOpen| + 1;
    OpeningFence(body + "\n```" + after);
    assert FenceOpen + "\n" + (body + "\n```" + after) == s;
    NoCloseInBody(body, after);
    assert s[b + |body|..][..4] == "\n```";
    FirstCloseIs(s, b, b + |body|);
    assert s[b..b + |body|] == body;
  }

  // ------------------------------------------------------ one instruction line

  datatype Op = Delete | Suppress | Unsuppress

  function OpWord(op: Op): string {
    match op
    case Delete => "delete"
    case Suppress => "suppress"
    case Unsuppress => "unsuppress"
  }

  /** The two groups of a matched line: the operation word and the target's digits, as text. */
  datatype Instruction = Instruction(op: Op, target: Numeral)

  /** `op <digits>` in full, for one operation word. */
  function MatchOp(t: string, op: Op): (r: Option<Instruction>)
    ensures r.Some? ==> r.value.op == op
  {
    var w := OpWord(op) + " ";
    if StartsWith(t, w) && AllDigits(t[|w|..]) then Some(Instruction(op, t[|w|..]))
    else None
  }

  /**
   * `re.match(r"^(delete|suppress|unsuppress) (\d+)$", line.strip())`: a
   * line matches when one of the three words does, and the instruction is
   * that word's reading of the stripped line.
   */
  function MatchInstruction(line: string): (r: Option<Instruction>)
    ensures r.None? <==> forall op: Op :: MatchOp(Strip(line), op).None?
    ensures r.Some? ==> r == MatchOp(Strip(line), r.value.op)
  {
    var t := Strip(line);
    var d := MatchOp(t, Delete);
    if d.Some? then d
    else
      var s := MatchOp(t, Suppress);
      if s.Some? then s
      else MatchOp(t, Unsuppress)
  }

  /** A matched line is, stripped, the operation word, one space and the target's digits. */
  lemma MatchedLine(line: string)
    requires MatchInstruction(line).Some?
    ensures var ins := MatchInstruction(line).value; var w := OpWord(ins.op) + " ";
      && StartsWith(Strip(line), w)
      && ins.target == Strip(line)[|w|..]
  {
    var t := Strip(line);
    if MatchOp(t, Delete).Some? {
      OpMatched(t, Delete);
    } else if MatchOp(t, Suppress).Some? {
      OpMatched(t, Suppress);
    } else {
      OpMatched(t, Unsuppress);
    }
  }

  /** What one operation word's match says about the line. */
  lemma OpMatched(t: string, op: Op)
    requires MatchOp(t, op).Some?
    ensures var ins := MatchOp(t, op).value; var w := OpWord(op) + " ";
      && ins.op == op && StartsWith(t, w) && ins.target == t[|w|..]
  {
  }

  /** The line is its own operation word, a space and digits: that word matches it. */
  lemma MatchOwnOp(op: Op, digits: string)
    requires AllDigits(digits)
    ensures MatchOp(OpWord(op) + " " + digits, op) == Some(Instruction(op, digits))
  {
    var w := OpWord(op) + " ";
    assert (w + digits)[..|w|] == w;
    assert (w + digits)[|w|..] == digits;
    assert OpWord(op) + " " + digits == w + digits;
  }

  /** The words of the instructions that come first in the alternation do not match. */
  lemma MatchOtherOps(op: Op, digits: string)
    ensures op != Delete ==> MatchOp(OpWord(op) + " " + digits, Delete).None?
    ensures op == Unsuppress ==> MatchOp(OpWord(op) + " " + digits, Suppress).None?
  {
    var line := OpWord(op) + " " + digits;
    assert line[0] == OpWord(op)[0];
  }

  /**
   * `str(n)` after an operation word and a space reads back as that
   * instruction; its target converts back to `n` within the digit cap.
   */
  lemma InstructionRoundTrip(op: Op, n: nat)
    ensures MatchInstruction(OpWord(op) + " " + NatToString(n)) == Some(Instruction(op, NatToString(n)))
    ensures |NatToString(n)| <= IntMaxStrDigits ==> IntOf(NatToString(n)) == Ok(n)
  {
    InstructionOfLine(op, NatToString(n));
    IntOfNatToString(n);
  }

  /** An operation word, a space and digits: the line matches as that word with those digits. */
  lemma InstructionOfLine(op: Op, digits: Numeral)
    ensures MatchInstruction(OpWord(op) + " " + digits) == Some(Instruction(op, digits))
  {
    var line := OpWord(op) + " " + digits;
    assert line[0] == OpWord(op)[0];
    assert line[|line| - 1] == digits[|digits| - 1];
    StripUnpadded(line);
    MatchOwnOp(op, digits);
    MatchOtherOps(op, digits);
  }

  // ------------------------------------------------------------- `op_delete`

  /** The requester may delete: the share's immediate author, its root author, or a bot operator. */
  predicate Authorised(requester: int, tree: seq<Post>)
    requires |tree| > 0
  {
    requester == tree[|tree| - 1].postingProject.projectId
    || requester == tree[0].postingProject.projectId
    || requester in BotOp
  }

  /** The post exists, has a share tree, and the requester is authorised on it. */
  predicate Permits(r: Remote, target: int, requester: int) {
    var found := r.postInfo(target);
    found.Ok? && found.value.Some? && |found.value.value.post.shareTree| > 0
    && Authorised(requester, found.value.value.post.shareTree)
  }

  /**
   * `op_delete(target, context)`. A post with an empty share tree raises
   * `IndexError` at `shareTree[-1]`; one that does not exist is only
   * logged.
   */
  function OpDelete(r: Remote, target: int, requester: int): (s: Step)
    ensures |s.calls| <= 1 && forall e :: e in s.calls ==> e == DeleteCall(target)
    ensures s.calls == [] && s.error.Some? ==> s.error.value == IndexError || r.postInfo(target).Err?
  {
    match r.postInfo(target)
    case Err(e) => Step(Some(e), [])
    case Ok(None) => Step(None, [])
    case Ok(Some(info)) =>
      var tree := info.post.shareTree;
      if |tree| == 0 then Step(Some(IndexError), [])
      else if Authorised(requester, tree) then Step(r.delete(target), [DeleteCall(target)])
      else Step(None, [])
  }

  /**
   * `op_delete` calls `delete` exactly when the requester is permitted, and
   * then only for the target; a missing post is no error, an empty share
   * tree is an `IndexError`, and a failing lookup or deletion raises.
   */
  lemma OpDeleteAuthorisation(r: Remote, target: int, requester: int)
    ensures var s := OpDelete(r, target, requester);
      && (DeleteCall(target) in s.calls <==> Permits(r, target, requester))
      && (s.calls == [] || s.calls == [DeleteCall(target)])
      && (Permits(r, target, requester) ==> s.error == r.delete(target))
      && (r.postInfo(target).Err? ==> s.error == Some(r.postInfo(target).error))
      && (r.postInfo(target) == Ok(None) ==> s == Step(None, []))
      && ((r.postInfo(target).Ok? && r.postInfo(target).value.Some?
           && |r.postInfo(target).value.value.post.shareTree| == 0) ==> s == Step(Some(IndexError), []))
  {
  }

  /**
   * The body of the `try`: only `delete` does anything, and `int(target)`
   * raises `ValueError` before `op_delete` for a target past the digit cap.
   */
  function Dispatch(r: Remote, ins: Instruction, requester: int): Step {
    if ins.op != Delete then Step(None, [])
    else match IntOf(ins.target)
      case Err(e) => Step(Some(e), [])
      case Ok(target) => OpDelete(r, target, requester)
  }

  // ------------------------------------------------------------------ `parse`

  /** The instruction each line matches, if any. */
  function Matches(lines: seq<string>): seq<Option<Instruction>> {
    seq(|lines|, i requires 0 <= i < |lines| => MatchInstruction(lines[i]))
  }

  /**
   * The `for` loop over the matched lines from `from`, with the calls made
   * so far in `acc`: an exception other than `ValueError` or `KeyError`
   * ends it.
   */
  function RunLines(r: Remote, matched: seq<Option<Instruction>>, requester: int, from: nat, acc: seq<Effect>): (t: Step)
    requires from <= |matched|
    decreases |matched| - from
    ensures |acc| <= |t.calls| && t.calls[..|acc|] == acc
    ensures forall i :: |acc| <= i < |t.calls| ==> t.calls[i].DeleteCall?
    ensures t.error.Some? ==> !IsSwallowed(t.error.value)
  {
    if from == |matched| then Step(None, acc)
    else
      match matched[from]
      case None => RunLines(r, matched, requester, from + 1, acc)
      case Some(ins) =>
        var s := Dispatch(r, ins, requester);
        var grown := acc + s.calls;
        assert grown[..|acc|] == acc;
        assert forall i :: |acc| <= i < |grown| ==> grown[i] in s.calls;
        if s.error.Some? && !IsSwallowed(s.error.value) then Step(s.error, grown)
        else
          var t := RunLines(r, matched, requester, from + 1, grown);
          assert t.calls[..|acc|] == t.calls[..|grown|][..|acc|];
          t
  }

  /**
   * `parse(content, context)`: nothing without a block; else the lines'
   * deletions, then one reject of this ask unless an exception escaped.
   */
  function ParseAsk(r: Remote, ask: Ask): (s: Step)
    ensures FindBlock(ask.content).None? ==> s == Step(None, [])
    ensures s.error.Some? ==> !IsSwallowed(s.error.value) && forall i :: 0 <= i < |s.calls| ==> s.calls[i].DeleteCall?
    ensures s.error.None? && FindBlock(ask.content).Some? ==>
      && |s.calls| > 0 && s.calls[|s.calls| - 1] == RejectCall(ask.askId)
      && forall i :: 0 <= i < |s.calls| - 1 ==> s.calls[i].DeleteCall?
  {
    match FindBlock(ask.content)
    case None => Step(None, [])
    case Some(body) =>
      var s := RunLines(r, Matches(SplitLines(body)), ask.askingProject.projectId, 0, []);
      if s.error.Some? then s
      else
        var calls := s.calls + [RejectCall(ask.askId)];
        assert forall i :: 0 <= i < |s.calls| ==> calls[i] == s.calls[i];
        Step(None, calls)
  }

  /** A line that matches no instruction is skipped. */
  lemma RunLinesSkip(r: Remote, matched: seq<Option<Instruction>>, requester: int, from: nat, acc: seq<Effect>)
    requires from < |matched| && matched[from].None?
    ensures RunLines(r, matched, requester, from, acc) == RunLines(r, matched, requester, from + 1, acc)
  {
  }

  /** An instruction whose exception, if any, is swallowed: the loop goes on. */
  lemma RunLinesGoOn(r: Remote, matched: seq<Option<Instruction>>, requester: int, from: nat, acc: seq<Effect>, s: Step)
    requires from < |matched| && matched[from].Some? && s == Dispatch(r, matched[from].value, requester)
    requires s.error.None? || IsSwallowed(s.error.value)
    ensures RunLines(r, matched, requester, from, acc) == RunLines(r, matched, requester, from + 1, acc + s.calls)
  {
  }

  /** An instruction that raises anything else ends the loop. */
  lemma RunLinesStop(r: Remote, matched: seq<Option<Instruction>>, requester: int, from: nat, acc: seq<Effect>, s: Step)
    requires from < |matched| && matched[from].Some? && s == Dispatch(r, matched[from].value, requester)
    requires s.error.Some? && !IsSwallowed(s.error.value)
    ensures RunLines(r, matched, requester, from, acc) == Step(s.error, acc + s.calls)
  {
  }

  /** The `for` loop of `parse` over the block's lines. */
  method RunInstructions(r: Remote, instructions: seq<string>, requester: int) returns (error: Option<Exc>, calls: seq<Effect>)
    ensures Step(error, calls) == RunLines(r, Matches(instructions), requester, 0, [])
  {
    ghost var matched := Matches(instructions);
    ghost var outcome := RunLines(r, matched, requester, 0, []);
    calls := [];
    var i := 0;
    while i < |instructions|
      invariant 0 <= i <= |instructions|
      invariant RunLines(r, matched, requester, i, calls) == outcome
    {
      var m := MatchInstruction(instructions[i]);
      assert m == matched[i];
      if m.Some? {
        var s := Dispatch(r, m.value, requester);
        if s.error.Some? && !IsSwallowed(s.error.value) {
          RunLinesStop(r, matched, requester, i, calls, s);
          return s.error, calls + s.calls;
        }
        RunLinesGoOn(r, matched, requester, i, calls, s);
        calls := calls + s.calls;
      } else {
        RunLinesSkip(r, matched, requester, i, calls);
      }
      i := i + 1;
    }
    return None, calls;
  }

  /** `parse(content, context)`. */
  method Parse(r: Remote, ask: Ask) returns (error: Option<Exc>, calls: seq<Effect>)
    ensures Step(error, calls) == ParseAsk(r, ask)
  {
    var bounds := FindBlock(ask.content);
    if bounds.None? {
      return None, [];
    }
    error, calls := RunInstructions(r, SplitLines(bounds.value), ask.askingProject.projectId);
    if error.None? {
      calls := calls + [RejectCall(ask.askId)];
    }
  }

  /** The deletion one line asks for: a permitted `delete` whose target `int()` accepts. */
  function Deletion(r: Remote, m: Option<Instruction>, requester: int): seq<Effect> {
    match m
    case Some(Instruction(Delete, t)) =>
      if |t| <= IntMaxStrDigits && Permits(r, DigitsValue(t), requester) then [DeleteCall(DigitsValue(t))] else []
    case _ => []
  }

  /** The deletions the matched lines ask for that are permitted, in line order: the reference. */
  function Deletions(r: Remote, matched: seq<Option<Instruction>>, requester: int): seq<Effect> {
    if matched == [] then []
    else Deletion(r, matched[0], requester) + Deletions(r, matched[1..], requester)
  }

  /** The deletions from line `from` on: that line's, then the rest's. */
  lemma DeletionsStep(r: Remote, matched: seq<Option<Instruction>>, requester: int, from: nat)
    requires from < |matched|
    ensures Deletions(r, matched[from..], requester)
         == Deletion(r, matched[from], requester) + Deletions(r, matched[from + 1..], requester)
  {
    assert matched[from..][0] == matched[from];
    assert matched[from..][1..] == matched[from + 1..];
  }

  /** Without an escaping exception, the loop makes exactly the permitted deletions, in order. */
  lemma {:induction false} RunLinesDeletes(r: Remote, matched: seq<Option<Instruction>>, requester: int, from: nat, acc: seq<Effect>)
    requires from <= |matched|
    requires RunLines(r, matched, requester, from, acc).error.None?
    decreases |matched| - from
    ensures RunLines(r, matched, requester, from, acc).calls == acc + Deletions(r, matched[from..], requester)
  {
    if from < |matched| {
      var here := Deletion(r, matched[from], requester);
      RunLinesDeletion(r, matched, requester, from, acc);
      DeletionsStep(r, matched, requester, from);
      RunLinesDeletes(r, matched, requester, from + 1, acc + here);
      assert acc + here + Deletions(r, matched[from + 1..], requester)
          == acc + (here + Deletions(r, matched[from + 1..], requester));
    }
  }

  /** A line the loop gets past without an escaping exception adds its deletion, if any. */
  lemma RunLinesDeletion(r: Remote, matched: seq<Option<Instruction>>, requester: int, from: nat, acc: seq<Effect>)
    requires from < |matched|
    requires RunLines(r, matched, requester, from, acc).error.None?
    ensures var next := RunLines(r, matched, requester, from + 1, acc + Deletion(r, matched[from], requester));
      RunLines(r, matched, requester, from, acc) == next
  {
    match matched[from]
    case None =>
      RunLinesSkip(r, matched, requester, from, acc);
      assert acc + [] == acc;
    case Some(ins) =>
      var s := Dispatch(r, ins, requester);
      if s.error.Some? && !IsSwallowed(s.error.value) {
        RunLinesStop(r, matched, requester, from, acc, s);
        assert false;
      }
      RunLinesGoOn(r, matched, requester, from, acc, s);
      DispatchDeletes(r, ins, requester);
  }

  /**
   * The calls one instruction makes: the deletion of its target when it is
   * a `delete` within the digit cap that the requester is permitted.
   */
  lemma DispatchDeletes(r: Remote, ins: Instruction, requester: int)
    ensures var t := ins.target;
      Dispatch(r, ins, requester).calls
         == if ins.op == Delete && |t| <= IntMaxStrDigits && Permits(r, DigitsValue(t), requester)
            then [DeleteCall(DigitsValue(t))] else []
    ensures Dispatch(r, ins, requester).calls == Deletion(r, Some(ins), requester)
  {
    if ins.op == Delete && |ins.target| <= IntMaxStrDigits {
      OpDeleteAuthorisation(r, DigitsValue(ins.target), requester);
    }
  }

  /**
   * A `delete` whose target is longer than the digit cap: `int(target)`
   * raises a `ValueError`, which the `try` swallows, and nothing is called.
   */
  lemma DeleteTargetPastDigitCap(r: Remote, target: Numeral, requester: int)
    requires |target| > IntMaxStrDigits
    ensures Dispatch(r, Instruction(Delete, target), requester) == Step(Some(ValueError(DigitLimit)), [])
    ensures IsSwallowed(ValueError(DigitLimit))
  {
  }

  /** The `i`-th line is a `delete` whose target `int()` converts to `target`. */
  predicate DeletesAt(matched: seq<Option<Instruction>>, i: int, target: int)
    requires 0 <= i < |matched|
  {
    matched[i].Some? && matched[i].value.op == Delete
    && |matched[i].value.target| <= IntMaxStrDigits && DigitsValue(matched[i].value.target) == target
  }

  /** A call the handler may make for a block: a permitted deletion one of its lines names. */
  predicate Sanctioned(r: Remote, matched: seq<Option<Instruction>>, requester: int, e: Effect) {
    e.DeleteCall? && e.target >= 0 && Permits(r, e.target, requester)
    && exists i :: 0 <= i < |matched| && DeletesAt(matched, i, e.target)
  }

  /**
   * The loop only deletes, only what a `delete` line of the block names and
   * the requester is permitted to delete; an exception that ends it is
   * neither `ValueError` nor `KeyError`.
   */
  lemma {:induction false} RunLinesSafe(r: Remote, matched: seq<Option<Instruction>>, requester: int, from: nat, acc: seq<Effect>)
    requires from <= |matched|
    requires forall e :: e in acc ==> Sanctioned(r, matched, requester, e)
    decreases |matched| - from
    ensures var s := RunLines(r, matched, requester, from, acc);
      && acc <= s.calls
      && (forall e :: e in s.calls ==> Sanctioned(r, matched, requester, e))
      && (s.error.Some? ==> !IsSwallowed(s.error.value))
  {
    if from < |matched| {
      match matched[from]
      case None =>
        RunLinesSafe(r, matched, requester, from + 1, acc);
      case Some(ins) =>
        var s := Dispatch(r, ins, requester);
        DispatchDeletes(r, ins, requester);
        if s.calls != [] {
          assert DeletesAt(matched, from, DigitsValue(ins.target));
        }
        assert forall e :: e in s.calls ==> Sanctioned(r, matched, requester, e);
        RunLinesSafe(r, matched, requester, from + 1, acc + s.calls);
    }
  }

  /** Without a fenced block the ask is left alone: no call at all, no reject. */
  lemma ParseWithoutBlock(r: Remote, ask: Ask)
    requires FindBlock(ask.content).None?
    ensures ParseAsk(r, ask) == Step(None, [])
  {
  }

  /**
   * With a block, when no exception escapes: the permitted deletions in
   * line order and then the reject of this ask, once.
   */
  lemma ParseWithBlock(r: Remote, ask: Ask)
    requires FindBlock(ask.content).Some? && ParseAsk(r, ask).error.None?
    ensures ParseAsk(r, ask).calls
      == Deletions(r, Matches(SplitLines(FindBlock(ask.content).value)), ask.askingProject.projectId) + [RejectCall(ask.askId)]
  {
    var matched, q := Matches(SplitLines(FindBlock(ask.content).value)), ask.askingProject.projectId;
    RunLinesDeletes(r, matched, q, 0, []);
    assert matched[0..] == matched;
  }

  /**
   * With a block, every deletion is one a `delete` line of the block names
   * and the requester may make; an exception that escapes is neither
   * `ValueError` nor `KeyError`, and then the ask is not rejected.
   */
  lemma ParseWithBlockSafe(r: Remote, ask: Ask)
    requires FindBlock(ask.content).Some?
    ensures var matched, q, s := Matches(SplitLines(FindBlock(ask.content).value)), ask.askingProject.projectId, ParseAsk(r, ask);
      && (forall e :: e in s.calls && e.DeleteCall? ==> Sanctioned(r, matched, q, e))
      && (s.error.Some? ==> !IsSwallowed(s.error.value) && forall e :: e in s.calls ==> Sanctioned(r, matched, q, e))
  {
    var matched, q := Matches(SplitLines(FindBlock(ask.content).value)), ask.askingProject.projectId;
    RunLinesSafe(r, matched, q, 0, []);
  }
}
