/**
 * The records the bot reads (only the fields its logic touches), the post
 * classification `typeof`, and the share-lineage collapse
 * `find_the_original_content`.
 */
module Posts {
  import opened Wrappers
  import opened Errors

  datatype Project = Project(projectId: int, handle: string, displayName: Option<string>)

  /**
   * A post. `shareTree` holds the posts it reshares, oldest first, up to
   * but not including the post itself.
   */
  datatype Post = Post(
    postId: int,
    transparentShareOfPostId: Option<int>,
    shareOfPostId: Option<int>,
    tags: seq<string>,
    postingProject: Project,
    shareTree: seq<Post>,
    effectiveAdultContent: bool,
    canShare: bool)

  datatype Comment = Comment(commentId: string, body: string, children: seq<Comment>)

  /** A post with its comment threads, keyed by thread root. */
  datatype ExtendedPost = ExtendedPost(post: Post, comments: map<string, seq<Comment>>)

  /** A share that adds nothing of its own. */
  predicate IsTransparent(p: Post) {
    p.transparentShareOfPostId.Some?
  }

  /** `typeof(post)`: "post", "reply", "tags" or "share". */
  function TypeOf(p: Post): (kind: string)
    ensures kind == "post" <==> p.shareOfPostId.None?
    ensures kind == "reply" <==> p.shareOfPostId.Some? && !IsTransparent(p)
    ensures kind == "tags" <==> p.shareOfPostId.Some? && IsTransparent(p) && |p.tags| > 0
    ensures kind == "share" <==> p.shareOfPostId.Some? && IsTransparent(p) && |p.tags| == 0
  {
    if p.shareOfPostId.None? then "post"
    else if p.transparentShareOfPostId.None? then "reply"
    else if |p.tags| > 0 then "tags"
    else "share"
  }

  /**
   * The index of the last entry of the share tree that is not a
   * transparent share, scanning from the end; `None` if every entry is one.
   */
  function LastOriginal(tree: seq<Post>): (r: Option<nat>)
    ensures r.Some? ==> r.value < |tree| && !IsTransparent(tree[r.value])
    ensures r.Some? ==> forall i :: r.value < i < |tree| ==> IsTransparent(tree[i])
    ensures r.None? ==> forall i :: 0 <= i < |tree| ==> IsTransparent(tree[i])
  {
    if |tree| == 0 then None
    else if !IsTransparent(tree[|tree| - 1]) then Some(|tree| - 1)
    else LastOriginal(tree[..|tree| - 1])
  }

  /**
   * Python's `s[:stop]`: a prefix of `s` that keeps the element at `i`
   * exactly when `i < stop`, a negative `stop` counting from the end.
   */
  function SliceTo<T>(s: seq<T>, stop: int): (r: seq<T>)
    ensures |r| <= |s| && r == s[..|r|]
    ensures forall i :: 0 <= i < |s| ==> ((i < |r| && r[i] == s[i]) <==> if stop >= 0 then i < stop else i < |s| + stop)
  {
    var end := if stop >= 0 then (if stop <= |s| then stop else |s|)
               else (if |s| + stop >= 0 then |s| + stop else 0);
    s[..end]
  }

  /**
   * `find_the_original_content(post)` as written: the share tree of the
   * entry found is cut to `tree[:index + 1]`, `index` being its negative
   * position. An `IndexError` when no entry is an original.
   */
  function CollapseAsWritten(e: ExtendedPost): (r: Result<ExtendedPost, Exc>)
    ensures !IsTransparent(e.post) ==> r == Ok(e)
    ensures r.Err? <==> IsTransparent(e.post) && forall i :: 0 <= i < |e.post.shareTree| ==> IsTransparent(e.post.shareTree[i])
    ensures r.Err? ==> r.error == IndexError
    ensures r.Ok? ==> !IsTransparent(r.value.post) && r.value.comments == e.comments
    ensures r.Ok? && IsTransparent(e.post) ==>
      var kept := r.value.post.shareTree;
      |kept| <= |e.post.shareTree| && kept == e.post.shareTree[..|kept|]
  {
    if !IsTransparent(e.post) then Ok(e)
    else
      var tree := e.post.shareTree;
      match LastOriginal(tree)
      case None => Err(IndexError)
      case Some(j) =>
        var index := j - |tree|;
        Ok(ExtendedPost(tree[j].(shareTree := SliceTo(tree, index + 1)), e.comments))
  }

  /**
   * The collapse as intended: the entry found keeps as share tree exactly
   * the entries before it.
   */
  function CollapseToOriginal(e: ExtendedPost): (r: Result<ExtendedPost, Exc>)
    ensures !IsTransparent(e.post) ==> r == Ok(e)
    ensures r.Err? <==> IsTransparent(e.post) && forall i :: 0 <= i < |e.post.shareTree| ==> IsTransparent(e.post.shareTree[i])
    ensures r.Err? ==> r.error == IndexError
    ensures r.Ok? ==> !IsTransparent(r.value.post) && r.value.comments == e.comments
    ensures r.Ok? && IsTransparent(e.post) ==>
      var kept := r.value.post.shareTree;
      |kept| < |e.post.shareTree| && kept == e.post.shareTree[..|kept|]
      && e.post.shareTree[|kept|].(shareTree := kept) == r.value.post
  {
    if !IsTransparent(e.post) then Ok(e)
    else
      var tree := e.post.shareTree;
      match LastOriginal(tree)
      case None => Err(IndexError)
      case Some(j) => Ok(ExtendedPost(tree[j].(shareTree := tree[..j]), e.comments))
  }

  /** `find_the_original_content`, walking the share tree by a negative index. */
  method FindTheOriginalContent(e: ExtendedPost) returns (r: Result<ExtendedPost, Exc>)
    ensures r == CollapseAsWritten(e)
  {
    if e.post.transparentShareOfPostId.None? {
      return Ok(e);
    }
    var tree := e.post.shareTree;
    var comments := e.comments;
    var index := -1;
    if |tree| + index < 0 {
      return Err(IndexError);
    }
    var postModel := tree[|tree| + index];
    while postModel.transparentShareOfPostId.Some?
      invariant -|tree| <= index <= -1 && postModel == tree[|tree| + index]
      invariant forall i :: |tree| + index < i < |tree| ==> IsTransparent(tree[i])
      decreases |tree| + index
    {
      index := index - 1;
      if |tree| + index < 0 {
        return Err(IndexError);
      }
      postModel := tree[|tree| + index];
    }
    var modified := postModel.(shareTree := SliceTo(tree, index + 1));
    r := Ok(ExtendedPost(modified, comments));
  }

  /** A post that is not a transparent share comes back unchanged. */
  lemma NotTransparentUnchanged(e: ExtendedPost)
    requires !IsTransparent(e.post)
    ensures CollapseAsWritten(e) == Ok(e) && CollapseToOriginal(e) == Ok(e)
  {
  }

  /**
   * For a transparent share: the result is the last original entry of the
   * share tree, every later entry is transparent, the comments are the
   * input's, and an all-transparent tree raises `IndexError`.
   */
  lemma {:induction false} CollapseFindsLastOriginal(e: ExtendedPost)
    requires IsTransparent(e.post)
    ensures var tree, r := e.post.shareTree, CollapseAsWritten(e);
      && (r.Err? <==> forall i :: 0 <= i < |tree| ==> IsTransparent(tree[i]))
      && (r.Err? ==> r.error == IndexError)
      && (r.Ok? ==> exists j :: 0 <= j < |tree| && !IsTransparent(tree[j])
                     && (forall i :: j < i < |tree| ==> IsTransparent(tree[i]))
                     && r.value.post.postId == tree[j].postId
                     && r.value.post == tree[j].(shareTree := r.value.post.shareTree)
                     && r.value.comments == e.comments)
  {
    var tree := e.post.shareTree;
    match LastOriginal(tree)
    case None =>
    case Some(j) =>
      assert !IsTransparent(tree[j]);
  }

  /**
   * As written, a match at position `-k` keeps `tree[:-k + 1]`. For k >= 2
   * that is `tree[:len - k + 1]`, a prefix that ends with the matched entry
   * itself. For k = 1 the stop is 0, so the tree is empty and the entries
   * before the match are lost.
   */
  lemma {:induction false} AsWrittenShareTree(e: ExtendedPost, k: nat)
    requires IsTransparent(e.post)
    requires 1 <= k <= |e.post.shareTree| && LastOriginal(e.post.shareTree) == Some(|e.post.shareTree| - k)
    ensures var tree := e.post.shareTree;
      CollapseAsWritten(e).Ok?
      && CollapseAsWritten(e).value.post.shareTree == (if k == 1 then [] else tree[..|tree| - k + 1])
      && (k >= 2 ==> CollapseAsWritten(e).value.post.shareTree[|tree| - k] == tree[|tree| - k])
  {
  }

  /** The smallest input that shows it: the original entry is kept inside its own share tree. */
  lemma AsWrittenKeepsMatchInItsOwnTree(a: Post, b: Post, outer: Post, comments: map<string, seq<Comment>>)
    requires !IsTransparent(a) && IsTransparent(b)
    requires IsTransparent(outer) && outer.shareTree == [a, b]
    ensures CollapseAsWritten(ExtendedPost(outer, comments)) == Ok(ExtendedPost(a.(shareTree := [a]), comments))
    ensures CollapseToOriginal(ExtendedPost(outer, comments)) == Ok(ExtendedPost(a.(shareTree := []), comments))
  {
    assert LastOriginal([a, b]) == Some(0);
    assert [a, b][..1] == [a];
  }

  /** The other face of it: an original in last place loses the entries before it. */
  lemma AsWrittenDropsEntriesBefore(x: Post, a: Post, outer: Post, comments: map<string, seq<Comment>>)
    requires !IsTransparent(a)
    requires IsTransparent(outer) && outer.shareTree == [x, a]
    ensures CollapseAsWritten(ExtendedPost(outer, comments)) == Ok(ExtendedPost(a.(shareTree := []), comments))
    ensures CollapseToOriginal(ExtendedPost(outer, comments)) == Ok(ExtendedPost(a.(shareTree := [x]), comments))
  {
    assert LastOriginal([x, a]) == Some(1);
    assert [x, a][..1] == [x];
  }

  /** Corrected: the entry found keeps exactly the entries that precede it. */
  lemma {:induction false} CorrectedShareTreeIsPrefix(e: ExtendedPost)
    requires IsTransparent(e.post) && CollapseToOriginal(e).Ok?
    ensures var tree, p := e.post.shareTree, CollapseToOriginal(e).value.post;
      exists j :: 0 <= j < |tree| && p == tree[j].(shareTree := tree[..j])
               && !IsTransparent(tree[j]) && forall i :: j < i < |tree| ==> IsTransparent(tree[i])
  {
    var tree := e.post.shareTree;
    var j := LastOriginal(tree).value;
    assert !IsTransparent(tree[j]);
  }

  /** Both versions pick the same post and keep the same comments. */
  lemma {:induction false} CollapsesAgree(e: ExtendedPost)
    ensures CollapseAsWritten(e).Ok? <==> CollapseToOriginal(e).Ok?
    ensures CollapseAsWritten(e).Ok? ==>
      && CollapseAsWritten(e).value.post.postId == CollapseToOriginal(e).value.post.postId
      && CollapseAsWritten(e).value.post.(shareTree := []) == CollapseToOriginal(e).value.post.(shareTree := [])
      && CollapseAsWritten(e).value.comments == CollapseToOriginal(e).value.comments
  {
  }

  /** What the collapse finds is never a transparent share: an original post or a reply. */
  lemma {:induction false} CollapsedKind(e: ExtendedPost)
    requires CollapseToOriginal(e).Ok?
    ensures TypeOf(CollapseToOriginal(e).value.post) in {"post", "reply"}
  {
    if IsTransparent(e.post) {
      var tree := e.post.shareTree;
      var j := LastOriginal(tree).value;
      assert !IsTransparent(tree[j]);
    }
  }

  /** Share tree `[A (original), B (transparent), C (transparent)]`: the result is A with share tree `[A]`. */
  lemma ThreeEntryExample(a: Post, b: Post, c: Post, outer: Post, comments: map<string, seq<Comment>>)
    requires !IsTransparent(a) && IsTransparent(b) && IsTransparent(c)
    requires IsTransparent(outer) && outer.shareTree == [a, b, c]
    ensures CollapseAsWritten(ExtendedPost(outer, comments)) == Ok(ExtendedPost(a.(shareTree := [a]), comments))
  {
    assert [a, b, c][..2] == [a, b];
    assert LastOriginal([a, b]) == Some(0);
    assert LastOriginal([a, b, c]) == Some(0);
    assert [a, b, c][..1] == [a];
  }
}
