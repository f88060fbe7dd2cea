/** Comment extraction `collect_comments`: the library's top-level comment list, with
    its "load more" placeholders removed, is truncated by the optional limit and each
    comment becomes a comment record. */
module Comments {
  import opened Wrappers
  import opened Text
  import opened Seqs

  /** A comment as the platform library exposes it; each attribute may be absent. */
  datatype RawComment = RawComment(
    id: Attr<string>,
    author: Attr<string>,
    body: Attr<string>,
    score: Attr<int>,
    createdUtc: Attr<int>,
    isSubmitter: Attr<bool>,
    parentId: Attr<string>)

  /** One row of the comments dataset and of the `comments` table. */
  datatype CommentRecord = CommentRecord(
    postId: string,
    commentId: string,
    author: string,
    body: string,
    score: int,
    createdUtc: int,
    isSubmitter: bool,
    parentId: string,
    depth: int)

  /** What the library returns for a post's comments: the top-level list with
      its "load more" placeholders removed, or a failure (lookup, network). */
  datatype CommentFetch = FetchFailed | Fetched(comments: seq<RawComment>)

  predicate Complete(c: RawComment)
  {
    && c.id.Has? && c.author.Has? && c.body.Has? && c.score.Has?
    && c.createdUtc.Has? && c.isSubmitter.Has? && c.parentId.Has?
  }

  /** The body of the per-comment `try`: a record for a complete comment, nothing when an
      attribute is absent. */
  function ExtractComment(postId: string, c: RawComment): (r: Option<CommentRecord>)
    ensures r.Some? <==> Complete(c)
    ensures r.Some? ==> r.value.postId == postId && r.value.depth == 0
    ensures r.Some? ==> r.value.body == CleanText(c.body.value)
    ensures r.Some? ==>
      (&& c.id == Has(r.value.commentId) && c.author == Has(r.value.author)
       && c.score == Has(r.value.score) && c.createdUtc == Has(r.value.createdUtc)
       && c.isSubmitter == Has(r.value.isSubmitter) && c.parentId == Has(r.value.parentId))
  {
    if !Complete(c) then None
    else Some(CommentRecord(postId, c.id.value, c.author.value, CleanText(c.body.value),
                            c.score.value, c.createdUtc.value, c.isSubmitter.value,
                            c.parentId.value, 0))
  }

  /** A stored comment body is `clean_text` of the raw body: no brackets, no whitespace
      but `' '`, and its non-space characters are the raw body's non-whitespace,
      non-bracket characters in order. */
  lemma ExtractedBodyIsClean(postId: string, c: RawComment)
    requires Complete(c)
    ensures ExtractComment(postId, c).Some?
    ensures var b := ExtractComment(postId, c).value.body;
      && (forall i :: 0 <= i < |b| ==> !IsBracket(b[i]))
      && (forall i :: 0 <= i < |b| && IsSpace(b[i]) ==> b[i] == ' ')
      && Filter(b, NotSpace) == Filter(c.body.value, Kept)
  {
    CleanTextSpec(c.body.value);
  }

  /** `xs[:limit] if limit else xs` with Python's slice semantics: no limit or a zero
      limit keeps everything, a positive one keeps a prefix of at most that length, a
      negative one drops that many elements from the end. */
  function TakeLimit<T>(xs: seq<T>, limit: Option<int>): (r: seq<T>)
    ensures r <= xs
    ensures limit == None || limit == Some(0) ==> r == xs
    ensures limit.Some? && limit.value > 0 ==> |r| == if limit.value < |xs| then limit.value else |xs|
    ensures limit.Some? && limit.value < 0 ==> |r| == if |xs| + limit.value > 0 then |xs| + limit.value else 0
  {
    match limit
    case None => xs
    case Some(n) =>
      if n == 0 then xs
      else if n > 0 then (if n < |xs| then xs[..n] else xs)
      else (if |xs| + n > 0 then xs[..|xs| + n] else [])
  }

  /** Whether every comment carries an id. The error handler reads `comment.id` again, so
      a comment without one makes the handler itself raise. */
  predicate AllHaveIds(cs: seq<RawComment>)
  {
    forall i :: 0 <= i < |cs| ==> cs[i].id.Has?
  }

  /** The per-comment loop: complete comments become records in order, incomplete ones
      are dropped, and a comment without an id aborts the whole call. */
  function ExtractAll(postId: string, cs: seq<RawComment>): (r: Option<seq<CommentRecord>>)
    ensures r.Some? <==> AllHaveIds(cs)
    ensures r.Some? ==> |r.value| <= |cs|
    ensures r.Some? ==> forall k :: 0 <= k < |r.value| ==> r.value[k].postId == postId && r.value[k].depth == 0
  {
    if |cs| == 0 then Some([])
    else
      var rest := ExtractAll(postId, cs[1..]);
      match ExtractComment(postId, cs[0])
      case Some(rec) => (if rest.Some? then Some([rec] + rest.value) else None)
      case None => (if cs[0].id.Missing? then None else rest)
  }

  /** `collect_comments(post_id, limit)`. `None` stands for the call raising. */
  function CollectComments(postId: string, fetch: CommentFetch, limit: Option<int>): (r: Option<seq<CommentRecord>>)
    ensures r.Some? <==> fetch.Fetched? && AllHaveIds(TakeLimit(fetch.comments, limit))
    ensures r.Some? && limit.Some? && limit.value > 0 ==> |r.value| <= limit.value
    ensures r.Some? ==> |r.value| <= |fetch.comments|
    ensures r.Some? ==> forall k :: 0 <= k < |r.value| ==> r.value[k].postId == postId && r.value[k].depth == 0
  {
    match fetch
    case FetchFailed => None
    case Fetched(cs) => ExtractAll(postId, TakeLimit(cs, limit))
  }

  // ---------------------------------------------------------------------------
  // Order and per-comment isolation

  /** Records of a list whose comments all carry ids. */
  function Records(postId: string, cs: seq<RawComment>): seq<CommentRecord>
    requires AllHaveIds(cs)
  {
    ExtractAll(postId, cs).value
  }

  lemma AllHaveIdsSplit(a: seq<RawComment>, b: seq<RawComment>)
    ensures AllHaveIds(a + b) <==> AllHaveIds(a) && AllHaveIds(b)
  {
    assert forall i :: 0 <= i < |a| ==> a[i] == (a + b)[i];
    assert forall i :: 0 <= i < |b| ==> b[i] == (a + b)[|a| + i];
    assert forall i :: 0 <= i < |a + b| ==> (a + b)[i] == if i < |a| then a[i] else b[i - |a|];
  }

  /** Extraction distributes over concatenation: the records of `a + b` are those of `a`
      followed by those of `b`, so the output keeps the input order. */
  lemma {:induction false} ExtractAllConcat(postId: string, a: seq<RawComment>, b: seq<RawComment>)
    requires AllHaveIds(a + b)
    ensures AllHaveIds(a) && AllHaveIds(b)
    ensures Records(postId, a + b) == Records(postId, a) + Records(postId, b)
  {
    AllHaveIdsSplit(a, b);
    if |a| == 0 {
      assert a + b == b;
    } else {
      assert (a + b)[0] == a[0];
      assert (a + b)[1..] == a[1..] + b;
      AllHaveIdsSplit(a[1..], b);
      ExtractAllConcat(postId, a[1..], b);
    }
  }

  /** A single comment yields its record, or nothing if an attribute is absent. */
  lemma RecordsSingle(postId: string, c: RawComment)
    requires c.id.Has?
    ensures Records(postId, [c]) == if Complete(c) then [ExtractComment(postId, c).value] else []
  {
    assert [c][1..] == [];
  }

  /** Per-comment isolation: a comment whose extraction fails (but which has an id) is
      dropped and its siblings' records are exactly what they would be without it. */
  lemma DroppedCommentLeavesSiblings(postId: string, a: seq<RawComment>, bad: RawComment, b: seq<RawComment>)
    requires AllHaveIds(a + [bad] + b)
    requires !Complete(bad)
    ensures AllHaveIds(a + b)
    ensures Records(postId, a + [bad] + b) == Records(postId, a + b)
  {
    AllHaveIdsSplit(a + [bad], b);
    AllHaveIdsSplit(a, [bad]);
    AllHaveIdsSplit(a, b);
    ExtractAllConcat(postId, a + [bad], b);
    ExtractAllConcat(postId, a, [bad]);
    RecordsSingle(postId, bad);
    ExtractAllConcat(postId, a, b);
  }
}
