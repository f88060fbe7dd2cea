/** The collection loop `get_top_posts`: a fold over the ranked items in which each
    item is normalised, its comments collected, and both saved, with a per-item `try`
    that skips the rest of an item on any exception. */
module Collector {
  import opened Wrappers
  import opened Posts
  import opened Comments
  import opened Store

  /** The `limit` passed to the ranked listing request. */
  const RankedLimit: nat := 10

  /** Everything one ranked item brings to the loop: the raw post, what the comment
      request returns for it, and how each of its two save calls goes. */
  datatype ItemInput = ItemInput(raw: RawPost, fetch: CommentFetch, postFault: DbFault, commentFault: DbFault)

  /** What happens to one item. */
  datatype Fate =
    | Aborted                                                   // no `id`: the error handler itself raises
    | Skipped(missing: Field)                                   // `_extract_post_data` raised
    | CommentsFailed(post: PostRecord)                          // `collect_comments` raised
    | SaveRaised(post: PostRecord, comments: seq<CommentRecord>) // a save call raised
    | Completed(post: PostRecord, comments: seq<CommentRecord>)  // everything ran, then the pause

  /** The fate of an item, following the statement order of the loop body. */
  function FateOf(item: ItemInput): (f: Fate)
    ensures f.Aborted? <==> item.raw.id.Missing?
    ensures f.Skipped? ==> ExtractPostData(item.raw) == Failure(f.missing)
    ensures !f.Aborted? && !f.Skipped? ==> ExtractPostData(item.raw) == Success(f.post)
    ensures f.CommentsFailed? ==> CollectComments(f.post.id, item.fetch, None).None?
    ensures f.SaveRaised? || f.Completed? ==> CollectComments(f.post.id, item.fetch, None) == Some(f.comments)
    ensures f.Completed? <==> !f.Aborted? && !f.Skipped? && !f.CommentsFailed? && !item.postFault.Escapes? && !item.commentFault.Escapes?
  {
    if item.raw.id.Missing? then Aborted
    else match ExtractPostData(item.raw)
      case Failure(field) => Skipped(field)
      case Success(post) =>
        match CollectComments(post.id, item.fetch, None)
        case None => CommentsFailed(post)
        case Some(comments) =>
          if item.postFault.Escapes? || item.commentFault.Escapes? then SaveRaised(post, comments)
          else Completed(post, comments)
  }

  /** The two save calls of one item: the post as a one-record batch, then (only if that
      call returned) its comments under the post's id. */
  function SaveItem(db: Database, post: PostRecord, comments: seq<CommentRecord>, item: ItemInput): Database
  {
    match SavePosts(db.posts, [post], item.postFault)
    case Raised => db
    case Returned(posts) =>
      match SaveComments(db.comments, comments, post.id, item.commentFault)
      case Raised => db.(posts := posts)
      case Returned(stored) => Database(posts, stored)
  }

  /** The state the loop accumulates: the posts and comments datasets, the database,
      the number of one-second pauses taken, and whether the run has ended early. */
  datatype Collected = Collected(
    posts: seq<PostRecord>,
    comments: seq<CommentRecord>,
    db: Database,
    pauses: nat,
    stopped: bool)

  /** One iteration of the loop body. The post is appended before its comments are
      requested, and the pause is the last statement of the `try`. */
  function Step(a: Collected, item: ItemInput): Collected
  {
    match FateOf(item)
    case Aborted => a.(stopped := true)
    case Skipped(_) => a
    case CommentsFailed(post) => a.(posts := a.posts + [post])
    case SaveRaised(post, comments) =>
      a.(posts := a.posts + [post], comments := a.comments + comments, db := SaveItem(a.db, post, comments, item))
    case Completed(post, comments) =>
      a.(posts := a.posts + [post], comments := a.comments + comments, db := SaveItem(a.db, post, comments, item),
         pauses := a.pauses + 1)
  }

  /** The loop over `items` continued from state `a`; once stopped, nothing more runs. */
  function Resume(a: Collected, items: seq<ItemInput>): Collected
    decreases |items|
  {
    if |items| == 0 then a
    else
      var r := Resume(a, items[..|items| - 1]);
      if r.stopped then r else Step(r, items[|items| - 1])
  }

  function Initial(db: Database): Collected
  {
    Collected([], [], db, 0, false)
  }

  /** `get_top_posts`. `listing` is `None` when the ranked-listing request raises, which
      ends the run before the loop; otherwise the library returns at most `RankedLimit`
      items of the feed. */
  function GetTopPosts(db: Database, listing: Option<seq<ItemInput>>): Collected
  {
    match listing
    case None => Initial(db).(stopped := true)
    case Some(feed) => Resume(Initial(db), Ranked(feed))
  }

  /** The items the ranked request yields. */
  function Ranked(feed: seq<ItemInput>): (items: seq<ItemInput>)
    ensures items <= feed && |items| <= RankedLimit
  {
    if |feed| <= RankedLimit then feed else feed[..RankedLimit]
  }

  // ---------------------------------------------------------------------------
  // Reference definitions, one concern each

  /** No item lacks its id. */
  predicate NoneAborts(items: seq<ItemInput>)
  {
    forall i :: 0 <= i < |items| ==> items[i].raw.id.Has?
  }

  /** The records `_extract_post_data` produces for the items, in ranked order. */
  function ExtractedPosts(items: seq<ItemInput>): seq<PostRecord>
    decreases |items|
  {
    if |items| == 0 then []
    else
      ExtractedPosts(items[..|items| - 1])
        + (match ExtractPostData(items[|items| - 1].raw) case Success(p) => [p] case Failure(_) => [])
  }

  /** The comment records of the items whose post was extracted, in ranked order. */
  function ExtractedComments(items: seq<ItemInput>): seq<CommentRecord>
    decreases |items|
  {
    if |items| == 0 then []
    else
      var last := items[|items| - 1];
      ExtractedComments(items[..|items| - 1])
        + match ExtractPostData(last.raw)
          case Failure(_) => []
          case Success(p) =>
            match CollectComments(p.id, last.fetch, None)
            case Some(comments) => comments
            case None => []
  }

  /** The number of items for which nothing raised. */
  function CompletedCount(items: seq<ItemInput>): nat
    decreases |items|
  {
    if |items| == 0 then 0
    else CompletedCount(items[..|items| - 1]) + (if FateOf(items[|items| - 1]).Completed? then 1 else 0)
  }

  /** Every collected comment is a depth-0 comment of a collected post. */
  predicate CommentsBelongToPosts(a: Collected)
  {
    forall k :: 0 <= k < |a.comments| ==> a.comments[k].postId in PostIds(a.posts) && a.comments[k].depth == 0
  }

  // ---------------------------------------------------------------------------
  // Per-item behaviour

  /** An item whose extraction fails (but which has an id) leaves the state as it was. */
  lemma ExtractionFailureSkipsItem(a: Collected, item: ItemInput)
    requires item.raw.id.Has? && ExtractPostData(item.raw).Failure?
    ensures Step(a, item) == a
  {
  }

  /** A failed comment request keeps the already appended post but adds no comments,
      saves nothing and takes no pause. */
  lemma CommentFailureKeepsPost(a: Collected, item: ItemInput, p: PostRecord)
    requires ExtractPostData(item.raw) == Success(p)
    requires CollectComments(p.id, item.fetch, None).None?
    ensures Step(a, item) == a.(posts := a.posts + [p])
  {
  }

  // ---------------------------------------------------------------------------
  // The whole loop

  /** The loop is a fold: running `x` then `y` is running `x + y`. */
  lemma {:induction false} ResumeAppend(a: Collected, x: seq<ItemInput>, y: seq<ItemInput>)
    ensures Resume(a, x + y) == Resume(Resume(a, x), y)
    decreases |y|
  {
    if |y| == 0 {
      assert x + y == x;
    } else {
      assert (x + y)[..|x + y| - 1] == x + y[..|y| - 1];
      ResumeAppend(a, x, y[..|y| - 1]);
    }
  }

  /** Without an item lacking its id, the run visits every item: its posts are exactly
      the successful extractions, its comments those of the extracted posts whose comment
      request succeeded, and it pauses once per item for which nothing raised. */
  lemma {:induction false} RunWithoutAbort(db: Database, items: seq<ItemInput>)
    requires NoneAborts(items)
    ensures !Resume(Initial(db), items).stopped
    ensures Resume(Initial(db), items).posts == ExtractedPosts(items)
    ensures Resume(Initial(db), items).comments == ExtractedComments(items)
    ensures Resume(Initial(db), items).pauses == CompletedCount(items)
    decreases |items|
  {
    if |items| > 0 {
      var n := |items| - 1;
      assert NoneAborts(items[..n]) by {
        forall i | 0 <= i < n ensures items[..n][i].raw.id.Has? {
          assert items[..n][i] == items[i];
        }
      }
      RunWithoutAbort(db, items[..n]);
    }
  }

  /** An item without an id ends the run: nothing after it is attempted. */
  lemma {:induction false} MissingIdEndsRun(a: Collected, x: seq<ItemInput>, bad: ItemInput, y: seq<ItemInput>)
    requires !Resume(a, x).stopped
    requires bad.raw.id.Missing?
    ensures Resume(a, x + [bad] + y) == Resume(a, x).(stopped := true)
    decreases |y|
  {
    ResumeAppend(a, x + [bad], y);
    ResumeAppend(a, x, [bad]);
    assert [bad][..0] == [];
    StoppedStaysStopped(Resume(a, x + [bad]), y);
  }

  lemma {:induction false} StoppedStaysStopped(a: Collected, items: seq<ItemInput>)
    requires a.stopped
    ensures Resume(a, items) == a
    decreases |items|
  {
    if |items| > 0 {
      StoppedStaysStopped(a, items[..|items| - 1]);
    }
  }

  /** Per-item isolation: an item whose extraction fails has no effect on the run. */
  lemma SkippedItemIsInvisible(a: Collected, x: seq<ItemInput>, bad: ItemInput, y: seq<ItemInput>)
    requires bad.raw.id.Has? && ExtractPostData(bad.raw).Failure?
    ensures Resume(a, x + [bad] + y) == Resume(a, x + y)
  {
    ResumeAppend(a, x + [bad], y);
    ResumeAppend(a, x, [bad]);
    ResumeAppend(a, x, y);
    assert [bad][..0] == [];
  }

  // ---------------------------------------------------------------------------
  // What the run does to the datasets and the database

  /** The database after `after` extends the one before: no post disappears, new post
      keys are ids from `postIds`, stored comments are never changed, and every new
      comment row belongs to a post whose id is in `postIds`. */
  predicate Extends(before: Database, after: Database, postIds: set<string>)
  {
    && before.posts.Keys <= after.posts.Keys <= before.posts.Keys + postIds
    && before.comments.Keys <= after.comments.Keys
    && (forall k :: k in before.comments ==> after.comments[k] == before.comments[k])
    && (forall k :: k in after.comments && k !in before.comments ==> after.comments[k].postId in postIds)
  }

  lemma SaveItemExtends(db: Database, post: PostRecord, comments: seq<CommentRecord>, item: ItemInput)
    ensures Extends(db, SaveItem(db, post, comments, item), {post.id})
  {
    ApplyPostsKeys(db.posts, [post]);
    assert PostIds([post]) == {post.id};
    ApplyCommentsRows(db.comments, comments, post.id);
  }

  lemma StepAppendsAtMostOnePost(a: Collected, item: ItemInput)
    ensures a.posts <= Step(a, item).posts && |Step(a, item).posts| <= |a.posts| + 1
    ensures FateOf(item).Aborted? || FateOf(item).Skipped? ==> Step(a, item).posts == a.posts
    ensures !FateOf(item).Aborted? && !FateOf(item).Skipped? ==> Step(a, item).posts == a.posts + [FateOf(item).post]
  {
  }

  lemma StepKeepsCommentsAttached(a: Collected, item: ItemInput)
    requires CommentsBelongToPosts(a)
    ensures CommentsBelongToPosts(Step(a, item))
  {
    var f := FateOf(item);
    var r := Step(a, item);
    if f.CommentsFailed? {
      assert (a.posts + [f.post])[..|a.posts|] == a.posts;
      PostIdsSnoc(a.posts + [f.post]);
    } else if f.SaveRaised? || f.Completed? {
      var cs := f.comments;
      assert (a.posts + [f.post])[..|a.posts|] == a.posts;
      PostIdsSnoc(a.posts + [f.post]);
      assert r.posts == a.posts + [f.post];
      assert r.comments == a.comments + cs;
      forall k | 0 <= k < |r.comments|
        ensures r.comments[k].postId in PostIds(r.posts) && r.comments[k].depth == 0
      {
        if k >= |a.comments| {
          assert r.comments[k] == cs[k - |a.comments|];
        }
      }
    }
  }

  lemma StepExtendsDatabase(a: Collected, item: ItemInput)
    ensures Extends(a.db, Step(a, item).db, PostIds(Step(a, item).posts))
  {
    var f := FateOf(item);
    var r := Step(a, item);
    if f.SaveRaised? || f.Completed? {
      SaveItemExtends(a.db, f.post, f.comments, item);
      assert (a.posts + [f.post])[..|a.posts|] == a.posts;
      PostIdsSnoc(a.posts + [f.post]);
      assert r.posts == a.posts + [f.post];
      assert r.db == SaveItem(a.db, f.post, f.comments, item);
    }
  }

  /** One iteration keeps every collected comment attached to a collected post, appends
      at most one post, and only extends the database. */
  lemma StepPreserves(a: Collected, item: ItemInput)
    requires CommentsBelongToPosts(a)
    ensures CommentsBelongToPosts(Step(a, item))
    ensures a.posts <= Step(a, item).posts && |Step(a, item).posts| <= |a.posts| + 1
    ensures Extends(a.db, Step(a, item).db, PostIds(Step(a, item).posts))
  {
    StepAppendsAtMostOnePost(a, item);
    StepKeepsCommentsAttached(a, item);
    StepExtendsDatabase(a, item);
  }

  /** The whole loop: comments stay attached to collected posts, the posts dataset only
      grows and gains at most one post per item, and the database only gains post rows
      for collected posts and comment rows attached to collected posts, while stored
      comments never change. */
  lemma {:induction false} ResumePreserves(a: Collected, items: seq<ItemInput>)
    requires CommentsBelongToPosts(a)
    ensures CommentsBelongToPosts(Resume(a, items))
    ensures a.posts <= Resume(a, items).posts
    ensures |Resume(a, items).posts| <= |a.posts| + |items|
    ensures Extends(a.db, Resume(a, items).db, PostIds(Resume(a, items).posts))
    decreases |items|
  {
    if |items| > 0 {
      var n := |items| - 1;
      var r := Resume(a, items[..n]);
      ResumePreserves(a, items[..n]);
      if !r.stopped {
        StepPreserves(r, items[n]);
        var r' := Step(r, items[n]);
        assert PostIds(r.posts) <= PostIds(r'.posts) by {
          forall k | k in PostIds(r.posts) ensures k in PostIds(r'.posts) {
            var i :| 0 <= i < |r.posts| && r.posts[i].id == k;
            assert r'.posts[i] == r.posts[i];
          }
        }
      }
    }
  }

  /** `get_top_posts` returns at most `RankedLimit` posts, every returned comment is a
      depth-0 comment of a returned post, and the database only gains post rows for
      returned posts and comment rows attached to them, while stored comments keep their
      rows. A failed listing request returns
      empty datasets and leaves the database alone. */
  lemma GetTopPostsSpec(db: Database, listing: Option<seq<ItemInput>>)
    ensures |GetTopPosts(db, listing).posts| <= RankedLimit
    ensures listing.Some? ==> |GetTopPosts(db, listing).posts| <= |listing.value|
    ensures CommentsBelongToPosts(GetTopPosts(db, listing))
    ensures Extends(db, GetTopPosts(db, listing).db, PostIds(GetTopPosts(db, listing).posts))
    ensures listing.None? ==> GetTopPosts(db, listing) == Collected([], [], db, 0, true)
  {
    if listing.Some? {
      ResumePreserves(Initial(db), Ranked(listing.value));
    }
  }
}
