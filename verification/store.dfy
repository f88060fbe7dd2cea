/** The persisters `save_posts_to_db` and `save_comments_to_db`: each issues one SQL
    `MERGE` per record and commits once; a database error anywhere rolls the batch
    back. The tables are maps from their natural key to the row. */
module Store {
  import opened Posts
  import opened Comments

  type PostTable = map<string, PostRecord>
  type CommentTable = map<string, CommentRecord>

  datatype Database = Database(posts: PostTable, comments: CommentTable)

  /** Where a batch call goes wrong. `DbErrorAt(k)` is a database error raised by the
      `k`-th statement of the batch (`k` below the batch length: that record's `MERGE`;
      `k` equal to it: the commit; beyond it: nothing raises). `Escapes` is any
      exception that leaves the persister: one other than a database error, raised
      before the first statement, or a database error raised by the rollback in the
      handler. Either way the committed table is unchanged and the call raises. */
  datatype DbFault = NoFault | DbErrorAt(statement: nat) | Escapes

  /** What a persister call does: it returns with the resulting table, or raises. */
  datatype Saved<T> = Returned(table: T) | Raised

  /** Whether a database error is raised while the batch of `n` records runs. */
  predicate RaisesDbError(fault: DbFault, n: nat)
  {
    fault.DbErrorAt? && fault.statement <= n
  }

  // ---------------------------------------------------------------------------
  // Posts

  /** The columns a matched `MERGE` leaves alone: everything but score, comment count
      and upvote ratio. */
  function Frozen(row: PostRecord): PostRecord
  {
    row.(score := 0, numComments := 0, upvoteRatio := 0.0)
  }

  /** `row` with the three columns a matched `MERGE` rewrites taken from `p`. */
  function Refreshed(row: PostRecord, p: PostRecord): PostRecord
  {
    row.(score := p.score, numComments := p.numComments, upvoteRatio := p.upvoteRatio)
  }

  /** One post `MERGE`: a matched id refreshes score, comment count and upvote ratio; an
      unmatched one inserts the full record; no other row is touched. */
  function MergePost(t: PostTable, p: PostRecord): (t': PostTable)
    ensures t'.Keys == t.Keys + {p.id}
    ensures forall k :: k in t && k != p.id ==> t'[k] == t[k]
    ensures p.id !in t ==> t'[p.id] == p
    ensures p.id in t ==> Frozen(t'[p.id]) == Frozen(t[p.id])
    ensures p.id in t ==>
      (&& t'[p.id].score == p.score
       && t'[p.id].numComments == p.numComments
       && t'[p.id].upvoteRatio == p.upvoteRatio)
  {
    if p.id in t then
      t[p.id := Refreshed(t[p.id], p)]
    else
      t[p.id := p]
  }

  /** The posts of a batch merged one after the other (no commit or rollback). */
  function ApplyPosts(t: PostTable, batch: seq<PostRecord>): PostTable
    decreases |batch|
  {
    if |batch| == 0 then t
    else MergePost(ApplyPosts(t, batch[..|batch| - 1]), batch[|batch| - 1])
  }

  /** `save_posts_to_db` as a whole: a database error rolls the batch back and is
      swallowed; any other exception propagates; otherwise every merge is committed. */
  function SavePosts(t: PostTable, batch: seq<PostRecord>, fault: DbFault): (r: Saved<PostTable>)
    ensures r.Raised? <==> fault.Escapes?
    ensures RaisesDbError(fault, |batch|) ==> r == Returned(t)
    ensures !fault.Escapes? && !RaisesDbError(fault, |batch|) ==> r == Returned(ApplyPosts(t, batch))
  {
    if fault.Escapes? then Raised
    else if RaisesDbError(fault, |batch|) then Returned(t)
    else Returned(ApplyPosts(t, batch))
  }

  /** `save_posts_to_db` statement by statement: merges run against the open
      transaction, and a database error at any statement restores the table the batch
      started from. */
  method SavePostsToDb(t: PostTable, batch: seq<PostRecord>, fault: DbFault) returns (r: Saved<PostTable>)
    ensures fault.Escapes? ==> r == Raised
    ensures RaisesDbError(fault, |batch|) ==> r == Returned(t)
    ensures !fault.Escapes? && !RaisesDbError(fault, |batch|) ==> r == Returned(ApplyPosts(t, batch))
    ensures r == SavePosts(t, batch, fault)
  {
    if fault.Escapes? {
      return Raised;
    }
    var work := t;
    var i := 0;
    while i < |batch|
      invariant 0 <= i <= |batch|
      invariant work == ApplyPosts(t, batch[..i])
      invariant !(fault.DbErrorAt? && fault.statement < i)
    {
      if fault == DbErrorAt(i) {
        return Returned(t);
      }
      assert batch[..i + 1][..i] == batch[..i];
      work := MergePost(work, batch[i]);
      i := i + 1;
    }
    assert batch[..i] == batch;
    if fault == DbErrorAt(|batch|) {
      return Returned(t);
    }
    return Returned(work);
  }

  /** The ids of a batch. */
  function PostIds(batch: seq<PostRecord>): set<string>
  {
    set i | 0 <= i < |batch| :: batch[i].id
  }

  /** The last record of the batch with id `k`. */
  function LastWith(batch: seq<PostRecord>, k: string): (p: PostRecord)
    requires k in PostIds(batch)
    ensures p in batch && p.id == k
    decreases |batch|
  {
    var n := |batch| - 1;
    if batch[n].id == k then batch[n]
    else
      assert k in PostIds(batch[..n]) by {
        var i :| 0 <= i < |batch| && batch[i].id == k;
        assert batch[..n][i] == batch[i];
      }
      LastWith(batch[..n], k)
  }

  /** The first record of the batch with id `k`. */
  function FirstWith(batch: seq<PostRecord>, k: string): (p: PostRecord)
    requires k in PostIds(batch)
    ensures p in batch && p.id == k
    decreases |batch|
  {
    var n := |batch| - 1;
    if k in PostIds(batch[..n]) then FirstWith(batch[..n], k) else batch[n]
  }

  lemma PostIdsSnoc(batch: seq<PostRecord>)
    requires |batch| > 0
    ensures PostIds(batch) == PostIds(batch[..|batch| - 1]) + {batch[|batch| - 1].id}
  {
    var n := |batch| - 1;
    forall k | k in PostIds(batch) ensures k in PostIds(batch[..n]) + {batch[n].id} {
      var i :| 0 <= i < |batch| && batch[i].id == k;
      if i < n {
        assert batch[..n][i] == batch[i];
      }
    }
  }

  lemma {:induction false} ApplyPostsKeys(t: PostTable, batch: seq<PostRecord>)
    ensures ApplyPosts(t, batch).Keys == t.Keys + PostIds(batch)
    decreases |batch|
  {
    if |batch| > 0 {
      ApplyPostsKeys(t, batch[..|batch| - 1]);
      PostIdsSnoc(batch);
    }
  }

  /** The row a batch leaves under one key (see `ApplyPostsRows`). */
  function RowAfter(t: PostTable, batch: seq<PostRecord>, k: string): PostRecord
    requires k in t || k in PostIds(batch)
  {
    if k !in PostIds(batch) then t[k]
    else Refreshed(if k in t then t[k] else FirstWith(batch, k), LastWith(batch, k))
  }

  lemma RefreshedTwice(row: PostRecord, p: PostRecord, q: PostRecord)
    ensures Refreshed(Refreshed(row, p), q) == Refreshed(row, q)
  {
  }

  lemma RefreshedSelf(p: PostRecord)
    ensures Refreshed(p, p) == p
  {
  }

  lemma {:induction false} ApplyPostsRowAt(t: PostTable, batch: seq<PostRecord>, k: string)
    requires k in t || k in PostIds(batch)
    ensures k in ApplyPosts(t, batch) && ApplyPosts(t, batch)[k] == RowAfter(t, batch, k)
    decreases |batch|
  {
    ApplyPostsKeys(t, batch);
    if |batch| > 0 {
      var n := |batch| - 1;
      var prefix, last := batch[..n], batch[n];
      var before := ApplyPosts(t, prefix);
      var after := MergePost(before, last);
      assert ApplyPosts(t, batch) == after;
      PostIdsSnoc(batch);
      ApplyPostsKeys(t, prefix);
      if k in t || k in PostIds(prefix) {
        ApplyPostsRowAt(t, prefix, k);
      }
      if k != last.id {
        assert after[k] == before[k];
        if k in PostIds(prefix) {
          assert LastWith(batch, k) == LastWith(prefix, k);
          assert FirstWith(batch, k) == FirstWith(prefix, k);
        }
      } else {
        assert LastWith(batch, k) == last;
        if k in PostIds(prefix) {
          assert FirstWith(batch, k) == FirstWith(prefix, k);
          var base := if k in t then t[k] else FirstWith(prefix, k);
          assert before[k] == Refreshed(base, LastWith(prefix, k));
          assert after[k] == Refreshed(before[k], last);
          RefreshedTwice(base, LastWith(prefix, k), last);
        } else if k in t {
          assert before[k] == t[k];
          assert after[k] == Refreshed(t[k], last);
        } else {
          assert k !in before;
          assert after[k] == last;
          assert FirstWith(batch, k) == last;
          RefreshedSelf(last);
        }
      }
    }
  }

  /** The row a batch leaves under each key: keys the batch does not mention keep their
      row; a key it mentions has the immutable columns of the row that was there before
      (or of the first record with that id, if none was) and the mutable columns of the
      last record with that id (`RowAfter`). */
  lemma ApplyPostsRows(t: PostTable, batch: seq<PostRecord>)
    ensures ApplyPosts(t, batch).Keys == t.Keys + PostIds(batch)
    ensures forall k :: k in t || k in PostIds(batch) ==> ApplyPosts(t, batch)[k] == RowAfter(t, batch, k)
  {
    ApplyPostsKeys(t, batch);
    forall k | k in t || k in PostIds(batch)
      ensures ApplyPosts(t, batch)[k] == RowAfter(t, batch, k)
    {
      ApplyPostsRowAt(t, batch, k);
    }
  }

  /** Re-saving a batch that was already applied changes nothing: the ids are all
      present, and refreshing with the same values again is a no-op. */
  lemma ApplyPostsIdempotent(t: PostTable, batch: seq<PostRecord>)
    ensures ApplyPosts(ApplyPosts(t, batch), batch) == ApplyPosts(t, batch)
  {
    var once := ApplyPosts(t, batch);
    ApplyPostsRows(t, batch);
    ApplyPostsRows(once, batch);
  }

  /** A successful post save followed by the same save leaves the table as the first
      save left it. */
  lemma SavePostsTwice(t: PostTable, batch: seq<PostRecord>)
    ensures SavePosts(t, batch, NoFault) == Returned(ApplyPosts(t, batch))
    ensures SavePosts(ApplyPosts(t, batch), batch, NoFault) == SavePosts(t, batch, NoFault)
  {
    ApplyPostsIdempotent(t, batch);
  }

  // ---------------------------------------------------------------------------
  // Comments

  /** One comment `MERGE`: insert-only. A known comment id leaves the table as it was; a
      new one is inserted with the post id given to the persister. */
  function MergeComment(t: CommentTable, c: CommentRecord, postId: string): (t': CommentTable)
    ensures t'.Keys == t.Keys + {c.commentId}
    ensures forall k :: k in t ==> t'[k] == t[k]
    ensures c.commentId !in t ==> t'[c.commentId].postId == postId
    ensures c.commentId !in t ==> t'[c.commentId].(postId := c.postId) == c
  {
    if c.commentId in t then t else t[c.commentId := c.(postId := postId)]
  }

  /** The comments of a batch merged one after the other. */
  function ApplyComments(t: CommentTable, batch: seq<CommentRecord>, postId: string): CommentTable
    decreases |batch|
  {
    if |batch| == 0 then t
    else MergeComment(ApplyComments(t, batch[..|batch| - 1], postId), batch[|batch| - 1], postId)
  }

  function CommentIds(batch: seq<CommentRecord>): set<string>
  {
    set i | 0 <= i < |batch| :: batch[i].commentId
  }

  /** The first record of the batch with comment id `k`. */
  function FirstCommentWith(batch: seq<CommentRecord>, k: string): (c: CommentRecord)
    requires k in CommentIds(batch)
    ensures c in batch && c.commentId == k
    decreases |batch|
  {
    var n := |batch| - 1;
    if k in CommentIds(batch[..n]) then FirstCommentWith(batch[..n], k)
    else
      assert batch[n].commentId == k by {
        var i :| 0 <= i < |batch| && batch[i].commentId == k;
      }
      batch[n]
  }

  lemma CommentIdsSnoc(batch: seq<CommentRecord>)
    requires |batch| > 0
    ensures CommentIds(batch) == CommentIds(batch[..|batch| - 1]) + {batch[|batch| - 1].commentId}
  {
    var n := |batch| - 1;
    forall k | k in CommentIds(batch) ensures k in CommentIds(batch[..n]) + {batch[n].commentId} {
      var i :| 0 <= i < |batch| && batch[i].commentId == k;
      if i < n {
        assert batch[..n][i] == batch[i];
      }
    }
  }

  /** A comment batch only inserts: rows already stored never change, and each new key
      holds the first record with that id, attached to the given post. */
  lemma {:induction false} ApplyCommentsRows(t: CommentTable, batch: seq<CommentRecord>, postId: string)
    ensures ApplyComments(t, batch, postId).Keys == t.Keys + CommentIds(batch)
    ensures forall k :: k in t ==> ApplyComments(t, batch, postId)[k] == t[k]
    ensures forall k :: k in CommentIds(batch) && k !in t ==>
      ApplyComments(t, batch, postId)[k] == FirstCommentWith(batch, k).(postId := postId)
    decreases |batch|
  {
    if |batch| > 0 {
      ApplyCommentsRows(t, batch[..|batch| - 1], postId);
      CommentIdsSnoc(batch);
    }
  }

  /** A batch whose ids are all stored already is a no-op. */
  lemma ApplyStoredCommentsNoop(t: CommentTable, batch: seq<CommentRecord>, postId: string)
    requires CommentIds(batch) <= t.Keys
    ensures ApplyComments(t, batch, postId) == t
  {
    ApplyCommentsRows(t, batch, postId);
  }

  /** Re-applying a comment batch is a no-op. */
  lemma ApplyCommentsIdempotent(t: CommentTable, batch: seq<CommentRecord>, postId: string)
    ensures ApplyComments(ApplyComments(t, batch, postId), batch, postId) == ApplyComments(t, batch, postId)
  {
    ApplyCommentsRows(t, batch, postId);
    ApplyStoredCommentsNoop(ApplyComments(t, batch, postId), batch, postId);
  }

  /** `save_comments_to_db` as a whole: a database error rolls the batch back and is
      swallowed; any other exception propagates; otherwise every merge is committed. */
  function SaveComments(t: CommentTable, batch: seq<CommentRecord>, postId: string, fault: DbFault): (r: Saved<CommentTable>)
    ensures r.Raised? <==> fault.Escapes?
    ensures RaisesDbError(fault, |batch|) ==> r == Returned(t)
    ensures !fault.Escapes? && !RaisesDbError(fault, |batch|) ==> r == Returned(ApplyComments(t, batch, postId))
  {
    if fault.Escapes? then Raised
    else if RaisesDbError(fault, |batch|) then Returned(t)
    else Returned(ApplyComments(t, batch, postId))
  }

  /** `save_comments_to_db` statement by statement, with rollback on a database error. */
  method SaveCommentsToDb(t: CommentTable, batch: seq<CommentRecord>, postId: string, fault: DbFault)
    returns (r: Saved<CommentTable>)
    ensures fault.Escapes? ==> r == Raised
    ensures RaisesDbError(fault, |batch|) ==> r == Returned(t)
    ensures !fault.Escapes? && !RaisesDbError(fault, |batch|) ==> r == Returned(ApplyComments(t, batch, postId))
    ensures r == SaveComments(t, batch, postId, fault)
  {
    if fault.Escapes? {
      return Raised;
    }
    var work := t;
    var i := 0;
    while i < |batch|
      invariant 0 <= i <= |batch|
      invariant work == ApplyComments(t, batch[..i], postId)
      invariant !(fault.DbErrorAt? && fault.statement < i)
    {
      if fault == DbErrorAt(i) {
        return Returned(t);
      }
      assert batch[..i + 1][..i] == batch[..i];
      work := MergeComment(work, batch[i], postId);
      i := i + 1;
    }
    assert batch[..i] == batch;
    if fault == DbErrorAt(|batch|) {
      return Returned(t);
    }
    return Returned(work);
  }
}
