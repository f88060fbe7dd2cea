# RedditCollector ingest core in Dafny

This project models the record-shaping and merge logic of `RedditCollector`
(`src/collector.py`), the class that pulls the month's top posts from r/all, normalises
them and their comments into flat records, and upserts them into the `posts` and
`comments` tables. Everything is a pure function over immutable datatypes. The one
exception is the two persisters, which are also written as methods that run the
statement-by-statement transaction loop.

| file | module | models |
|---|---|---|
| `wrappers.dfy` | `Wrappers` | `Option`, `Result`, and `Attr`, an attribute of a library object that may be absent (reading a `Missing` one is an `AttributeError`) |
| `seqs.dfy` | `Seqs` | `Filter` / `Flatten` and their algebra |
| `text.dfy` | `Text` | `clean_text`: `' '.join(text.split())`, then four `replace` calls removing `[ ] ( )` |
| `posts.dfy` | `Posts` | `_extract_post_data`: raw item to post record, including the derived columns |
| `comments.dfy` | `Comments` | `collect_comments`: limit slicing, per-comment extraction and isolation |
| `store.dfy` | `Store` | `save_posts_to_db` / `save_comments_to_db`: `MERGE` semantics on maps, with commit/rollback per batch |
| `collector.dfy` | `Collector` | `get_top_posts`: the per-item `try`/`continue` fold, its datasets, its pauses and its database effects |

Conventions:
- Whitespace is the set of characters Python's `str.split()` splits on (`Text.IsSpace`).
- Each raw attribute is an `Attr`.
- The outcome of each call to the library or the database is an input:
  - `CommentFetch` is the top-level comment list, or a failure.
  - `DbFault` says which statement of a batch raises a database error, if any. A
    non-database exception, or a database error raised by the rollback itself, is
    `Escapes`.
  - `listing = None` means the ranked request itself raised.
- `time.sleep(1)` is counted as `pauses`.

Points where the code behaves differently than a reader might expect; the model follows the code:
- **`clean_text` is not idempotent.** `"a ( b"` becomes `"a  b"`, and a second pass
  gives `"a b"` (`Text.CleanTextNotIdempotent`, generalised by
  `Text.LoneBracketLeavesDoubleSpace`). What does hold: it is stable after two
  passes, and whitespace collapsing alone is idempotent.
- **The pause runs only after a fully successful item.** It is the last statement
  inside the `try` (line 52), so an item whose comment request or save raised
  takes no pause.
- **A post without `id` ends the whole run.** Line 39 reads `post.id` inside the
  per-item `try`, and the handler at line 54 reads it again. So the handler itself
  raises, the outer handler (lines 59-61) catches it, and the datasets are returned
  as accumulated so far (`Collector.MissingIdEndsRun`). Per-item isolation therefore
  holds only for items that have an id.
- **A comment without `id` makes `collect_comments` raise.** The handler at line 187
  reads `comment.id`. The loop then keeps the post but drops its comments.
- **Only top-level comments are collected.** `list(submission.comments)` iterates the
  top-level comment forest, so the hard-wired `depth: 0` is accurate for what is
  collected. Nothing is flattened.
- **A negative `limit` drops elements from the end.** `[:limit] if limit else` uses
  Python's slice rules, so `None` and `0` both mean "all".

## Model

| member | source | states |
|---|---|---|
| `Text.Words` | src/collector.py:160 | no ensures beyond "every element is a word"; stated by `Text.WordsKeepNonSpace`, `Text.WordCountIsRunCount` and `Text.SplitJoinRoundTrip` |
| `Text.WordsKeepNonSpace` | src/collector.py:160 | `split()` loses exactly the whitespace: the words, concatenated, are the input's non-whitespace characters in order |
| `Text.WordCountIsRunCount` | src/collector.py:82 | the number of words `split()` returns equals the number of maximal non-whitespace runs (whitespace-to-non-whitespace transitions) |
| `Text.Join` | src/collector.py:160 | no ensures of its own; stated by `Text.SplitJoinRoundTrip` and `Text.CollapseIsCollapsed` |
| `Text.SplitJoinRoundTrip` | src/collector.py:160 | splitting a space-joined list of words returns that list |
| `Text.Collapse` | src/collector.py:160 | no ensures of its own; stated by `Text.CollapseIdempotent`, `Text.CollapseKeepsNonSpace`, `Text.CollapseIsCollapsed` and `Text.CollapseFixpointIff` |
| `Text.CollapseIdempotent` | src/collector.py:160 | `' '.join(s.split())` is idempotent |
| `Text.CollapseKeepsNonSpace` | src/collector.py:160 | collapsing keeps the non-whitespace characters, in order |
| `Text.CollapseIsCollapsed` | src/collector.py:160 | after collapsing, the only whitespace is single `' '` characters with non-whitespace on both sides |
| `Text.CollapsedIsFixpoint` | src/collector.py:160 | a text whose only whitespace is single inner `' '` characters is returned unchanged by `' '.join(s.split())` |
| `Text.CollapseFixpointIff` | src/collector.py:160 | `' '.join(t.split()) == t` holds exactly when `t` is collapsed (both directions) |
| `Text.RemoveChar` | src/collector.py:161 | no ensures of its own; each `replace(c, '')` call, stated through `Text.StripBracketsIsFilter` |
| `Text.StripBrackets` | src/collector.py:161 | no ensures of its own; stated by `Text.StripBracketsIsFilter` |
| `Text.StripBracketsIsFilter` | src/collector.py:161 | the four chained `replace` calls remove exactly `[ ] ( )` and keep every other character in order |
| `Text.CleanText` | src/collector.py:157-162 | no ensures of its own; stated by `Text.CleanTextSpec`, `Text.LoneBracketLeavesDoubleSpace` and `Text.CleanTextStableAfterTwoPasses` |
| `Text.CleanTextSpec` | src/collector.py:157-162 | `clean_text` output has no bracket and no whitespace but `' '`; its non-space characters are the input's non-whitespace, non-bracket characters in order |
| `Text.LoneBracketLeavesDoubleSpace` | src/collector.py:157-162 | for bracket-free words `x`, `y` and a bracket `c`, `clean_text(x + " " + c + " " + y)` is `x + "  " + y` (two spaces), a second pass gives `x + " " + y`, so the two passes differ |
| `Text.CleanTextStableAfterTwoPasses` | src/collector.py:157-162 | a second pass only re-collapses whitespace, and a third pass changes nothing |
| `Posts.FirstMissing` | src/collector.py:65-83 | extraction raises at the first absent attribute in the literal's evaluation order (`selftext` only for self posts); none is reported exactly when the item is complete |
| `Posts.CompleteIffAllReadPresent` | src/collector.py:65-83 | a complete item is one where every attribute extraction reads is present |
| `Posts.Normalize` | src/collector.py:64-86 | copied columns; `content_type` is "text" exactly for self posts and otherwise "link"; `word_count` is 0 for link posts and the run count of `selftext` for self posts; `post_hint` defaults to "unknown"; `engagement_ratio` is the score when there are no comments and otherwise satisfies ratio × comments = score |
| `Posts.ExtractPostData` | src/collector.py:64-86 | succeeds exactly when every attribute it reads is present; a failure names an absent, read attribute with every earlier one present; a success copies the attributes |
| `Comments.ExtractComment` | src/collector.py:173-185 | a record exists exactly for a complete comment; it carries the argument post id, `depth` 0, the cleaned body and the raw attributes |
| `Comments.ExtractedBodyIsClean` | src/collector.py:173-185 | a stored comment body has no brackets and no whitespace but `' '`, and its non-space characters are the raw body's non-whitespace, non-bracket characters in order |
| `Comments.TakeLimit` | src/collector.py:170 | the kept comments are a prefix; `None` or `0` keeps all; a positive limit keeps `min(limit, n)`; a negative one keeps `max(0, n + limit)` |
| `Comments.ExtractAll` | src/collector.py:172-187 | the loop returns exactly when every comment has an id; it yields at most one record per comment, each with the argument post id and depth 0 |
| `Comments.CollectComments` | src/collector.py:164-189 | returns exactly when the fetch succeeded and every kept comment has an id; at most `limit` records for a positive limit; every record has the argument post id and depth 0 |
| `Comments.ExtractAllConcat` | src/collector.py:172-185 | the records of `a + b` are those of `a` followed by those of `b`, so output order follows input order |
| `Comments.DroppedCommentLeavesSiblings` | src/collector.py:172-187 | a comment whose extraction fails is dropped and its siblings' records are unchanged |
| `Store.MergePost` | src/collector.py:92-113 | a matched id gets only score, comment count and upvote ratio refreshed, with other columns unchanged; an unmatched id gets the full record; other rows are untouched |
| `Store.ApplyPosts` | src/collector.py:91-113 | no ensures of its own; stated by `Store.ApplyPostsRowAt` and `Store.ApplyPostsIdempotent` |
| `Store.ApplyPostsRowAt` | src/collector.py:91-113 | after a batch, a key the batch does not mention keeps its row; a mentioned key holds the immutable columns of the old row (or of the first record with that id) and the score, comment count and upvote ratio of the last record with that id |
| `Store.ApplyPostsIdempotent` | src/collector.py:91-113 | applying the same post batch twice equals applying it once |
| `Store.SavePosts` | src/collector.py:89-117 | raises only on a non-database exception; a database error at any merge or at the commit returns the table unchanged, and no error returns it with the whole batch applied |
| `Store.SavePostsToDb` | src/collector.py:89-117 | a database error at any merge or at the commit restores the starting table; with no error every merge is committed; the statement loop computes exactly the whole-call function |
| `Store.SavePostsTwice` | src/collector.py:89-117 | re-saving a successfully saved post batch leaves the table as the first save left it |
| `Store.MergeComment` | src/collector.py:123-136 | insert-only: existing rows never change; a new comment id is inserted with the post id passed to the persister and otherwise the record's columns |
| `Store.ApplyComments` | src/collector.py:122-136 | no ensures of its own; stated by `Store.ApplyCommentsRows`, `Store.ApplyStoredCommentsNoop` and `Store.ApplyCommentsIdempotent` |
| `Store.ApplyCommentsRows` | src/collector.py:122-136 | a comment batch keeps every stored row and inserts, under each new id, its first record attached to the argument post |
| `Store.ApplyStoredCommentsNoop` | src/collector.py:122-136 | a batch whose comment ids are all stored is a no-op |
| `Store.ApplyCommentsIdempotent` | src/collector.py:122-136 | re-applying a comment batch is a no-op |
| `Store.SaveComments` | src/collector.py:120-140 | raises only on a non-database exception; a database error at any merge or at the commit returns the table unchanged, and no error returns it with the whole batch applied |
| `Store.SaveCommentsToDb` | src/collector.py:120-140 | a database error at any merge or at the commit restores the starting table; with no error every merge is committed; the statement loop computes exactly the whole-call function |
| `Collector.FateOf` | src/collector.py:37-55 | an item aborts exactly when it has no id; it is skipped when extraction fails; its comments fail when `collect_comments` raises; it completes exactly when nothing raised |
| `Collector.Ranked` | src/collector.py:35 | the ranked request yields a prefix of the feed of at most 10 items |
| `Collector.ExtractionFailureSkipsItem` | src/collector.py:38-55 | an item with an id whose extraction fails leaves the accumulated state unchanged |
| `Collector.CommentFailureKeepsPost` | src/collector.py:40-55 | when comment collection raises, the post stays appended, no comment is added, nothing is saved and there is no pause |
| `Collector.Resume` | src/collector.py:37-61 | no ensures of its own; stated by `Collector.RunWithoutAbort`, `Collector.MissingIdEndsRun` and `Collector.ResumePreserves` |
| `Collector.RunWithoutAbort` | src/collector.py:37-58 | with every id present, the posts are exactly the successful extractions in ranked order; the comments are those of the extracted posts whose comment collection succeeded; the pauses are the number of items where nothing raised |
| `Collector.MissingIdEndsRun` | src/collector.py:37-61 | an item without an id ends the run with the state accumulated before it, and later items are not attempted |
| `Collector.SkippedItemIsInvisible` | src/collector.py:37-55 | an item whose extraction fails has no effect on the whole run |
| `Collector.SaveItem` | src/collector.py:48-49 | no ensures of its own; stated by `Collector.SaveItemExtends` |
| `Collector.SaveItemExtends` | src/collector.py:48-49 | an item's two saves add at most that post's key, never change a stored comment, and attach every new comment row to that post |
| `Collector.Step` | src/collector.py:38-55 | no ensures of its own; stated by `Collector.ExtractionFailureSkipsItem`, `Collector.CommentFailureKeepsPost` and `Collector.StepPreserves` |
| `Collector.StepPreserves` | src/collector.py:37-55 | one iteration appends at most one post, keeps every comment attached to a collected post, and only extends the database (new post keys and new comment rows belong to collected posts) |
| `Collector.ResumePreserves` | src/collector.py:37-58 | over the loop, the posts dataset grows by at most one post per item; comments stay depth-0 comments of collected posts; the database only gains post rows for collected posts and comment rows attached to collected posts, and stored comments keep their rows |
| `Collector.GetTopPosts` | src/collector.py:28-61 | no ensures of its own; stated by `Collector.GetTopPostsSpec`, `Collector.RunWithoutAbort` and `Collector.MissingIdEndsRun` |
| `Collector.GetTopPostsSpec` | src/collector.py:28-61 | `get_top_posts` returns at most 10 posts, never more than the ranked items, with every comment attached to a returned post; new post and comment rows in the database belong to returned posts; a failed listing request returns empty datasets and leaves the database unchanged |

## Left out

- The platform client and authentication (`praw.Reddit`, `subreddit('all').top`, `submission`, `replace_more`). These are network calls through a library that is not part of this model. Their results are inputs: the ranked feed and `CommentFetch`.
- The pyodbc connection, cursor, `__del__` and the literal SQL text. The tables are maps keyed by `id` and `comment_id`. Database errors are the abstract input `DbFault`.
- `print` logging has no functional content. `time.sleep(1)` is kept only as the `pauses` count.
- `datetime.fromtimestamp` depends on the local time zone. Timestamps are opaque integers, and its possible overflow error is not modelled.
- `analyze_engagement_patterns` is a pandas group-by with floating-point means, outside the ingest core.
- Floating point: `upvote_ratio` and `engagement_ratio` are `real`. Python float rounding is not modelled. Python also stores the fallback `engagement_ratio` as an int while the model uses the same value as a real.
- pandas DataFrame construction, `iterrows` and `to_dict('records')` are modelled as sequences of records.
- `str(post.author)` / `str(comment.author)` are library object behaviour. Authors are opaque strings.
- The `__main__` driver. It re-saves the collected datasets, which is what the idempotence lemmas are about.
- Store.SavePosts: an exception other than a database error is modelled as raised before the first statement. One raised after some merges ran would leave them pending in the open transaction; that case is not modelled. `Escapes` also covers a database error raised by the rollback in the handler (lines 117 and 140): the committed table is unchanged and the call raises; the merges that rollback leaves pending are likewise not modelled.
- Store.SaveComments: the same restriction on non-database exceptions as for `Store.SavePosts`.
- Collector.GetTopPostsSpec: the run's store effect is stated as "only extends". The exact final tables follow from `Store.ApplyPostsRows` and `Store.ApplyCommentsRows` per item, but there is no whole-run closed form.
