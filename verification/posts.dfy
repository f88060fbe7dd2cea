/** The post normaliser `_extract_post_data`: turns a raw ranked item into the flat post
    record that is appended to the collected dataset and stored in the `posts` table. */
module Posts {
  import opened Wrappers
  import opened Text

  /** A ranked item as the platform library exposes it. Each attribute may be absent;
      reading an absent one raises. Timestamps are opaque epoch seconds. */
  datatype RawPost = RawPost(
    subreddit: Attr<string>,
    title: Attr<string>,
    score: Attr<int>,
    id: Attr<string>,
    url: Attr<string>,
    numComments: Attr<int>,
    createdUtc: Attr<int>,
    upvoteRatio: Attr<real>,
    author: Attr<string>,
    isSelf: Attr<bool>,
    domain: Attr<string>,
    distinguished: Attr<Option<string>>,
    stickied: Attr<bool>,
    over18: Attr<bool>,
    spoiler: Attr<bool>,
    selftext: Attr<string>,
    linkFlairText: Attr<Option<string>>,
    postHint: Attr<string>)

  /** One row of the posts dataset and of the `posts` table. */
  datatype PostRecord = PostRecord(
    subreddit: string,
    title: string,
    score: int,
    id: string,
    url: string,
    numComments: int,
    createdUtc: int,
    upvoteRatio: real,
    author: string,
    isSelf: bool,
    contentType: string,
    domain: string,
    distinguished: Option<string>,
    stickied: bool,
    over18: bool,
    spoiler: bool,
    wordCount: nat,
    flair: Option<string>,
    postHint: string,
    engagementRatio: real)

  /** The attributes whose absence makes extraction fail (`post_hint` has a default). */
  datatype Field =
    | Subreddit | Title | Score | Id | Url | NumComments | CreatedUtc | UpvoteRatio | Author
    | IsSelf | Domain | Distinguished | Stickied | Over18 | Spoiler | Selftext | LinkFlairText

  predicate Present(raw: RawPost, f: Field)
  {
    match f
    case Subreddit => raw.subreddit.Has?
    case Title => raw.title.Has?
    case Score => raw.score.Has?
    case Id => raw.id.Has?
    case Url => raw.url.Has?
    case NumComments => raw.numComments.Has?
    case CreatedUtc => raw.createdUtc.Has?
    case UpvoteRatio => raw.upvoteRatio.Has?
    case Author => raw.author.Has?
    case IsSelf => raw.isSelf.Has?
    case Domain => raw.domain.Has?
    case Distinguished => raw.distinguished.Has?
    case Stickied => raw.stickied.Has?
    case Over18 => raw.over18.Has?
    case Spoiler => raw.spoiler.Has?
    case Selftext => raw.selftext.Has?
    case LinkFlairText => raw.linkFlairText.Has?
  }

  /** Whether extraction reads the attribute at all: `selftext` is only read for self posts. */
  predicate Reads(raw: RawPost, f: Field)
  {
    f != Selftext || (raw.isSelf.Has? && raw.isSelf.value)
  }

  /** Position of each attribute's first read in the record literal, which Python
      evaluates left to right. */
  function Position(f: Field): nat
  {
    match f
    case Subreddit => 0
    case Title => 1
    case Score => 2
    case Id => 3
    case Url => 4
    case NumComments => 5
    case CreatedUtc => 6
    case UpvoteRatio => 7
    case Author => 8
    case IsSelf => 9
    case Domain => 10
    case Distinguished => 11
    case Stickied => 12
    case Over18 => 13
    case Spoiler => 14
    case Selftext => 15
    case LinkFlairText => 16
  }

  /** Every attribute extraction reads is present. */
  predicate Complete(raw: RawPost)
  {
    && raw.subreddit.Has? && raw.title.Has? && raw.score.Has? && raw.id.Has? && raw.url.Has?
    && raw.numComments.Has? && raw.createdUtc.Has? && raw.upvoteRatio.Has? && raw.author.Has?
    && raw.isSelf.Has? && raw.domain.Has? && raw.distinguished.Has? && raw.stickied.Has?
    && raw.over18.Has? && raw.spoiler.Has? && (raw.isSelf.value ==> raw.selftext.Has?)
    && raw.linkFlairText.Has?
  }

  /** The record's columns that are taken over from the raw item unchanged. */
  predicate CopiesAttributes(raw: RawPost, p: PostRecord)
  {
    && raw.subreddit == Has(p.subreddit)
    && raw.title == Has(p.title)
    && raw.score == Has(p.score)
    && raw.id == Has(p.id)
    && raw.url == Has(p.url)
    && raw.numComments == Has(p.numComments)
    && raw.createdUtc == Has(p.createdUtc)
    && raw.upvoteRatio == Has(p.upvoteRatio)
    && raw.author == Has(p.author)
    && raw.isSelf == Has(p.isSelf)
    && raw.domain == Has(p.domain)
    && raw.distinguished == Has(p.distinguished)
    && raw.stickied == Has(p.stickied)
    && raw.over18 == Has(p.over18)
    && raw.spoiler == Has(p.spoiler)
    && raw.linkFlairText == Has(p.flair)
  }

  /** The attribute whose read raises first, if any: the record literal is evaluated
      left to right and `selftext` is only read when `is_self` holds. */
  function FirstMissing(raw: RawPost): (r: Option<Field>)
    ensures r.Some? ==> Reads(raw, r.value) && !Present(raw, r.value)
    ensures r.Some? ==> forall f: Field :: Position(f) < Position(r.value) && Reads(raw, f) ==> Present(raw, f)
    ensures r.None? <==> Complete(raw)
  {
    if raw.subreddit.Missing? then Some(Subreddit)
    else if raw.title.Missing? then Some(Title)
    else if raw.score.Missing? then Some(Score)
    else if raw.id.Missing? then Some(Id)
    else if raw.url.Missing? then Some(Url)
    else if raw.numComments.Missing? then Some(NumComments)
    else if raw.createdUtc.Missing? then Some(CreatedUtc)
    else if raw.upvoteRatio.Missing? then Some(UpvoteRatio)
    else if raw.author.Missing? then Some(Author)
    else if raw.isSelf.Missing? then Some(IsSelf)
    else if raw.domain.Missing? then Some(Domain)
    else if raw.distinguished.Missing? then Some(Distinguished)
    else if raw.stickied.Missing? then Some(Stickied)
    else if raw.over18.Missing? then Some(Over18)
    else if raw.spoiler.Missing? then Some(Spoiler)
    else if raw.isSelf.value && raw.selftext.Missing? then Some(Selftext)
    else if raw.linkFlairText.Missing? then Some(LinkFlairText)
    else None
  }

  /** A complete raw item read attribute by attribute: the field-by-field view of
      `Complete`. */
  lemma CompleteIffAllReadPresent(raw: RawPost)
    ensures Complete(raw) <==> forall f: Field :: Reads(raw, f) ==> Present(raw, f)
  {
    if !Complete(raw) {
      var f := FirstMissing(raw).value;
      assert Reads(raw, f) && !Present(raw, f);
    }
  }

  /** The record built from a complete raw item: copied columns plus the derived ones. */
  function Normalize(raw: RawPost): (p: PostRecord)
    requires Complete(raw)
    ensures CopiesAttributes(raw, p)
    ensures p.contentType == "text" <==> p.isSelf
    ensures p.contentType == "link" <==> !p.isSelf
    ensures !p.isSelf ==> p.wordCount == 0
    ensures p.isSelf ==> p.wordCount == CountRuns(raw.selftext.value, true)
    ensures p.numComments <= 0 ==> p.engagementRatio == p.score as real
    ensures p.numComments > 0 ==> p.engagementRatio * p.numComments as real == p.score as real
    ensures raw.postHint.Missing? ==> p.postHint == "unknown"
    ensures raw.postHint.Has? ==> p.postHint == raw.postHint.value
  {
    var isSelf := raw.isSelf.value;
    var score := raw.score.value;
    var numComments := raw.numComments.value;
    var wordCount := if isSelf then WordCountIsRunCount(raw.selftext.value); |Words(raw.selftext.value)| else 0;
    PostRecord(
      raw.subreddit.value,
      raw.title.value,
      score,
      raw.id.value,
      raw.url.value,
      numComments,
      raw.createdUtc.value,
      raw.upvoteRatio.value,
      raw.author.value,
      isSelf,
      if isSelf then "text" else "link",
      raw.domain.value,
      raw.distinguished.value,
      raw.stickied.value,
      raw.over18.value,
      raw.spoiler.value,
      wordCount,
      raw.linkFlairText.value,
      match raw.postHint case Has(hint) => hint case Missing => "unknown",
      if numComments > 0 then score as real / numComments as real else score as real)
  }

  /** `_extract_post_data`: raises on the first absent attribute it reads, otherwise
      returns the normalised record. */
  function ExtractPostData(raw: RawPost): (r: Result<PostRecord, Field>)
    ensures r.Failure? ==> Reads(raw, r.error) && !Present(raw, r.error)
    ensures r.Failure? ==> forall f: Field :: Position(f) < Position(r.error) && Reads(raw, f) ==> Present(raw, f)
    ensures r.Success? <==> forall f: Field :: Reads(raw, f) ==> Present(raw, f)
    ensures r.Success? ==> CopiesAttributes(raw, r.value)
  {
    CompleteIffAllReadPresent(raw);
    match FirstMissing(raw)
    case Some(f) => Failure(f)
    case None => Success(Normalize(raw))
  }
}
