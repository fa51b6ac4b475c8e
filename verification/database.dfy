/**
 The record model of the store: articles, feed sources and keywords, with
 the column defaults and uniqueness constraints the schema declares, the
 insertion of a batch of new articles, and the seeding done by `init_db`.
 The relational store is modelled as immutable values: articles as a map
 keyed by their unique link, the two configuration tables as sequences of
 rows in primary-key order.
 */
module Database {
  import opened Wrappers

  /* ------------------------------------------------------------- records */

  /** The tri-state review flag stored as the integer column `human_feedback`. */
  datatype Feedback = Unreviewed | Dismissed | Confirmed

  /** The integer the column holds: 0 = none, 1 = dismiss, 2 = confirm. */
  function FeedbackCode(f: Feedback): int {
    match f
    case Unreviewed => 0
    case Dismissed => 1
    case Confirmed => 2
  }

  /** Reads the column back; any integer other than 0, 1, 2 is no state. */
  function FeedbackOfCode(c: int): Option<Feedback> {
    if c == 0 then Some(Unreviewed)
    else if c == 1 then Some(Dismissed)
    else if c == 2 then Some(Confirmed)
    else None
  }

  /** The column holds exactly the three codes and decoding inverts encoding. */
  lemma FeedbackCodes(f: Feedback, c: int)
    ensures 0 <= FeedbackCode(f) <= 2
    ensures FeedbackOfCode(FeedbackCode(f)) == Some(f)
    ensures FeedbackOfCode(c).Some? <==> 0 <= c <= 2
    ensures FeedbackOfCode(c).Some? ==> FeedbackCode(FeedbackOfCode(c).value) == c
  {
  }

  /** One row of `articles`; `keywordsFound` is a nullable JSON column.
      The publication timestamp is not modelled. */
  datatype Article = Article(
    id: nat,
    title: string,
    link: string,
    summary: string,
    source: string,
    score: real,
    keywordsFound: Option<seq<string>>,
    isBubbled: bool,
    feedback: Feedback)

  /** An article created with only its identifying columns: every other
      column takes its declared default. */
  function NewArticle(id: nat, title: string, link: string, summary: string, source: string): (a: Article)
    ensures a.score == 0.0 && !a.isBubbled && a.feedback == Unreviewed && a.keywordsFound == None
    ensures a.id == id && a.link == link && a.title == title && a.summary == summary && a.source == source
  {
    Article(id, title, link, summary, source, 0.0, None, false, Unreviewed)
  }

  /** One row of `feed_sources`; the surrogate id is not modelled. */
  datatype FeedSource = FeedSource(url: string, name: string, isActive: bool)

  /** A source created from url and name: it starts out active. */
  function NewFeedSource(url: string, name: string): (s: FeedSource)
    ensures s.isActive && s.url == url && s.name == name
  {
    FeedSource(url, name, true)
  }

  /** One row of `keywords`; the surrogate id is not modelled. */
  datatype Keyword = Keyword(word: string, weight: int)

  /** The whole store. `nextArticleId` is the next value of the articles
      primary-key sequence. */
  datatype Db = Db(
    articles: map<string, Article>,
    nextArticleId: nat,
    sources: seq<FeedSource>,
    keywords: seq<Keyword>)

  const EmptyDb := Db(map[], 1, [], [])

  /* ---------------------------------------------------------- invariants */

  /** `link` is unique: the article under each key carries that link. */
  ghost predicate KeyedByLink(m: map<string, Article>) {
    forall l :: l in m ==> m[l].link == l
  }

  /** Primary keys are distinct and below the sequence's next value. */
  ghost predicate IdsBelow(m: map<string, Article>, next: nat) {
    && (forall l :: l in m ==> m[l].id < next)
    && (forall l1, l2 :: l1 in m && l2 in m && l1 != l2 ==> m[l1].id != m[l2].id)
  }

  /** `url` is unique in `feed_sources`. */
  predicate UniqueUrls(sources: seq<FeedSource>) {
    forall i, j :: 0 <= i < j < |sources| ==> sources[i].url != sources[j].url
  }

  /** `word` is unique in `keywords`. */
  predicate UniqueWords(keywords: seq<Keyword>) {
    forall i, j :: 0 <= i < j < |keywords| ==> keywords[i].word != keywords[j].word
  }

  /** Every constraint the schema declares. */
  ghost predicate Valid(db: Db) {
    && KeyedByLink(db.articles)
    && IdsBelow(db.articles, db.nextArticleId)
    && UniqueUrls(db.sources)
    && UniqueWords(db.keywords)
  }

  /* -------------------------------------------------------- new articles */

  /** An article built by the ingestion worker, waiting for its commit. */
  datatype PendingArticle = PendingArticle(
    title: string,
    link: string,
    summary: string,
    source: string,
    score: real,
    reasons: seq<string>,
    isBubbled: bool)

  /** The row a pending article becomes once the store assigns it `id`:
      the explicitly given columns override the defaults, and the review
      flag keeps its default. */
  function Stored(p: PendingArticle, id: nat): (a: Article)
    ensures a.feedback == Unreviewed && a.id == id && a.link == p.link
  {
    NewArticle(id, p.title, p.link, p.summary, p.source)
      .(score := p.score, keywordsFound := Some(p.reasons), isBubbled := p.isBubbled)
  }

  /** The links of a batch. */
  function LinkSet(batch: seq<PendingArticle>): (r: set<string>)
    ensures forall k :: 0 <= k < |batch| ==> batch[k].link in r
    decreases |batch|
  {
    if |batch| == 0 then {}
    else
      var r := {batch[0].link} + LinkSet(batch[1..]);
      assert forall k :: 1 <= k < |batch| ==> batch[k] == batch[1..][k - 1];
      r
  }

  /** `LinkSet` holds nothing but the batch's links. */
  lemma {:induction false} LinkSetOnlyBatchLinks(batch: seq<PendingArticle>, l: string)
    requires l in LinkSet(batch)
    ensures exists k :: 0 <= k < |batch| && batch[k].link == l
    decreases |batch|
  {
    if batch[0].link != l {
      LinkSetOnlyBatchLinks(batch[1..], l);
      var k :| 0 <= k < |batch[1..]| && batch[1..][k].link == l;
      assert batch[k + 1].link == l;
    }
  }

  predicate DistinctLinks(batch: seq<PendingArticle>) {
    forall i, j :: 0 <= i < j < |batch| ==> batch[i].link != batch[j].link
  }

  /** Adds one pending article with a fresh link under the next primary key. */
  function Insert(db: Db, p: PendingArticle): (r: Db)
    requires p.link !in db.articles
    ensures Valid(db) ==> Valid(r)
    ensures KeysGrow(db.articles, {p.link}, r.articles)
    ensures |r.articles| == |db.articles| + 1
    ensures RowsKept(db.articles, r.articles)
    ensures p.link in r.articles && r.articles[p.link] == Stored(p, db.nextArticleId)
    ensures r.nextArticleId == db.nextArticleId + 1
    ensures r.sources == db.sources && r.keywords == db.keywords
  {
    var r := db.(articles := db.articles[p.link := Stored(p, db.nextArticleId)],
                 nextArticleId := db.nextArticleId + 1);
    assert r.articles.Keys == db.articles.Keys + {p.link};
    r
  }

  /** A single commit of a batch whose links are pairwise distinct and new
      to the store: each pending article is stored under its link with the
      next primary key, in batch order, and nothing else changes. */
  function Commit(db: Db, batch: seq<PendingArticle>): (r: Db)
    requires DistinctLinks(batch)
    requires forall k :: 0 <= k < |batch| ==> batch[k].link !in db.articles
    ensures CommitPost(db, batch, r)
    decreases |batch|
  {
    if |batch| == 0 then db
    else
      var db1 := Insert(db, batch[0]);
      CommitTailFresh(db, batch, db1);
      var r := Commit(db1, batch[1..]);
      CommitStep(db, batch, db1, r);
      r
  }

  /** What a commit guarantees: the constraints still hold, the keys grow by
      exactly the batch's links, stored articles are untouched, each pending
      article is stored with the next primary key in batch order, and the
      configuration tables do not change. */
  ghost predicate CommitPost(db: Db, batch: seq<PendingArticle>, r: Db) {
    && (Valid(db) ==> Valid(r))
    && KeysGrow(db.articles, LinkSet(batch), r.articles)
    && |r.articles| == |db.articles| + |batch|
    && RowsKept(db.articles, r.articles)
    && RowsAppended(batch, db.nextArticleId, r.articles)
    && r.nextArticleId == db.nextArticleId + |batch|
    && r.sources == db.sources && r.keywords == db.keywords
  }

  /** The keys of `m2` are those of `m0` and `links`. */
  ghost predicate KeysGrow(m0: map<string, Article>, links: set<string>, m2: map<string, Article>) {
    forall l :: l in m2 <==> l in m0 || l in links
  }

  /** Every row of `m0` is still in `m2`, unchanged. */
  ghost predicate RowsKept(m0: map<string, Article>, m2: map<string, Article>) {
    forall l :: l in m0 ==> l in m2 && m2[l] == m0[l]
  }

  /** The `k`-th pending article is stored under its link with key `next + k`. */
  ghost predicate RowsAppended(batch: seq<PendingArticle>, next: nat, m: map<string, Article>) {
    forall k :: 0 <= k < |batch| ==>
      batch[k].link in m && m[batch[k].link] == Stored(batch[k], next + k)
  }

  lemma CommitTailFresh(db: Db, batch: seq<PendingArticle>, db1: Db)
    requires |batch| > 0
    requires DistinctLinks(batch)
    requires forall k :: 0 <= k < |batch| ==> batch[k].link !in db.articles
    requires KeysGrow(db.articles, {batch[0].link}, db1.articles)
    ensures DistinctLinks(batch[1..])
    ensures forall k :: 0 <= k < |batch[1..]| ==> batch[1..][k].link !in db1.articles
  {
    var rest := batch[1..];
    forall k | 0 <= k < |rest| ensures rest[k].link !in db1.articles {
      assert rest[k] == batch[k + 1];
    }
    forall i, j | 0 <= i < j < |rest| ensures rest[i].link != rest[j].link {
      assert rest[i] == batch[i + 1] && rest[j] == batch[j + 1];
    }
  }

  /** A commit is one insert followed by the commit of the rest. */
  lemma CommitStep(db: Db, batch: seq<PendingArticle>, db1: Db, r: Db)
    requires |batch| > 0
    requires Valid(db) ==> Valid(db1)
    requires KeysGrow(db.articles, {batch[0].link}, db1.articles)
    requires |db1.articles| == |db.articles| + 1
    requires RowsKept(db.articles, db1.articles)
    requires batch[0].link in db1.articles && db1.articles[batch[0].link] == Stored(batch[0], db.nextArticleId)
    requires db1.nextArticleId == db.nextArticleId + 1
    requires db1.sources == db.sources && db1.keywords == db.keywords
    requires CommitPost(db1, batch[1..], r)
    ensures CommitPost(db, batch, r)
  {
    assert LinkSet(batch) == {batch[0].link} + LinkSet(batch[1..]);
    KeysGrowTrans(db.articles, {batch[0].link}, db1.articles, LinkSet(batch[1..]), r.articles);
    RowsKeptTrans(db.articles, db1.articles, r.articles);
    CommitRowsStep(batch, db.nextArticleId, db1.nextArticleId, db1.articles, r.articles);
  }

  lemma KeysGrowTrans(m0: map<string, Article>, a: set<string>, m1: map<string, Article>, b: set<string>, m2: map<string, Article>)
    requires KeysGrow(m0, a, m1) && KeysGrow(m1, b, m2)
    ensures KeysGrow(m0, a + b, m2)
  {
  }

  lemma RowsKeptTrans(m0: map<string, Article>, m1: map<string, Article>, m2: map<string, Article>)
    requires RowsKept(m0, m1) && RowsKept(m1, m2)
    ensures RowsKept(m0, m2)
  {
  }

  /** The rows after a commit, one article at a time. */
  lemma CommitRowsStep(batch: seq<PendingArticle>, next: nat, next1: nat, m1: map<string, Article>, m2: map<string, Article>)
    requires |batch| > 0
    requires next1 == next + 1
    requires batch[0].link in m1 && m1[batch[0].link] == Stored(batch[0], next)
    requires RowsKept(m1, m2)
    requires RowsAppended(batch[1..], next1, m2)
    ensures RowsAppended(batch, next, m2)
  {
    forall k | 0 <= k < |batch|
      ensures batch[k].link in m2 && m2[batch[k].link] == Stored(batch[k], next + k)
    {
      if k > 0 {
        assert batch[k] == batch[1..][k - 1];
      }
    }
  }

  /* ------------------------------------------------------------- seeding */

  const DefaultSources: seq<FeedSource> := [
    NewFeedSource("https://feeds.feedburner.com/TheHackersNews", "Hacker News"),
    NewFeedSource("https://www.bleepingcomputer.com/feed/", "BleepingComputer")
  ]

  const DefaultKeywords: seq<Keyword> := [
    Keyword("critical", 50),
    Keyword("rce", 60),
    Keyword("vulnerability", 40)
  ]

  /** `init_db`: each configuration table is seeded with its defaults only
      when it has no rows; articles are never touched. */
  function InitDb(db: Db): (r: Db)
    ensures r.articles == db.articles && r.nextArticleId == db.nextArticleId
    ensures r.sources == (if |db.sources| == 0 then DefaultSources else db.sources)
    ensures r.keywords == (if |db.keywords| == 0 then DefaultKeywords else db.keywords)
  {
    var sources := if |db.sources| == 0 then DefaultSources else db.sources;
    var keywords := if |db.keywords| == 0 then DefaultKeywords else db.keywords;
    db.(sources := sources, keywords := keywords)
  }

  /** After seeding both tables are non-empty, every constraint still
      holds, and a second `init_db` adds nothing. */
  lemma InitDbSeedsOnce(db: Db)
    requires Valid(db)
    ensures |InitDb(db).sources| > 0 && |InitDb(db).keywords| > 0
    ensures Valid(InitDb(db))
    ensures InitDb(InitDb(db)) == InitDb(db)
    ensures forall s :: s in InitDb(db).sources && |db.sources| == 0 ==> s.isActive
  {
  }
}
