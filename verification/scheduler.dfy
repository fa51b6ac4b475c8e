/**
 The ingestion pipeline with its I/O abstracted away. `ProcessSingleFeed`
 is the per-source worker: given the already fetched and parsed entries,
 the links already stored, the strategy and the alert threshold, it
 yields the articles its one commit writes together with the count it
 reports. `FetchFeeds` is one cycle: it snapshots the active sources,
 resolves the strategy once and folds the workers over the sources in
 order, threading the store through.
 */
module Scheduler {
  import opened Wrappers
  import opened Text
  import opened Logic
  import opened Database

  /* ------------------------------------------------------------ entries */

  /** One parsed feed entry. A missing field is the empty string, which is
      what `entry.get(key, '')` gives. */
  datatype Entry = Entry(link: string, title: string, summary: string)

  /** What fetching and parsing one source's document produced. */
  datatype FetchOutcome =
    | Fetched(entries: seq<Entry>)
    | TimedOut           // the request timed out
    | HttpError(status: int)  // a non-2xx status raised by `raise_for_status`
    | FetchFailed        // any other exception before the entry loop

  /** The text a strategy scores: title, one space, summary. */
  function ScoringText(e: Entry): string {
    e.title + " " + e.summary
  }

  /** The alert policy: an article is bubbled exactly when its score
      reaches the threshold. */
  predicate Bubbles(score: real, threshold: real) {
    score >= threshold
  }

  /** The article built from an entry once the strategy scored it. */
  function Build(e: Entry, sourceName: string, score: real, reasons: seq<string>, threshold: real): PendingArticle {
    PendingArticle(e.title, e.link, e.summary, sourceName, score, reasons, Bubbles(score, threshold))
  }

  /** `a` is what the worker builds from entry `e`: same title, link and
      summary, the worker's source name, the strategy's score and reasons
      for `title + " " + summary`, and the alert flag for that score. */
  ghost predicate BuiltFrom(a: PendingArticle, e: Entry, scorer: Scorer, threshold: real, sourceName: string) {
    && Score(scorer, ScoringText(e)).Scored?
    && a.link == e.link && a.title == e.title && a.summary == e.summary && a.source == sourceName
    && a.score == Score(scorer, ScoringText(e)).score
    && a.reasons == Score(scorer, ScoringText(e)).reasons
    && a.isBubbled == (a.score >= threshold)
  }

  /* ---------------------------------------------------------- the loop */

  /** The articles added to the worker's session: all of them when the loop
      ran to its end, or those added before an exception interrupted it. */
  datatype BatchOutcome = Complete(batch: seq<PendingArticle>) | Interrupted(batch: seq<PendingArticle>)

  function Prepend(a: PendingArticle, r: BatchOutcome): BatchOutcome {
    match r
    case Complete(b) => Complete([a] + b)
    case Interrupted(b) => Interrupted([a] + b)
  }

  /** The entry loop of `process_single_feed`, with `seen` the batch's
      dedup set. Entries without a link, with a stored link or with a link
      seen earlier are skipped; every other entry is scored and added. An
      exception from the strategy stops the loop. */
  function BatchLoop(entries: seq<Entry>, stored: set<string>, seen: set<string>,
                     scorer: Scorer, threshold: real, sourceName: string): (r: BatchOutcome)
    ensures LoopPost(entries, stored, seen, scorer, threshold, sourceName, r)
    decreases |entries|
  {
    if |entries| == 0 then Complete([])
    else
      var e := entries[0];
      if e.link == "" || e.link in stored || e.link in seen then
        var r := BatchLoop(entries[1..], stored, seen, scorer, threshold, sourceName);
        SkipStep(entries, stored, seen, scorer, threshold, sourceName, r);
        r
      else
        match Score(scorer, ScoringText(e))
        case Raised => Interrupted([])
        case Scored(s, rs) =>
          var rest := BatchLoop(entries[1..], stored, seen + {e.link}, scorer, threshold, sourceName);
          var r := Prepend(Build(e, sourceName, s, rs, threshold), rest);
          KeepStep(entries, stored, seen, scorer, threshold, sourceName, rest, r);
          r
  }

  /** What the entry loop guarantees: no more articles than entries; every
      article has a non-empty link that is neither stored nor already seen;
      the articles' links are pairwise distinct; every article is built
      from one of the entries; and, when the loop ran to its end, every
      entry with a non-empty, unstored link was seen before or is in the
      batch. */
  ghost predicate LoopPost(entries: seq<Entry>, stored: set<string>, seen: set<string>,
                           scorer: Scorer, threshold: real, sourceName: string, r: BatchOutcome) {
    && |r.batch| <= |entries|
    && FreshLinks(r.batch, stored, seen)
    && DistinctLinks(r.batch)
    && AllBuilt(r.batch, entries, scorer, threshold, sourceName)
    && (r.Complete? ==> CoversFresh(entries, stored, seen, r.batch))
  }

  /** Every article's link is non-empty, not stored and not seen. */
  ghost predicate FreshLinks(batch: seq<PendingArticle>, stored: set<string>, seen: set<string>) {
    forall k :: 0 <= k < |batch| ==> batch[k].link != "" && batch[k].link !in stored && batch[k].link !in seen
  }

  /** Every article is built from one of the entries. */
  ghost predicate AllBuilt(batch: seq<PendingArticle>, entries: seq<Entry>, scorer: Scorer, threshold: real, sourceName: string) {
    forall k :: 0 <= k < |batch| ==> BuiltFromSome(batch[k], entries, scorer, threshold, sourceName)
  }

  /** `a` is built from one of the entries. */
  ghost predicate BuiltFromSome(a: PendingArticle, entries: seq<Entry>, scorer: Scorer, threshold: real, sourceName: string) {
    exists i :: 0 <= i < |entries| && BuiltFrom(a, entries[i], scorer, threshold, sourceName)
  }

  /** Every entry with a non-empty, unstored link was seen or is in the batch. */
  ghost predicate CoversFresh(entries: seq<Entry>, stored: set<string>, seen: set<string>, batch: seq<PendingArticle>) {
    forall i :: 0 <= i < |entries| && entries[i].link != "" && entries[i].link !in stored ==>
      entries[i].link in seen || entries[i].link in LinkSet(batch)
  }

  lemma SkipStep(entries: seq<Entry>, stored: set<string>, seen: set<string>,
                 scorer: Scorer, threshold: real, sourceName: string, r: BatchOutcome)
    requires |entries| > 0
    requires entries[0].link == "" || entries[0].link in stored || entries[0].link in seen
    requires LoopPost(entries[1..], stored, seen, scorer, threshold, sourceName, r)
    ensures LoopPost(entries, stored, seen, scorer, threshold, sourceName, r)
  {
    BuiltFromTail(r.batch, entries, scorer, threshold, sourceName);
    if r.Complete? {
      SkipCovers(entries, stored, seen, r.batch);
    }
  }

  /** Articles built from the later entries are built from the entries. */
  lemma BuiltFromTail(batch: seq<PendingArticle>, entries: seq<Entry>, scorer: Scorer, threshold: real, sourceName: string)
    requires |entries| > 0
    requires AllBuilt(batch, entries[1..], scorer, threshold, sourceName)
    ensures AllBuilt(batch, entries, scorer, threshold, sourceName)
  {
    var tail := entries[1..];
    forall k | 0 <= k < |batch| ensures BuiltFromSome(batch[k], entries, scorer, threshold, sourceName) {
      var i :| 0 <= i < |tail| && BuiltFrom(batch[k], tail[i], scorer, threshold, sourceName);
      assert tail[i] == entries[i + 1];
      assert BuiltFrom(batch[k], entries[i + 1], scorer, threshold, sourceName);
    }
  }

  lemma SkipCovers(entries: seq<Entry>, stored: set<string>, seen: set<string>, batch: seq<PendingArticle>)
    requires |entries| > 0
    requires entries[0].link == "" || entries[0].link in stored || entries[0].link in seen
    requires CoversFresh(entries[1..], stored, seen, batch)
    ensures CoversFresh(entries, stored, seen, batch)
  {
    var tail := entries[1..];
    forall i | 0 <= i < |entries| && entries[i].link != "" && entries[i].link !in stored
      ensures entries[i].link in seen || entries[i].link in LinkSet(batch)
    {
      if i > 0 { assert entries[i] == tail[i - 1]; }
    }
  }

  lemma KeepStep(entries: seq<Entry>, stored: set<string>, seen: set<string>,
                 scorer: Scorer, threshold: real, sourceName: string, rest: BatchOutcome, r: BatchOutcome)
    requires |entries| > 0
    requires entries[0].link != "" && entries[0].link !in stored && entries[0].link !in seen
    requires Score(scorer, ScoringText(entries[0])).Scored?
    requires r == Prepend(Build(entries[0], sourceName, Score(scorer, ScoringText(entries[0])).score,
                                Score(scorer, ScoringText(entries[0])).reasons, threshold), rest)
    requires LoopPost(entries[1..], stored, seen + {entries[0].link}, scorer, threshold, sourceName, rest)
    ensures LoopPost(entries, stored, seen, scorer, threshold, sourceName, r)
  {
    var e := entries[0];
    var a := Build(e, sourceName, Score(scorer, ScoringText(e)).score, Score(scorer, ScoringText(e)).reasons, threshold);
    assert r.batch == [a] + rest.batch;
    assert BuiltFrom(a, e, scorer, threshold, sourceName);
    KeepBuilt(entries, scorer, threshold, sourceName, a, rest.batch);
    KeepFresh(a, rest.batch, stored, seen);
    if r.Complete? {
      KeepCovers(entries, stored, seen, a, rest.batch);
    }
  }

  lemma KeepBuilt(entries: seq<Entry>, scorer: Scorer, threshold: real, sourceName: string,
                  a: PendingArticle, rest: seq<PendingArticle>)
    requires |entries| > 0
    requires BuiltFrom(a, entries[0], scorer, threshold, sourceName)
    requires AllBuilt(rest, entries[1..], scorer, threshold, sourceName)
    ensures AllBuilt([a] + rest, entries, scorer, threshold, sourceName)
  {
    BuiltFromTail(rest, entries, scorer, threshold, sourceName);
    var b := [a] + rest;
    forall k | 0 <= k < |b| ensures BuiltFromSome(b[k], entries, scorer, threshold, sourceName) {
      if k == 0 {
        assert BuiltFrom(b[0], entries[0], scorer, threshold, sourceName);
      } else {
        assert b[k] == rest[k - 1];
      }
    }
  }

  lemma KeepFresh(a: PendingArticle, rest: seq<PendingArticle>, stored: set<string>, seen: set<string>)
    requires a.link != "" && a.link !in stored && a.link !in seen
    requires FreshLinks(rest, stored, seen + {a.link}) && DistinctLinks(rest)
    ensures FreshLinks([a] + rest, stored, seen) && DistinctLinks([a] + rest)
  {
    var b := [a] + rest;
    forall k | 0 < k < |b| ensures b[k] == rest[k - 1] {}
  }

  lemma KeepCovers(entries: seq<Entry>, stored: set<string>, seen: set<string>,
                   a: PendingArticle, rest: seq<PendingArticle>)
    requires |entries| > 0 && entries[0].link == a.link
    requires CoversFresh(entries[1..], stored, seen + {a.link}, rest)
    ensures CoversFresh(entries, stored, seen, [a] + rest)
  {
    LinkSetPrepend(a, rest);
    var tail := entries[1..];
    forall i | 0 <= i < |entries| && entries[i].link != "" && entries[i].link !in stored
      ensures entries[i].link in seen || entries[i].link in LinkSet([a] + rest)
    {
      if i > 0 { assert entries[i] == tail[i - 1]; }
    }
  }

  lemma LinkSetPrepend(a: PendingArticle, b: seq<PendingArticle>)
    ensures LinkSet([a] + b) == {a.link} + LinkSet(b)
  {
    assert ([a] + b)[1..] == b;
  }

  /* ------------------------------------------------- reference behaviour */

  /** Entry `i` is the first occurrence of a non-empty link that is not
      stored yet. */
  predicate FirstFresh(entries: seq<Entry>, stored: set<string>, i: int)
    requires 0 <= i < |entries|
  {
    && entries[i].link != ""
    && entries[i].link !in stored
    && forall j :: 0 <= j < i ==> entries[j].link != entries[i].link
  }

  /** The entries from index `i` on that are first occurrences of fresh
      links, in feed order. */
  function SurvivorsFrom(entries: seq<Entry>, stored: set<string>, i: nat): seq<Entry>
    requires i <= |entries|
    decreases |entries| - i
  {
    if i == |entries| then []
    else (if FirstFresh(entries, stored, i) then [entries[i]] else []) + SurvivorsFrom(entries, stored, i + 1)
  }

  /** The entries a feed contributes, defined without any dedup set: the
      first occurrence of each non-empty link that is not stored yet, in
      feed order. */
  function Survivors(entries: seq<Entry>, stored: set<string>): seq<Entry> {
    SurvivorsFrom(entries, stored, 0)
  }

  /** Scoring a list of entries one after the other until the strategy
      raises. */
  function ScoreAll(es: seq<Entry>, scorer: Scorer, threshold: real, sourceName: string): (r: BatchOutcome)
    decreases |es|
  {
    if |es| == 0 then Complete([])
    else
      match Score(scorer, ScoringText(es[0]))
      case Raised => Interrupted([])
      case Scored(s, rs) => Prepend(Build(es[0], sourceName, s, rs, threshold), ScoreAll(es[1..], scorer, threshold, sourceName))
  }

  /** The links the dedup set holds when the loop reaches entry `i`. */
  function SeenBefore(entries: seq<Entry>, stored: set<string>, i: nat): set<string>
    requires i <= |entries|
  {
    set j | 0 <= j < i && entries[j].link != "" && entries[j].link !in stored :: entries[j].link
  }

  lemma SeenBeforeStep(entries: seq<Entry>, stored: set<string>, i: nat)
    requires i < |entries|
    ensures SeenBefore(entries, stored, i + 1)
         == if entries[i].link != "" && entries[i].link !in stored
            then SeenBefore(entries, stored, i) + {entries[i].link}
            else SeenBefore(entries, stored, i)
    ensures entries[i].link != "" && entries[i].link !in stored ==>
              (FirstFresh(entries, stored, i) <==> entries[i].link !in SeenBefore(entries, stored, i))
  {
    var l := entries[i].link;
    if l != "" && l !in stored && l in SeenBefore(entries, stored, i) {
      var j :| 0 <= j < i && entries[j].link != "" && entries[j].link !in stored && entries[j].link == l;
      assert !FirstFresh(entries, stored, i);
    }
  }

  lemma LoopSkips(entries: seq<Entry>, stored: set<string>, seen: set<string>,
                  scorer: Scorer, threshold: real, sourceName: string)
    requires |entries| > 0
    requires entries[0].link == "" || entries[0].link in stored || entries[0].link in seen
    ensures BatchLoop(entries, stored, seen, scorer, threshold, sourceName)
         == BatchLoop(entries[1..], stored, seen, scorer, threshold, sourceName)
  {
  }

  lemma LoopKeeps(entries: seq<Entry>, stored: set<string>, seen: set<string>,
                  scorer: Scorer, threshold: real, sourceName: string)
    requires |entries| > 0
    requires entries[0].link != "" && entries[0].link !in stored && entries[0].link !in seen
    ensures BatchLoop(entries, stored, seen, scorer, threshold, sourceName)
         == match Score(scorer, ScoringText(entries[0]))
            case Raised => Interrupted([])
            case Scored(s, rs) =>
              Prepend(Build(entries[0], sourceName, s, rs, threshold),
                      BatchLoop(entries[1..], stored, seen + {entries[0].link}, scorer, threshold, sourceName))
  {
  }

  lemma ScoreAllUnfold(es: seq<Entry>, scorer: Scorer, threshold: real, sourceName: string)
    requires |es| > 0
    ensures ScoreAll(es, scorer, threshold, sourceName)
         == match Score(scorer, ScoringText(es[0]))
            case Raised => Interrupted([])
            case Scored(s, rs) =>
              Prepend(Build(es[0], sourceName, s, rs, threshold), ScoreAll(es[1..], scorer, threshold, sourceName))
  {
  }

  lemma {:induction false} LoopMatchesReferenceFrom(entries: seq<Entry>, stored: set<string>, i: nat,
                                                    scorer: Scorer, threshold: real, sourceName: string)
    requires i <= |entries|
    ensures BatchLoop(entries[i..], stored, SeenBefore(entries, stored, i), scorer, threshold, sourceName)
         == ScoreAll(SurvivorsFrom(entries, stored, i), scorer, threshold, sourceName)
    decreases |entries| - i
  {
    if i < |entries| {
      LoopMatchesReferenceFrom(entries, stored, i + 1, scorer, threshold, sourceName);
      SeenBeforeStep(entries, stored, i);
      if FirstFresh(entries, stored, i) {
        ReferenceKeeps(entries, stored, i, scorer, threshold, sourceName);
      } else {
        ReferenceSkips(entries, stored, i, scorer, threshold, sourceName);
      }
    }
  }

  lemma ReferenceKeeps(entries: seq<Entry>, stored: set<string>, i: nat,
                       scorer: Scorer, threshold: real, sourceName: string)
    requires i < |entries| && FirstFresh(entries, stored, i)
    requires entries[i].link !in SeenBefore(entries, stored, i)
    requires SeenBefore(entries, stored, i + 1) == SeenBefore(entries, stored, i) + {entries[i].link}
    requires BatchLoop(entries[i + 1..], stored, SeenBefore(entries, stored, i + 1), scorer, threshold, sourceName)
          == ScoreAll(SurvivorsFrom(entries, stored, i + 1), scorer, threshold, sourceName)
    ensures BatchLoop(entries[i..], stored, SeenBefore(entries, stored, i), scorer, threshold, sourceName)
         == ScoreAll(SurvivorsFrom(entries, stored, i), scorer, threshold, sourceName)
  {
    var e := entries[i];
    var tail := entries[i..];
    assert tail[0] == e;
    assert tail[1..] == entries[i + 1..];
    var next := SurvivorsFrom(entries, stored, i + 1);
    var sv := SurvivorsFrom(entries, stored, i);
    assert sv == [e] + next;
    assert sv[0] == e && sv[1..] == next;
    LoopKeeps(tail, stored, SeenBefore(entries, stored, i), scorer, threshold, sourceName);
    ScoreAllUnfold(sv, scorer, threshold, sourceName);
  }

  lemma ReferenceSkips(entries: seq<Entry>, stored: set<string>, i: nat,
                       scorer: Scorer, threshold: real, sourceName: string)
    requires i < |entries| && !FirstFresh(entries, stored, i)
    requires entries[i].link != "" && entries[i].link !in stored ==> entries[i].link in SeenBefore(entries, stored, i)
    requires SeenBefore(entries, stored, i + 1)
          == if entries[i].link != "" && entries[i].link !in stored
             then SeenBefore(entries, stored, i) + {entries[i].link}
             else SeenBefore(entries, stored, i)
    requires BatchLoop(entries[i + 1..], stored, SeenBefore(entries, stored, i + 1), scorer, threshold, sourceName)
          == ScoreAll(SurvivorsFrom(entries, stored, i + 1), scorer, threshold, sourceName)
    ensures BatchLoop(entries[i..], stored, SeenBefore(entries, stored, i), scorer, threshold, sourceName)
         == ScoreAll(SurvivorsFrom(entries, stored, i), scorer, threshold, sourceName)
  {
    var e := entries[i];
    var tail := entries[i..];
    assert tail[0] == e;
    assert tail[1..] == entries[i + 1..];
    var seen := SeenBefore(entries, stored, i);
    assert SeenBefore(entries, stored, i + 1) == seen;
    assert SurvivorsFrom(entries, stored, i) == SurvivorsFrom(entries, stored, i + 1);
    LoopSkips(tail, stored, seen, scorer, threshold, sourceName);
  }

  /** The worker's dedup loop adds exactly the reference survivors, in feed
      order, scored until the strategy raises. */
  lemma LoopMatchesReference(entries: seq<Entry>, stored: set<string>,
                             scorer: Scorer, threshold: real, sourceName: string)
    ensures BatchLoop(entries, stored, {}, scorer, threshold, sourceName)
         == ScoreAll(Survivors(entries, stored), scorer, threshold, sourceName)
  {
    LoopMatchesReferenceFrom(entries, stored, 0, scorer, threshold, sourceName);
    assert entries[0..] == entries;
    assert SeenBefore(entries, stored, 0) == {};
  }

  /* --------------------------------------------------------- the worker */

  /** What a worker leaves behind: the count it returns and the articles
      its commit made durable. */
  datatype WorkerResult = WorkerResult(added: nat, persisted: seq<PendingArticle>)

  /** `process_single_feed`. A fetch failure yields `(0, [])`. Otherwise the
      loop's batch is committed when the loop completed and the commit
      succeeds; if the loop was interrupted or the commit fails, the
      session is rolled back and nothing is persisted, yet the count of
      articles already added is still returned. */
  function ProcessSingleFeed(sourceName: string, fetch: FetchOutcome, stored: set<string>,
                             scorer: Scorer, threshold: real, commitOk: bool): (r: WorkerResult)
    ensures !fetch.Fetched? ==> r == WorkerResult(0, [])
    ensures r.persisted != [] ==> fetch.Fetched? && commitOk
    ensures r.persisted == [] || r.added == |r.persisted|
    ensures forall k :: 0 <= k < |r.persisted| ==> r.persisted[k].link != "" && r.persisted[k].link !in stored
    ensures DistinctLinks(r.persisted)
    ensures fetch.Fetched? ==>
              forall k :: 0 <= k < |r.persisted| ==>
                exists i :: 0 <= i < |fetch.entries| && BuiltFrom(r.persisted[k], fetch.entries[i], scorer, threshold, sourceName)
  {
    match fetch
    case Fetched(entries) =>
      var b := BatchLoop(entries, stored, {}, scorer, threshold, sourceName);
      if b.Complete? && commitOk then WorkerResult(|b.batch|, b.batch)
      else WorkerResult(|b.batch|, [])
    case _ => WorkerResult(0, [])
  }

  /** The worker in terms of the reference: the count is the number of
      survivors scored before the strategy raised, and the commit persists
      them all exactly when none raised and the commit succeeded. */
  lemma WorkerMatchesReference(sourceName: string, entries: seq<Entry>, stored: set<string>,
                               scorer: Scorer, threshold: real, commitOk: bool)
    ensures var ref := ScoreAll(Survivors(entries, stored), scorer, threshold, sourceName);
            var r := ProcessSingleFeed(sourceName, Fetched(entries), stored, scorer, threshold, commitOk);
            && r.added == |ref.batch|
            && r.persisted == (if ref.Complete? && commitOk then ref.batch else [])
  {
    LoopMatchesReference(entries, stored, scorer, threshold, sourceName);
  }

  /** A strategy that never raises makes the loop run to its end. */
  lemma {:induction false} NeverRaisingLoopCompletes(entries: seq<Entry>, stored: set<string>, seen: set<string>,
                                                     scorer: Scorer, threshold: real, sourceName: string)
    requires NeverRaises(scorer)
    ensures BatchLoop(entries, stored, seen, scorer, threshold, sourceName).Complete?
    decreases |entries|
  {
    if |entries| > 0 {
      var e := entries[0];
      assert Score(scorer, ScoringText(e)).Scored?;
      if e.link == "" || e.link in stored || e.link in seen {
        NeverRaisingLoopCompletes(entries[1..], stored, seen, scorer, threshold, sourceName);
      } else {
        NeverRaisingLoopCompletes(entries[1..], stored, seen + {e.link}, scorer, threshold, sourceName);
      }
    }
  }

  /** When every non-empty link of the feed is already stored, the loop
      adds nothing and never calls the strategy. */
  lemma {:induction false} StoredFeedAddsNothing(entries: seq<Entry>, stored: set<string>, seen: set<string>,
                                                 scorer: Scorer, threshold: real, sourceName: string)
    requires forall i :: 0 <= i < |entries| && entries[i].link != "" ==> entries[i].link in stored
    ensures BatchLoop(entries, stored, seen, scorer, threshold, sourceName) == Complete([])
    decreases |entries|
  {
    if |entries| > 0 {
      assert forall i :: 0 <= i < |entries[1..]| ==> entries[1..][i] == entries[i + 1];
      StoredFeedAddsNothing(entries[1..], stored, seen, scorer, threshold, sourceName);
    }
  }

  /** Re-running a worker on the same entries after its commit succeeded
      adds nothing and reports zero. */
  lemma WorkerRerunAddsNothing(sourceName: string, entries: seq<Entry>, stored: set<string>,
                               scorer: Scorer, threshold: real, first: WorkerResult, commitOk: bool)
    requires NeverRaises(scorer)
    requires first == ProcessSingleFeed(sourceName, Fetched(entries), stored, scorer, threshold, true)
    ensures ProcessSingleFeed(sourceName, Fetched(entries), stored + LinkSet(first.persisted), scorer, threshold, commitOk)
         == WorkerResult(0, [])
  {
    NeverRaisingLoopCompletes(entries, stored, {}, scorer, threshold, sourceName);
    StoredFeedAddsNothing(entries, stored + LinkSet(first.persisted), {}, scorer, threshold, sourceName);
  }

  /** A commit failure rolls the batch back, yet the worker still reports
      the articles it had added: with one survivor the strategy scores, it
      reports a positive count while persisting nothing. */
  lemma RollbackStillReportsCount(sourceName: string, entries: seq<Entry>, stored: set<string>,
                                  scorer: Scorer, threshold: real)
    requires |Survivors(entries, stored)| > 0
    requires Score(scorer, ScoringText(Survivors(entries, stored)[0])).Scored?
    ensures ProcessSingleFeed(sourceName, Fetched(entries), stored, scorer, threshold, false).persisted == []
    ensures ProcessSingleFeed(sourceName, Fetched(entries), stored, scorer, threshold, false).added > 0
  {
    WorkerMatchesReference(sourceName, entries, stored, scorer, threshold, false);
  }

  /** A feed listing the same fresh link twice yields one article, built
      from the first of the two entries. */
  lemma DuplicateLinkInsertedOnce(sourceName: string, e1: Entry, e2: Entry, stored: set<string>,
                                  scorer: Scorer, threshold: real, s: real, reasons: seq<string>)
    requires e1.link == e2.link && e1.link != "" && e1.link !in stored
    requires Score(scorer, ScoringText(e1)) == Scored(s, reasons)
    ensures ProcessSingleFeed(sourceName, Fetched([e1, e2]), stored, scorer, threshold, true)
         == WorkerResult(1, [Build(e1, sourceName, s, reasons, threshold)])
  {
    var entries := [e1, e2];
    assert entries[1..] == [e2];
    assert [e2][1..] == [];
    LoopSkips([e2], stored, {e1.link}, scorer, threshold, sourceName);
    LoopKeeps(entries, stored, {}, scorer, threshold, sourceName);
    assert BatchLoop(entries, stored, {}, scorer, threshold, sourceName)
        == Complete([Build(e1, sourceName, s, reasons, threshold)]);
  }

  /** `a` and `b` differ at most in their alert flag. */
  predicate SameButFlag(a: PendingArticle, b: PendingArticle) {
    a.(isBubbled := b.isBubbled) == b
  }

  /** Changing the threshold changes only the alert flags, never which
      articles are built or their scores. */
  lemma {:induction false} ThresholdOnlyChangesFlags(es: seq<Entry>, scorer: Scorer, t1: real, t2: real, sourceName: string)
    ensures var r1 := ScoreAll(es, scorer, t1, sourceName);
            var r2 := ScoreAll(es, scorer, t2, sourceName);
            && r1.Complete? == r2.Complete?
            && |r1.batch| == |r2.batch|
            && forall k :: 0 <= k < |r1.batch| ==> SameButFlag(r1.batch[k], r2.batch[k])
    decreases |es|
  {
    if |es| > 0 {
      ThresholdOnlyChangesFlags(es[1..], scorer, t1, t2, sourceName);
      var r1 := ScoreAll(es, scorer, t1, sourceName);
      var r2 := ScoreAll(es, scorer, t2, sourceName);
      var q1 := ScoreAll(es[1..], scorer, t1, sourceName);
      var q2 := ScoreAll(es[1..], scorer, t2, sourceName);
      match Score(scorer, ScoringText(es[0]))
      case Raised =>
      case Scored(s, rs) =>
        assert r1.batch == [Build(es[0], sourceName, s, rs, t1)] + q1.batch;
        assert r2.batch == [Build(es[0], sourceName, s, rs, t2)] + q2.batch;
        forall k | 0 <= k < |r1.batch| ensures SameButFlag(r1.batch[k], r2.batch[k]) {
          if k > 0 {
            assert r1.batch[k] == q1.batch[k - 1] && r2.batch[k] == q2.batch[k - 1];
          }
        }
    }
  }

  /* ---------------------------------------------------------- the cycle */

  /** How one source's worker ended: it returned (after the given fetch
      outcome and commit outcome), or an exception escaped it. */
  datatype SourceRun = Ran(fetch: FetchOutcome, commitOk: bool) | Crashed

  /** Store and running total of a cycle. */
  datatype Fold = Fold(db: Db, total: nat)

  /** The store only grows: stored articles and the configuration tables
      are untouched. */
  ghost predicate Grows(db: Db, db2: Db) {
    && (forall l :: l in db.articles ==> l in db2.articles && db2.articles[l] == db.articles[l])
    && db2.sources == db.sources
    && db2.keywords == db.keywords
  }

  /** One source's contribution: the worker runs against the store as it is
      now and its commit, if any, is applied. A crashed worker changes
      nothing and contributes nothing. */
  function RunSource(db: Db, src: FeedSource, env: string -> SourceRun, scorer: Scorer, threshold: real): (r: Fold)
    ensures Valid(db) ==> Valid(r.db)
    ensures Grows(db, r.db)
    ensures |r.db.articles| <= |db.articles| + r.total
    ensures env(src.url).Crashed? ==> r == Fold(db, 0)
    ensures env(src.url).Ran? ==>
              var w := ProcessSingleFeed(src.name, env(src.url).fetch, db.articles.Keys, scorer, threshold, env(src.url).commitOk);
              r.total == w.added && r.db == Commit(db, w.persisted)
  {
    match env(src.url)
    case Crashed => Fold(db, 0)
    case Ran(fetch, ok) =>
      var w := ProcessSingleFeed(src.name, fetch, db.articles.Keys, scorer, threshold, ok);
      Fold(Commit(db, w.persisted), w.added)
  }

  /** The fan-in loop of `fetch_feeds`, run sequentially in snapshot order:
      the total is the sum of the workers' counts. */
  function RunSources(db: Db, srcs: seq<FeedSource>, env: string -> SourceRun, scorer: Scorer, threshold: real): (r: Fold)
    ensures Valid(db) ==> Valid(r.db)
    ensures Grows(db, r.db)
    ensures |r.db.articles| <= |db.articles| + r.total
    ensures |srcs| == 0 ==> r == Fold(db, 0)
    ensures |srcs| == 1 ==> r == RunSource(db, srcs[0], env, scorer, threshold)
    decreases |srcs|
  {
    if |srcs| == 0 then Fold(db, 0)
    else
      var f := RunSource(db, srcs[0], env, scorer, threshold);
      var g := RunSources(f.db, srcs[1..], env, scorer, threshold);
      Fold(g.db, f.total + g.total)
  }

  /** The snapshot of active sources, in table order. */
  function ActiveSources(sources: seq<FeedSource>): (r: seq<FeedSource>)
    ensures forall s :: s in r <==> s in sources && s.isActive
    ensures |r| <= |sources|
    ensures IsSubsequence(r, sources)
    ensures forall s :: multiset(r)[s] == if s.isActive then multiset(sources)[s] else 0
    decreases |sources|
  {
    if |sources| == 0 then []
    else
      var rest := ActiveSources(sources[1..]);
      assert sources == [sources[0]] + sources[1..];
      if sources[0].isActive then
        assert ([sources[0]] + rest)[1..] == rest;
        [sources[0]] + rest
      else rest
  }

  /** What a cycle logs at its end; `fetch_feeds` itself returns nothing. */
  datatype CycleLog = NoActiveFeeds | CycleComplete(totalAdded: nat, dispatched: nat)

  datatype CycleReport = CycleReport(db: Db, log: CycleLog)

  /** `fetch_feeds`: with no active source it stops before resolving a
      strategy; otherwise it resolves the strategy once from the artifact
      state and the keyword table, runs every active source and logs the
      total. */
  function FetchFeeds(db: Db, env: string -> SourceRun, artifactExists: bool, load: LoadOutcome,
                      threshold: real): (r: CycleReport)
    ensures Valid(db) ==> Valid(r.db)
    ensures Grows(db, r.db)
    ensures r.log.NoActiveFeeds? <==> |ActiveSources(db.sources)| == 0
    ensures r.log.NoActiveFeeds? ==> r.db == db
    ensures r.log.CycleComplete? ==> r.log.dispatched == |ActiveSources(db.sources)|
    ensures r.log.CycleComplete? ==> |r.db.articles| <= |db.articles| + r.log.totalAdded
    ensures r.log.CycleComplete? ==>
              Fold(r.db, r.log.totalAdded)
              == RunSources(db, ActiveSources(db.sources), env, GetScorer(artifactExists, load, TableOf(db.keywords)), threshold)
  {
    var active := ActiveSources(db.sources);
    if |active| == 0 then CycleReport(db, NoActiveFeeds)
    else
      var scorer := GetScorer(artifactExists, load, TableOf(db.keywords));
      var f := RunSources(db, active, env, scorer, threshold);
      CycleReport(f.db, CycleComplete(f.total, |active|))
  }

  /** Running two lists of sources one after the other is running their
      concatenation: `m` is the fold after `a`. */
  lemma {:induction false} RunSourcesConcat(db: Db, a: seq<FeedSource>, b: seq<FeedSource>,
                                            env: string -> SourceRun, scorer: Scorer, threshold: real, m: Fold)
    requires m == RunSources(db, a, env, scorer, threshold)
    ensures RunSources(db, a + b, env, scorer, threshold)
         == Fold(RunSources(m.db, b, env, scorer, threshold).db, m.total + RunSources(m.db, b, env, scorer, threshold).total)
    decreases |a|
  {
    if |a| == 0 {
      EmptyConcat(a, b);
      assert m == Fold(db, 0);
    } else {
      var x, t := a[0], a[1..];
      ConsConcat(a, b);
      var f := RunSource(db, x, env, scorer, threshold);
      var m' := RunSources(f.db, t, env, scorer, threshold);
      RunSourcesCons(db, x, t, env, scorer, threshold, f, m');
      assert m == Fold(m'.db, f.total + m'.total);
      RunSourcesConcat(f.db, t, b, env, scorer, threshold, m');
      var g := RunSources(f.db, t + b, env, scorer, threshold);
      var h := RunSources(m.db, b, env, scorer, threshold);
      assert g == Fold(h.db, m'.total + h.total);
      RunSourcesCons(db, x, t + b, env, scorer, threshold, f, g);
      assert RunSources(db, a + b, env, scorer, threshold) == Fold(g.db, f.total + g.total);
    }
  }

  lemma EmptyConcat<T>(a: seq<T>, b: seq<T>)
    requires |a| == 0
    ensures a + b == b
  {
  }

  lemma ConsConcat<T>(a: seq<T>, b: seq<T>)
    requires |a| > 0
    ensures a == [a[0]] + a[1..] && a + b == [a[0]] + (a[1..] + b)
  {
  }

  /** One step of the fan-in: the head source's fold `f`, then the rest's
      fold `g` from the store `f` leaves. */
  lemma RunSourcesCons(db: Db, x: FeedSource, rest: seq<FeedSource>, env: string -> SourceRun,
                       scorer: Scorer, threshold: real, f: Fold, g: Fold)
    requires f == RunSource(db, x, env, scorer, threshold)
    requires g == RunSources(f.db, rest, env, scorer, threshold)
    ensures RunSources(db, [x] + rest, env, scorer, threshold) == Fold(g.db, f.total + g.total)
  {
    assert ([x] + rest)[0] == x && ([x] + rest)[1..] == rest;
  }

  /** A crashed source at the head of the list is passed over. */
  lemma CrashedHead(db: Db, x: FeedSource, b: seq<FeedSource>, env: string -> SourceRun, scorer: Scorer, threshold: real)
    requires env(x.url).Crashed?
    ensures RunSources(db, [x] + b, env, scorer, threshold) == RunSources(db, b, env, scorer, threshold)
  {
    assert ([x] + b)[1..] == b;
  }

  /** A worker that crashed is ignored by the fan-in loop: the cycle ends
      as if its source had not been in the snapshot. */
  lemma CrashedSourceIsSkipped(db: Db, a: seq<FeedSource>, x: FeedSource, b: seq<FeedSource>,
                               env: string -> SourceRun, scorer: Scorer, threshold: real)
    requires env(x.url).Crashed?
    ensures RunSources(db, a + [x] + b, env, scorer, threshold) == RunSources(db, a + b, env, scorer, threshold)
  {
    var m := RunSources(db, a, env, scorer, threshold);
    assert a + [x] + b == a + ([x] + b);
    RunSourcesConcat(db, a, [x] + b, env, scorer, threshold, m);
    RunSourcesConcat(db, a, b, env, scorer, threshold, m);
    CrashedHead(m.db, x, b, env, scorer, threshold);
  }

  /** A worker whose commit failed at the head of the list: its count is
      added to the total, but the store it leaves is the one it found. */
  lemma RolledBackHead(db: Db, x: FeedSource, b: seq<FeedSource>, env: string -> SourceRun, scorer: Scorer, threshold: real)
    requires env(x.url).Ran? && !env(x.url).commitOk
    ensures var w := ProcessSingleFeed(x.name, env(x.url).fetch, db.articles.Keys, scorer, threshold, false);
            var g := RunSources(db, b, env, scorer, threshold);
            RunSources(db, [x] + b, env, scorer, threshold) == Fold(g.db, w.added + g.total)
  {
    var w := ProcessSingleFeed(x.name, env(x.url).fetch, db.articles.Keys, scorer, threshold, false);
    assert w.persisted == [];
    assert ([x] + b)[1..] == b;
  }

  /** A worker whose commit failed and was rolled back: the cycle stores what
      it would store without that source, yet the logged total still includes
      the count the worker returned after the rollback. */
  lemma RolledBackSourceStillCounted(db: Db, a: seq<FeedSource>, x: FeedSource, b: seq<FeedSource>,
                                     env: string -> SourceRun, scorer: Scorer, threshold: real)
    requires env(x.url).Ran? && !env(x.url).commitOk
    ensures var m := RunSources(db, a, env, scorer, threshold);
            var w := ProcessSingleFeed(x.name, env(x.url).fetch, m.db.articles.Keys, scorer, threshold, false);
            var skip := RunSources(db, a + b, env, scorer, threshold);
            RunSources(db, a + [x] + b, env, scorer, threshold) == Fold(skip.db, skip.total + w.added)
  {
    var m := RunSources(db, a, env, scorer, threshold);
    assert a + [x] + b == a + ([x] + b);
    RunSourcesConcat(db, a, [x] + b, env, scorer, threshold, m);
    RunSourcesConcat(db, a, b, env, scorer, threshold, m);
    RolledBackHead(m.db, x, b, env, scorer, threshold);
  }

  /** The cycle consults the environment only for the sources it runs. */
  lemma {:induction false} RunSourcesUsesOnlyListed(db: Db, srcs: seq<FeedSource>, env1: string -> SourceRun,
                                                    env2: string -> SourceRun, scorer: Scorer, threshold: real)
    requires forall s :: s in srcs ==> env1(s.url) == env2(s.url)
    ensures RunSources(db, srcs, env1, scorer, threshold) == RunSources(db, srcs, env2, scorer, threshold)
    decreases |srcs|
  {
    if |srcs| > 0 {
      assert srcs[0] in srcs;
      var f := RunSource(db, srcs[0], env1, scorer, threshold);
      assert f == RunSource(db, srcs[0], env2, scorer, threshold);
      assert forall s :: s in srcs[1..] ==> s in srcs;
      RunSourcesUsesOnlyListed(f.db, srcs[1..], env1, env2, scorer, threshold);
    }
  }

  /** Inactive sources are never fetched: a cycle's outcome does not depend
      on what their feeds would return. */
  lemma InactiveSourcesIgnored(db: Db, env1: string -> SourceRun, env2: string -> SourceRun,
                               artifactExists: bool, load: LoadOutcome, threshold: real)
    requires forall s :: s in db.sources && s.isActive ==> env1(s.url) == env2(s.url)
    ensures FetchFeeds(db, env1, artifactExists, load, threshold) == FetchFeeds(db, env2, artifactExists, load, threshold)
  {
    var active := ActiveSources(db.sources);
    if |active| > 0 {
      RunSourcesUsesOnlyListed(db, active, env1, env2, GetScorer(artifactExists, load, TableOf(db.keywords)), threshold);
    }
  }

  /** Every worker that ran had its commit succeed. */
  ghost predicate AllCommitsSucceed(env: string -> SourceRun) {
    forall u :: env(u).Ran? ==> env(u).commitOk
  }

  /** When every commit succeeds and the resolved strategy never raises, a
      cycle stores every link of every active source that fetched its feed. */
  lemma CycleStoresActiveFeeds(db: Db, env: string -> SourceRun, artifactExists: bool, load: LoadOutcome,
                               threshold: real)
    requires AllCommitsSucceed(env) && NeverRaises(GetScorer(artifactExists, load, TableOf(db.keywords)))
    ensures forall s :: s in db.sources && s.isActive && env(s.url).Ran? && env(s.url).fetch.Fetched? ==>
              AllLinksStored(env(s.url).fetch.entries, FetchFeeds(db, env, artifactExists, load, threshold).db.articles.Keys)
  {
    var active := ActiveSources(db.sources);
    PassCovers(db, active, env, GetScorer(artifactExists, load, TableOf(db.keywords)), threshold);
  }

  /** When every commit succeeds and the strategy never raises, the logged
      total is exactly the number of new rows. */
  lemma {:induction false} TotalCountsNewRows(db: Db, srcs: seq<FeedSource>, env: string -> SourceRun,
                                              scorer: Scorer, threshold: real)
    requires AllCommitsSucceed(env) && NeverRaises(scorer)
    ensures |RunSources(db, srcs, env, scorer, threshold).db.articles|
         == |db.articles| + RunSources(db, srcs, env, scorer, threshold).total
    decreases |srcs|
  {
    if |srcs| > 0 {
      var f := RunSource(db, srcs[0], env, scorer, threshold);
      if env(srcs[0].url).Ran? {
        var fetch, ok := env(srcs[0].url).fetch, env(srcs[0].url).commitOk;
        if fetch.Fetched? {
          NeverRaisingLoopCompletes(fetch.entries, db.articles.Keys, {}, scorer, threshold, srcs[0].name);
        }
        var w := ProcessSingleFeed(srcs[0].name, fetch, db.articles.Keys, scorer, threshold, ok);
        assert w.added == |w.persisted|;
      }
      assert |f.db.articles| == |db.articles| + f.total;
      TotalCountsNewRows(f.db, srcs[1..], env, scorer, threshold);
    }
  }

  /** Every non-empty link among `entries` is in `stored`. */
  ghost predicate AllLinksStored(entries: seq<Entry>, stored: set<string>) {
    forall i :: 0 <= i < |entries| && entries[i].link != "" ==> entries[i].link in stored
  }

  /** Every listed source that fetched its feed has all of its links
      stored. */
  ghost predicate Covered(db: Db, srcs: seq<FeedSource>, env: string -> SourceRun) {
    forall s :: s in srcs && env(s.url).Ran? && env(s.url).fetch.Fetched? ==>
      AllLinksStored(env(s.url).fetch.entries, db.articles.Keys)
  }

  /** After a source's worker commits, every link of its feed is stored. */
  lemma RunSourceCovers(db: Db, src: FeedSource, env: string -> SourceRun, scorer: Scorer, threshold: real)
    requires AllCommitsSucceed(env) && NeverRaises(scorer)
    requires env(src.url).Ran? && env(src.url).fetch.Fetched?
    ensures AllLinksStored(env(src.url).fetch.entries, RunSource(db, src, env, scorer, threshold).db.articles.Keys)
  {
    var entries := env(src.url).fetch.entries;
    NeverRaisingLoopCompletes(entries, db.articles.Keys, {}, scorer, threshold, src.name);
    var b := BatchLoop(entries, db.articles.Keys, {}, scorer, threshold, src.name);
    assert RunSource(db, src, env, scorer, threshold).db == Commit(db, b.batch);
  }

  /** A pass in which every commit succeeds covers every source it ran. */
  lemma {:induction false} PassCovers(db: Db, srcs: seq<FeedSource>, env: string -> SourceRun,
                                      scorer: Scorer, threshold: real)
    requires AllCommitsSucceed(env) && NeverRaises(scorer)
    ensures Covered(RunSources(db, srcs, env, scorer, threshold).db, srcs, env)
    decreases |srcs|
  {
    if |srcs| > 0 {
      var f := RunSource(db, srcs[0], env, scorer, threshold);
      var g := RunSources(f.db, srcs[1..], env, scorer, threshold);
      PassCovers(f.db, srcs[1..], env, scorer, threshold);
      if env(srcs[0].url).Ran? && env(srcs[0].url).fetch.Fetched? {
        RunSourceCovers(db, srcs[0], env, scorer, threshold);
      }
      forall s | s in srcs && env(s.url).Ran? && env(s.url).fetch.Fetched?
        ensures AllLinksStored(env(s.url).fetch.entries, g.db.articles.Keys)
      {
        if s != srcs[0] {
          assert s in srcs[1..];
        }
      }
    }
  }

  /** A pass over sources whose links are all stored changes nothing and
      counts nothing, whatever the strategy and the commit outcomes. */
  lemma {:induction false} CoveredPassIsNoop(db: Db, srcs: seq<FeedSource>, env: string -> SourceRun,
                                             scorer: Scorer, threshold: real)
    requires Covered(db, srcs, env)
    ensures RunSources(db, srcs, env, scorer, threshold) == Fold(db, 0)
    decreases |srcs|
  {
    if |srcs| > 0 {
      var src := srcs[0];
      assert src in srcs;
      if env(src.url).Ran? && env(src.url).fetch.Fetched? {
        StoredFeedAddsNothing(env(src.url).fetch.entries, db.articles.Keys, {}, scorer, threshold, src.name);
      }
      assert RunSource(db, src, env, scorer, threshold) == Fold(db, 0);
      assert forall s :: s in srcs[1..] ==> s in srcs;
      CoveredPassIsNoop(db, srcs[1..], env, scorer, threshold);
    }
  }

  /** Re-running a cycle against unchanged feeds inserts nothing and logs a
      total of zero, provided the first cycle's commits succeeded and its
      strategy never raised. */
  lemma CycleRerunAddsNothing(db: Db, env: string -> SourceRun, artifactExists: bool, load: LoadOutcome,
                              threshold: real, first: CycleReport)
    requires AllCommitsSucceed(env)
    requires NeverRaises(GetScorer(artifactExists, load, TableOf(db.keywords)))
    requires first == FetchFeeds(db, env, artifactExists, load, threshold)
    ensures FetchFeeds(first.db, env, artifactExists, load, threshold).db == first.db
    ensures first.log.CycleComplete? ==>
              FetchFeeds(first.db, env, artifactExists, load, threshold).log == CycleComplete(0, first.log.dispatched)
  {
    var active := ActiveSources(db.sources);
    if |active| > 0 {
      var scorer := GetScorer(artifactExists, load, TableOf(db.keywords));
      PassCovers(db, active, env, scorer, threshold);
      CoveredPassIsNoop(first.db, active, env, scorer, threshold);
    }
  }
}
