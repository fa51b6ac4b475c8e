# RSS_Filter core in Dafny

RSS_Filter pulls articles from a configurable list of RSS feeds. It drops
links it has already stored and scores each new article with a pluggable
strategy: a weighted keyword match, or a trained classifier when one is
available. Articles whose score reaches the alert threshold are flagged
for review on a Streamlit dashboard.

This project models that core as pure functions over immutable values:

- `Database`: the three tables (articles, feed sources, keywords) with their defaults and uniqueness constraints, the single commit of a worker's batch, and the seeding done by `init_db`.
- `Logic`: the keyword strategy, the classifier strategy and `get_scorer`.
- `Scheduler`: the per-source worker `process_single_feed` and one cycle of `fetch_feeds`.
- `App`: the dashboard's core. The review callback `change_status`, the bulk keyword and feed forms and the keyword delete button write to the store; the inbox query and the archive pagination only read it.
- `Text`: the Python string built-ins the core relies on. These are ASCII `lower`, substring `in`, `strip`, `split`, `int()` and `str()`.
- `Wrappers`: an `Option` type.

The store is a value. Articles are a map keyed by their unique link, and
the two configuration tables are sequences of rows in primary-key order.
The ghost predicate `Database.Valid` holds the schema's constraints:

- every article is stored under its own link;
- article ids are distinct and below the next id;
- source urls are unique;
- keyword words are unique.

Every operation that changes the store is proved to keep `Valid`.

Where the described behaviour and the code disagree, the model follows the code:

- A worker whose commit fails, or whose entry loop is interrupted, still returns the number of articles it had added (`src/scheduler.py:73` and `:90`). It does not return zero. `Scheduler.RollbackStillReportsCount` exhibits this.
- `fetch_feeds` returns nothing. The cycle total is only logged (`src/scheduler.py:129`). The model returns the store together with the logged `CycleLog`.
- An unreadable feed body does not raise: feedparser is lenient. Malformed content is therefore a fetch outcome (`FetchFailed`) only where parsing raises.
- `get_scorer` falls back to keywords silently (`src/logic.py:44-45`). No warning is modelled.

## Model

| member | source | states |
|---|---|---|
| Database.FeedbackCodes | src/database.py:23 | the review column holds exactly the codes 0, 1, 2; decoding inverts encoding and rejects every other integer |
| Database.NewArticle | src/database.py:12-23 | a new article row takes the declared defaults: score 0.0, not bubbled, unreviewed, no keywords |
| Database.NewFeedSource | src/database.py:26-31 | a new source keeps its url and name and is active by default |
| Database.Insert | src/scheduler.py:72 | adding an article with a fresh link keeps the constraints, adds exactly that key under the next id, and changes no stored row |
| Database.Commit | src/scheduler.py:72-75 | one commit of a batch with distinct fresh links stores each article under its link with consecutive ids in batch order; keys grow by exactly the batch's links; existing rows and the configuration tables are untouched |
| Database.InitDb | src/database.py:39-54 | each configuration table gets its defaults only when it is empty; articles are never touched |
| Database.InitDbSeedsOnce | src/database.py:44-51 | after seeding both tables are non-empty and valid, seeded sources are active, and seeding again changes nothing |
| Text.Lower | src/logic.py:21 | lower-casing keeps the length and maps each character by ASCII case folding |
| Text.LowerForgetsCase | src/app.py:209 | lower-casing is idempotent |
| Text.Contains | src/logic.py:25 | `word in text` holds exactly when the word occurs at some position of the text |
| Text.ContainsEmbedded | src/logic.py:25 | a word is found inside any text that embeds it |
| Text.Strip | src/app.py:207 | stripping never lengthens the text, leaves no whitespace at either end, and gives the empty text exactly when the input is all whitespace |
| Text.StripKeepsOut | src/app.py:253-254 | stripping adds no character: a url taken from the text before the first comma holds no comma |
| Text.StripPadded | src/app.py:209 | stripping removes whitespace padding around a value and keeps the value itself |
| Text.Split | src/app.py:202 | splitting yields at least one part, no part holds the separator, and joining the parts gives back the input |
| Text.SplitJoin | src/app.py:208 | splitting a join of separator-free parts gives back those parts |
| Text.SplitHead | src/app.py:208 | the text before the first separator is the first field, and the rest splits on its own |
| Text.ParseInt | src/app.py:213 | `int()` rejects empty text, text that starts with neither a sign nor a digit, and text of more than 4300 digits (CPython's default cap; underscores and the sign do not count) |
| Text.ParseIntToString | src/app.py:213 | `int(str(n)) == n` for every integer of at most 4300 digits; past the cap `int()` refuses the text |
| Text.DigitsBelowPower | src/app.py:213 | a natural number has at most k digits iff it is below 10^k, so the 4300-digit cap admits exactly the magnitudes below 10^4300 |
| Logic.KeywordScore | src/logic.py:20-28 | the reasons are exactly the table words contained in the lower-cased text |
| Logic.ScoreIsSumOfReasonWeights | src/logic.py:24-27 | with distinct words, the score is the sum of the weights of the reported words |
| Logic.ReasonsInTableOrder | src/logic.py:24-27 | the reasons appear in table order |
| Logic.ReasonsDistinct | src/logic.py:24-27 | with distinct table words, no reason is reported twice |
| Logic.ScoreIgnoresTableOrder | src/logic.py:17 | the score does not depend on the order in which the keyword table is read |
| Logic.ReasonsIgnoreTableOrder | src/logic.py:17-27 | nor do the reasons, counted with multiplicity: any order of the same rows reports the same words, each as often; only their order follows the rows |
| Logic.ScoreDependsOnlyOnMatchedWords | src/logic.py:24-27 | two texts that contain the same table words score alike |
| Logic.CaseVariantsScoreAlike | src/logic.py:21 | upper-casing the text does not change its score or reasons |
| Logic.KeywordInsideLongerWord | src/logic.py:25 | matching is by substring: a keyword embedded in a longer word still counts |
| Logic.EmptyTableScoresZero | src/logic.py:22-28 | with no keywords every text scores zero with no reasons |
| Logic.SeededKeywordsExample | src/database.py:49-51 | with the seeded table, "Critical RCE found" scores 110 for "critical" and "rce" |
| Logic.SeededRepeatedKeywordExample | src/logic.py:24-27 | a keyword repeated in the text is counted once |
| Logic.Score | src/logic.py:20-38 | the keyword strategy never raises; the classifier reports probability times 100 with the single reason "ML Prediction", and raises exactly when the model does |
| Logic.GetScorer | src/logic.py:40-47 | the classifier is chosen exactly when the artifact exists and loads; otherwise the keyword strategy over the current table |
| Logic.FallbackUsesKeywords | src/logic.py:44-47 | a missing or unloadable artifact gives keyword scoring, which never raises |
| Scheduler.BatchLoop | src/scheduler.py:40-73 | every kept entry has a fresh non-empty link and becomes the article built from it; kept links are distinct; an exception from the strategy stops the loop |
| Scheduler.LoopMatchesReference | src/scheduler.py:40-73 | the loop equals an independent definition: drop linkless, stored and repeated links, then score the survivors in order until one raises |
| Scheduler.ProcessSingleFeed | src/scheduler.py:21-90 | a fetch failure yields (0, nothing); articles persist only when the loop completed and the commit succeeded; persisted links are fresh, distinct and built from the feed's entries |
| Scheduler.WorkerMatchesReference | src/scheduler.py:72-90 | the reported count is the number of survivors scored before any exception; they are persisted exactly when none raised and the commit succeeded |
| Scheduler.NeverRaisingLoopCompletes | src/scheduler.py:59 | with a strategy that never raises, the entry loop runs to its end |
| Scheduler.StoredFeedAddsNothing | src/scheduler.py:46-47 | when every link of the feed is stored, the loop adds nothing |
| Scheduler.WorkerRerunAddsNothing | src/scheduler.py:46-47 | re-running a worker on the same entries after its commit succeeded reports zero and adds nothing |
| Scheduler.RollbackStillReportsCount | src/scheduler.py:83-90 | after a failed commit the worker persists nothing yet reports a positive count |
| Scheduler.DuplicateLinkInsertedOnce | src/scheduler.py:50-52 | a link listed twice in one feed yields one article, built from its first entry |
| Scheduler.ThresholdOnlyChangesFlags | src/scheduler.py:69 | the alert threshold affects only the alert flags, never which articles are built or their scores |
| Scheduler.RunSource | src/scheduler.py:121-127 | a worker that ran contributes exactly the count `process_single_feed` returns, and the store becomes the commit of exactly the rows it persisted; the store only grows; a crashed worker changes nothing and contributes zero |
| Scheduler.RunSources | src/scheduler.py:121-125 | over one source the fan-in is that source's run, over none it changes nothing; with Scheduler.RunSourcesConcat this fixes the total as the sum of the workers' counts; the store stays valid and growing, and the new rows never exceed the total |
| Scheduler.ActiveSources | src/scheduler.py:97 | the snapshot holds the active sources in table order, each exactly as often as in the table, and no inactive source |
| Scheduler.FetchFeeds | src/scheduler.py:92-129 | with no active source the store is untouched and "no active feeds" is logged; otherwise every active source is dispatched once, the store and the logged total are those of the fan-in over the active snapshot with the strategy resolved once, and the total bounds the new rows |
| Scheduler.RunSourcesConcat | src/scheduler.py:121-125 | running two lists of sources in turn is running their concatenation, and the totals add |
| Scheduler.CrashedSourceIsSkipped | src/scheduler.py:126-127 | a crashed worker leaves the cycle as if its source were absent |
| Scheduler.InactiveSourcesIgnored | src/scheduler.py:97 | a cycle does not depend on what inactive sources' feeds would return |
| Scheduler.RolledBackSourceStillCounted | src/scheduler.py:84-90 | a worker whose commit is rolled back leaves the cycle's store as if its source were absent, yet its returned count is added to the logged total (line 124) |
| Scheduler.CycleStoresActiveFeeds | src/scheduler.py:97-127 | when every commit succeeds and the resolved strategy never raises, every link of every active source that fetched its feed is stored after the cycle |
| Scheduler.TotalCountsNewRows | src/scheduler.py:125 | when every commit succeeds and the strategy never raises, the logged total equals the number of new rows |
| Scheduler.CycleRerunAddsNothing | src/scheduler.py:92-129 | a second cycle over the same feed documents with successful commits adds nothing and logs zero |
| App.ParseKeywordLine | src/app.py:207-215 | a line is skipped exactly when it is blank; the word is a stripped lower-case field unless the text spans lines; a line without a comma gets weight 10 |
| App.KeywordLineValue | src/app.py:208-215 | for any line with two or more fields the word is the first field stripped and lower-cased, the weight is read from the second field, and later fields are ignored |
| App.KeywordLineOneField | src/app.py:208-210 | for any non-blank line without a comma the word is the whole line stripped and lower-cased, with weight 10 |
| App.PaddedWordExample | src/app.py:209 | the line " Zero-Day " gives the keyword "zero-day" with weight 10 |
| App.KeywordLineRoundTrip | src/app.py:207-215 | reading back `word, weight` gives that keyword for every weight of at most 4300 digits, and the default weight 10 for a longer one |
| App.BareWordGetsDefaultWeight | src/app.py:210 | a line with only a word gets weight 10 |
| App.UnreadableWeightGetsDefault | src/app.py:212-215 | a weight `int()` rejects falls back to 10 instead of rejecting the line |
| App.ParseFeedLine | src/app.py:252-255 | a line is skipped exactly when it is blank; the url holds no comma; the new source is active; a line without a comma gets the name "New Feed" |
| App.FeedLineValue | src/app.py:253-255 | for any line with two or more fields the url and the name are the first two fields stripped, and later fields are ignored |
| App.FeedLineOneField | src/app.py:253-255 | for any non-blank line without a comma the url is the whole line stripped and the name is "New Feed" |
| App.FeedLineRoundTrip | src/app.py:253-255 | reading back `url, name` gives an active source with that url and name |
| App.BareUrlGetsDefaultName | src/app.py:255 | a line with only a url gets the name "New Feed" |
| App.NonBlank | src/app.py:207 | a line is kept only when it is non-blank, and every non-blank line is kept |
| App.NonBlankInOrder | src/app.py:206-207 | the kept lines keep the submission's order |
| App.NonBlankCounts | src/app.py:206-207 | each non-blank line is kept as often as it occurs, repeated lines included |
| App.Fresh | src/app.py:217-220 | a row is staged exactly when its key was not in the table before the submission |
| App.FreshInOrder | src/app.py:217-220 | the staged rows keep the submission's order |
| App.FreshCounts | src/app.py:217-220 | a row with an unknown key is staged as often as it is submitted, repeats included, so the `added` counter counts repeats |
| App.FreshDistinct | src/app.py:217-224 | the staged rows have distinct keys exactly when no new key is submitted twice |
| App.Submit | src/app.py:217-224 | every row is counted as added or skipped; the commit succeeds exactly when no new key repeats; a failed commit leaves the table unchanged; a successful one appends the new rows and keeps keys unique |
| App.ResubmitSkipsAll | src/app.py:217-222 | submitting the same rows again after a successful commit skips every row |
| App.CommittedKeysStored | src/app.py:217-224 | after a successful commit every submitted key is in the table |
| App.AddKeywords | src/app.py:199-224 | the keyword form keeps the store valid and touches only the keyword table; added plus skipped is the number of non-blank lines; a failed commit changes nothing |
| App.KeywordResubmitSkipsAll | src/app.py:217-222 | submitting the same keyword text twice adds nothing the second time |
| App.RepeatedNewWordFailsCommit | src/app.py:217-224 | a new word on two lines is staged twice and the commit fails: nothing is added; the local counter holds 2, but the commit raises before it is shown |
| App.SubmitDeduped | src/app.py:217-224 | the intended submission always commits, keeps keys unique and leaves every submitted key in the table |
| App.AddKeywordsDeduped | src/app.py:199-224 | the intended keyword form always commits and stores every submitted word |
| App.RepeatedNewWordAddedOnce | src/app.py:217-222 | under the intended staging a new word on two lines is added once and the second line is skipped |
| App.KeywordFormsAgreeWhenCommitted | src/app.py:217-224 | whenever the form as written commits, the intended form gives the same store and counters |
| App.DeleteKeyword | src/app.py:236-238 | deleting removes exactly the rows with that word; an absent word changes nothing |
| App.AddThenDeleteRestores | src/app.py:219-238 | adding one new word and deleting it restores the store |
| App.AddFeeds | src/app.py:245-264 | the feed form keeps urls unique, touches only the source table, counts every non-blank line, and makes new sources active |
| App.FeedResubmitSkipsAll | src/app.py:257-262 | submitting the same feed text twice adds nothing the second time |
| App.RepeatedNewUrlFailsCommit | src/app.py:257-264 | a new url on two lines is staged twice and the commit fails: nothing is registered |
| App.AddFeedsDeduped | src/app.py:245-264 | the intended feed form always commits and registers every submitted url |
| App.RepeatedNewUrlAddedOnce | src/app.py:257-262 | under the intended staging a new url on two lines is registered once |
| App.FeedFormsAgreeWhenCommitted | src/app.py:257-264 | whenever the feed form as written commits, the intended form gives the same result |
| App.TotalPages | src/app.py:121-122 | the page count is at least one, its pages cover all articles, and no page is empty except for an empty archive |
| App.ArchivePage | src/app.py:132-138 | an allowed page shows at most per-page articles, in archive order from the page's offset; it is full unless it is the last page, and non-empty unless the archive is |
| App.OffsetInRange | src/app.py:125-132 | every page the selector allows starts inside the archive |
| App.PageOfIndex | src/app.py:119-138 | every article is shown on some allowed page, at the position its index gives |
| App.ChangeStatus | src/app.py:19-25 | the article with that id gets the new review flag, and the new alert flag when one is given; nothing else changes; an unknown id changes nothing |
| App.ChangeStatusIdempotent | src/app.py:19-25 | pressing the same review button twice acts as pressing it once |
| App.AcknowledgeThenReopen | src/app.py:19-25 | acknowledging an unreviewed article and re-opening it (the two buttons at lines 80 and 109) restores the store |
| App.ReviewLeavesInbox | src/app.py:80-81 | acknowledging or dismissing takes the article out of the inbox |
| App.MarkCriticalEntersInbox | src/app.py:155 | marking an archived article critical puts it into the inbox |
| App.PendingArticles | src/app.py:55-57 | the inbox candidates are exactly the stored articles that are bubbled and unreviewed |
| App.InsertByScore | src/app.py:58 | insertion keeps the descending score order and adds exactly one occurrence of the article |
| App.PendingCount | src/app.py:55-57 | under the unique `link` column there are as many pending articles as pending rows |
| App.Inbox | src/app.py:55-58 | the inbox holds only pending articles, each once, by descending score; it has min(pending rows, 30) of them, and no pending article left out scores above one shown |

## Left out

- Network I/O, HTTP headers, timeouts and feedparser are not modelled. Each source's fetch is a given `FetchOutcome`: entries, a timeout, an HTTP error or another failure. Which one occurs is a parameter of the cycle.
- Concurrency is not modelled. The thread pool's workers run sequentially in snapshot order, each against the store left by the previous one. Completion order (`as_completed`) affects only the order of log lines, so it is ignored. Two workers racing on the same link, where one commit fails on the unique constraint, are not modelled.
- Logging, wall-clock time and the scheduler loop are not modelled. This covers `published_date`, the 15-minute schedule and the startup run. The archive is given as the newest-first sequence the query orders by `published_date`.
- Scores are exact reals. Floating point, `float(score)` and the float division inside `math.ceil` are not modelled. `App.TotalPages` uses the integer ceiling.
- Classifier internals are out of scope. `predict_proba`, joblib and training (`src/train_model.py`) are represented by a function from text to an optional probability, where none means the call raised. The artifact's existence and its load outcome are parameters.
- Case folding is ASCII only: Unicode case folding is not modelled, and neither are the non-ASCII digits `int()` accepts. Whitespace is Python's full `str.isspace` set.
- Rendering is not modelled. This includes the Streamlit widgets, the score colours, the "Training Data" view and the truncate buttons. So is the order in which the keyword list is displayed.
- Surrogate ids of sources and keywords are not modelled. A keyword is deleted by its unique word, which names the same row.
- A database error inside the entry loop, such as a failing dedup query, is not modelled separately. It has the same effect as an exception from the strategy: the loop stops and the session rolls back.
- Scheduler.RunSource: a worker crash that escapes to the fan-in is modelled as happening before its commit. A crash after a successful commit (for example in `session.close()`) would leave rows that the total does not count.
- Keyword weights are unbounded integers. The database's 32-bit column is not modelled.
- Text.ParseInt: the digit cap is fixed at CPython's default of 4300. A cap changed through `sys.set_int_max_str_digits` or `PYTHONINTMAXSTRDIGITS`, and interpreters that predate the cap, are not modelled.
- Scheduler.ActiveSources: the query at `src/scheduler.py:97` has no ORDER BY. The model takes the table's row order, which only fixes the order in which the sequential workers run.
- App.Inbox: for articles with equal scores the order is left open, as the query fixes none.
- Logic.TableOf: the keyword rows are read in primary-key order. The query at `src/logic.py:17` has no ORDER BY, so the database chooses the order, and with it the order of `keywords_found`. Logic.ScoreIgnoresTableOrder and Logic.ReasonsIgnoreTableOrder show that the score and the reasons, counted with multiplicity, do not depend on that order.
- Scheduler.RunSource: a failed commit leaves `nextArticleId` unchanged. In PostgreSQL the flush inside `session.commit()` (`src/scheduler.py:75`) draws sequence values that the rollback does not return, so later real ids are larger than the model's. The model's properties use only that ids are distinct and below `nextArticleId`.

## Findings

| source | as written | input that shows it | evidently intended | confidence | as-written member | corrected member |
|---|---|---|---|---|---|---|
| src/app.py:217-224 | The existence check queries only committed rows, because the session does not autoflush. A new word on two lines is staged twice and the single commit fails on the unique `word` constraint, so the whole submission is lost. | the text "zero-day\nzero-day" when "zero-day" is not yet a keyword | the second line is skipped as a duplicate and the word is added once | medium, not executed | App.RepeatedNewWordFailsCommit | App.RepeatedNewWordAddedOnce |
| src/app.py:257-264 | The same staging in the feed form: a new url on two lines is staged twice and the commit fails on the unique `url` constraint. | the text "https://a.example/rss\nhttps://a.example/rss" when that url is not registered | the url is registered once | medium, not executed | App.RepeatedNewUrlFailsCommit | App.RepeatedNewUrlAddedOnce |
