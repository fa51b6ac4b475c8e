/**
 The two interchangeable scoring strategies and the choice between them.
 The keyword strategy lower-cases the text and sums the weight of every
 keyword that occurs in it as a substring; the classifier strategy is an
 opaque probability function. `GetScorer` picks the classifier only when
 its artifact exists and loads.
 */
module Logic {
  import opened Wrappers
  import opened Text
  import Database

  /* ---------------------------------------------------------- keywords */

  /** The keyword dictionary `{word: weight}` in its iteration order. */
  type KeywordTable = seq<(string, int)>

  function WordsOf(table: KeywordTable): (ws: seq<string>)
    ensures |ws| == |table|
    ensures forall i :: 0 <= i < |table| ==> ws[i] == table[i].0
  {
    seq(|table|, i requires 0 <= i < |table| => table[i].0)
  }

  /** Dictionary keys are distinct. */
  predicate DistinctWords(table: KeywordTable) {
    forall i, j :: 0 <= i < j < |table| ==> table[i].0 != table[j].0
  }

  /** The dictionary the keyword scorer builds from the keyword rows,
      `{k.word: k.weight for k in rows}`, in row order. */
  function TableOf(rows: seq<Database.Keyword>): (t: KeywordTable)
    ensures |t| == |rows|
    ensures forall i :: 0 <= i < |rows| ==> t[i] == (rows[i].word, rows[i].weight)
    ensures Database.UniqueWords(rows) ==> DistinctWords(t)
  {
    seq(|rows|, i requires 0 <= i < |rows| => (rows[i].word, rows[i].weight))
  }

  /** A keyword score with the matched words as reasons. */
  datatype Match = Match(score: int, reasons: seq<string>)

  /** The loop of `KeywordScorer.score` over an already lower-cased text.
      Its reasons are exactly the table's words that occur in the text. */
  function MatchKeywords(table: KeywordTable, lowered: string): (r: Match)
    ensures |r.reasons| <= |table|
    ensures forall w :: w in r.reasons <==> w in WordsOf(table) && Contains(lowered, w)
    decreases |table|
  {
    if |table| == 0 then Match(0, [])
    else
      var rest := MatchKeywords(table[1..], lowered);
      assert WordsOf(table) == [table[0].0] + WordsOf(table[1..]);
      if Contains(lowered, table[0].0) then
        Match(table[0].1 + rest.score, [table[0].0] + rest.reasons)
      else rest
  }

  /** `KeywordScorer.score(text)`. */
  function KeywordScore(table: KeywordTable, text: string): (r: Match)
    ensures forall w :: w in r.reasons <==> w in WordsOf(table) && Contains(Lower(text), w)
  {
    MatchKeywords(table, Lower(text))
  }

  /* ----------------------------------------------- facts about the score */

  /** The weight of `w` in the table (its first row). */
  function WeightOf(table: KeywordTable, w: string): int
    decreases |table|
  {
    if |table| == 0 then 0
    else if table[0].0 == w then table[0].1
    else WeightOf(table[1..], w)
  }

  /** The sum of the weights of a list of words. */
  function SumWeights(table: KeywordTable, ws: seq<string>): int
    decreases |ws|
  {
    if |ws| == 0 then 0 else WeightOf(table, ws[0]) + SumWeights(table, ws[1..])
  }

  lemma {:induction false} SumWeightsSkipsHead(table: KeywordTable, ws: seq<string>)
    requires |table| > 0
    requires table[0].0 !in ws
    ensures SumWeights(table, ws) == SumWeights(table[1..], ws)
    decreases |ws|
  {
    if |ws| > 0 {
      assert ws[0] != table[0].0;
      assert ws[1..] == ws[1..] && forall x :: x in ws[1..] ==> x in ws;
      SumWeightsSkipsHead(table, ws[1..]);
    }
  }

  /** The score is the sum of the weights of the reasons: every matched
      keyword contributes its weight exactly once. */
  lemma {:induction false} ScoreIsSumOfReasonWeights(table: KeywordTable, lowered: string)
    requires DistinctWords(table)
    ensures MatchKeywords(table, lowered).score
         == SumWeights(table, MatchKeywords(table, lowered).reasons)
    decreases |table|
  {
    if |table| > 0 {
      var tail := table[1..];
      assert DistinctWords(tail) by {
        forall i, j | 0 <= i < j < |tail| ensures tail[i].0 != tail[j].0 {
          assert tail[i] == table[i + 1] && tail[j] == table[j + 1];
        }
      }
      ScoreIsSumOfReasonWeights(tail, lowered);
      var rest := MatchKeywords(tail, lowered);
      assert table[0].0 !in WordsOf(tail) by {
        forall i | 0 <= i < |tail| ensures WordsOf(tail)[i] != table[0].0 {
          assert tail[i] == table[i + 1];
        }
      }
      assert table[0].0 !in rest.reasons;
      SumWeightsSkipsHead(table, rest.reasons);
      if Contains(lowered, table[0].0) {
        var rs := [table[0].0] + rest.reasons;
        assert rs[1..] == rest.reasons;
      }
    }
  }

  /** Reasons follow the table's iteration order. */
  lemma {:induction false} ReasonsInTableOrder(table: KeywordTable, lowered: string)
    ensures IsSubsequence(MatchKeywords(table, lowered).reasons, WordsOf(table))
    decreases |table|
  {
    if |table| > 0 {
      ReasonsInTableOrder(table[1..], lowered);
      assert WordsOf(table)[1..] == WordsOf(table[1..]);
      var rs := MatchKeywords(table, lowered).reasons;
      if Contains(lowered, table[0].0) {
        assert rs[1..] == MatchKeywords(table[1..], lowered).reasons;
      }
    }
  }

  predicate NoDuplicates(s: seq<string>) {
    forall i, j :: 0 <= i < j < |s| ==> s[i] != s[j]
  }

  /** Given distinct keyword words, no reason is listed twice. */
  lemma {:induction false} ReasonsDistinct(table: KeywordTable, lowered: string)
    requires DistinctWords(table)
    ensures NoDuplicates(MatchKeywords(table, lowered).reasons)
    decreases |table|
  {
    if |table| > 0 {
      var tail := table[1..];
      assert DistinctWords(tail) by {
        forall i, j | 0 <= i < j < |tail| ensures tail[i].0 != tail[j].0 {
          assert tail[i] == table[i + 1] && tail[j] == table[j + 1];
        }
      }
      ReasonsDistinct(tail, lowered);
      var rest := MatchKeywords(tail, lowered).reasons;
      assert table[0].0 !in WordsOf(tail) by {
        forall i | 0 <= i < |tail| ensures WordsOf(tail)[i] != table[0].0 {
          assert tail[i] == table[i + 1];
        }
      }
      var rs := MatchKeywords(table, lowered).reasons;
      if Contains(lowered, table[0].0) {
        assert rs == [table[0].0] + rest;
        forall i, j | 0 <= i < j < |rs| ensures rs[i] != rs[j] {
          assert rs[j] == rest[j - 1] && rest[j - 1] in rest;
          assert rest[j - 1] in WordsOf(tail);
          if i > 0 {
            assert rs[i] == rest[i - 1];
            assert rest[i - 1] != rest[j - 1];
          }
        }
      }
    }
  }

  /** The score of each row with respect to a text. */
  function RowWeight(row: (string, int), lowered: string): int {
    if Contains(lowered, row.0) then row.1 else 0
  }

  lemma {:induction false} ScoreIsRowSum(table: KeywordTable, lowered: string)
    ensures MatchKeywords(table, lowered).score
         == (if |table| == 0 then 0 else RowWeight(table[0], lowered) + MatchKeywords(table[1..], lowered).score)
  {
  }

  lemma {:induction false} ScoreOfConcat(a: KeywordTable, b: KeywordTable, lowered: string)
    ensures MatchKeywords(a + b, lowered).score == MatchKeywords(a, lowered).score + MatchKeywords(b, lowered).score
    decreases |a|
  {
    if |a| > 0 {
      assert (a + b)[1..] == a[1..] + b;
      ScoreOfConcat(a[1..], b, lowered);
      ScoreIsRowSum(a + b, lowered);
      ScoreIsRowSum(a, lowered);
    } else {
      assert a + b == b;
    }
  }

  /** The score does not depend on the dictionary's iteration order: any
      rearrangement of the same rows gives the same score. */
  lemma {:induction false} ScoreIgnoresTableOrder(t1: KeywordTable, t2: KeywordTable, lowered: string)
    requires multiset(t1) == multiset(t2)
    ensures MatchKeywords(t1, lowered).score == MatchKeywords(t2, lowered).score
    decreases |t1|
  {
    if |t1| == 0 {
      assert |t2| == |multiset(t2)| == 0;
    } else {
      var x := t1[0];
      assert x in multiset(t2);
      var k :| 0 <= k < |t2| && t2[k] == x;
      var others := t2[..k] + t2[k + 1..];
      RemoveOne(t1, t2, k, others);
      ScoreIgnoresTableOrder(t1[1..], others, lowered);
      ScoreWithout(t2, k, others, lowered);
      ScoreIsRowSum(t1, lowered);
    }
  }

  /** Taking the first row out of `t1` and a matching row out of `t2`
      leaves equal multisets. */
  lemma RemoveOne(t1: KeywordTable, t2: KeywordTable, k: nat, others: KeywordTable)
    requires multiset(t1) == multiset(t2) && |t1| > 0
    requires k < |t2| && t2[k] == t1[0] && others == t2[..k] + t2[k + 1..]
    ensures multiset(t1[1..]) == multiset(others)
  {
    var x := t1[0];
    assert t2 == t2[..k] + [x] + t2[k + 1..];
    assert t1 == [x] + t1[1..];
    assert multiset(t2) == multiset(t2[..k]) + multiset([x]) + multiset(t2[k + 1..]);
    assert multiset(others) == multiset(t2[..k]) + multiset(t2[k + 1..]);
    assert multiset(t1) == multiset([x]) + multiset(t1[1..]);
    assert multiset(t1[1..]) == multiset(t1) - multiset{x};
    assert multiset(others) == multiset(t2) - multiset{x};
  }

  /** The score of a table is the weight of any one row plus the score of
      the remaining rows. */
  lemma ScoreWithout(t: KeywordTable, k: nat, others: KeywordTable, lowered: string)
    requires k < |t| && others == t[..k] + t[k + 1..]
    ensures MatchKeywords(t, lowered).score == RowWeight(t[k], lowered) + MatchKeywords(others, lowered).score
  {
    var x := t[k];
    assert t == t[..k] + ([x] + t[k + 1..]);
    ScoreOfConcat(t[..k], [x] + t[k + 1..], lowered);
    ScoreOfConcat([x], t[k + 1..], lowered);
    ScoreOfConcat(t[..k], t[k + 1..], lowered);
    ScoreIsRowSum([x], lowered);
    assert [x][1..] == [];
  }

  /** The reason one row contributes. */
  function RowReasons(row: (string, int), lowered: string): seq<string> {
    if Contains(lowered, row.0) then [row.0] else []
  }

  lemma {:induction false} ReasonsOfConcat(a: KeywordTable, b: KeywordTable, lowered: string)
    ensures MatchKeywords(a + b, lowered).reasons == MatchKeywords(a, lowered).reasons + MatchKeywords(b, lowered).reasons
    decreases |a|
  {
    if |a| > 0 {
      assert (a + b)[1..] == a[1..] + b;
      assert (a + b)[0] == a[0];
      ReasonsOfConcat(a[1..], b, lowered);
      var ra := MatchKeywords(a[1..], lowered).reasons;
      var rb := MatchKeywords(b, lowered).reasons;
      assert RowReasons(a[0], lowered) + (ra + rb) == (RowReasons(a[0], lowered) + ra) + rb;
    } else {
      assert a + b == b;
    }
  }

  /** The reasons of a table, counted with multiplicity, are the reason of
      any one row together with the reasons of the remaining rows. */
  lemma ReasonsWithout(t: KeywordTable, k: nat, others: KeywordTable, lowered: string)
    requires k < |t| && others == t[..k] + t[k + 1..]
    ensures multiset(MatchKeywords(t, lowered).reasons)
         == multiset(RowReasons(t[k], lowered)) + multiset(MatchKeywords(others, lowered).reasons)
  {
    var x := t[k];
    assert t == t[..k] + ([x] + t[k + 1..]);
    ReasonsOfConcat(t[..k], [x] + t[k + 1..], lowered);
    ReasonsOfConcat([x], t[k + 1..], lowered);
    ReasonsOfConcat(t[..k], t[k + 1..], lowered);
    assert MatchKeywords([x], lowered).reasons == RowReasons(x, lowered) by {
      assert [x][1..] == [];
    }
  }

  /** The reasons do not depend on the dictionary's iteration order either,
      up to their own order: any rearrangement of the same rows reports the
      same reasons, each as often. */
  lemma {:induction false} ReasonsIgnoreTableOrder(t1: KeywordTable, t2: KeywordTable, lowered: string)
    requires multiset(t1) == multiset(t2)
    ensures multiset(MatchKeywords(t1, lowered).reasons) == multiset(MatchKeywords(t2, lowered).reasons)
    decreases |t1|
  {
    if |t1| == 0 {
      assert |t2| == |multiset(t2)| == 0;
    } else {
      var x := t1[0];
      assert x in multiset(t2);
      var k :| 0 <= k < |t2| && t2[k] == x;
      var others := t2[..k] + t2[k + 1..];
      RemoveOne(t1, t2, k, others);
      ReasonsIgnoreTableOrder(t1[1..], others, lowered);
      ReasonsWithout(t2, k, others, lowered);
      assert MatchKeywords(t1, lowered).reasons == RowReasons(x, lowered) + MatchKeywords(t1[1..], lowered).reasons;
    }
  }

  /** A keyword adds its weight once however often it occurs: two texts in
      which the same keywords occur score the same and give the same reasons. */
  lemma {:induction false} ScoreDependsOnlyOnMatchedWords(table: KeywordTable, a: string, b: string)
    requires forall i :: 0 <= i < |table| ==> (Contains(Lower(a), table[i].0) <==> Contains(Lower(b), table[i].0))
    ensures KeywordScore(table, a) == KeywordScore(table, b)
    decreases |table|
  {
    if |table| > 0 {
      var tail := table[1..];
      forall i | 0 <= i < |tail|
        ensures Contains(Lower(a), tail[i].0) <==> Contains(Lower(b), tail[i].0)
      {
        assert tail[i] == table[i + 1];
      }
      ScoreDependsOnlyOnMatchedWords(tail, a, b);
    }
  }

  /** Only the lower-cased text matters: case variants score identically. */
  lemma CaseVariantsScoreAlike(table: KeywordTable, text: string)
    ensures KeywordScore(table, Upper(text)) == KeywordScore(table, text)
    ensures KeywordScore(table, Lower(text)) == KeywordScore(table, text)
  {
    LowerForgetsCase(text);
  }

  /** Matching is by substring: a lower-case keyword embedded in a longer
      word of the text is still reported. */
  lemma KeywordInsideLongerWord(table: KeywordTable, i: nat, before: string, after: string)
    requires i < |table|
    requires Lower(table[i].0) == table[i].0
    ensures table[i].0 in KeywordScore(table, before + table[i].0 + after).reasons
  {
    var w := table[i].0;
    assert Lower(before + w + after) == Lower(before) + w + Lower(after);
    ContainsEmbedded(Lower(before), w, Lower(after));
    assert WordsOf(table)[i] == w;
  }

  /** An empty keyword table scores every text `(0, [])`. */
  lemma EmptyTableScoresZero(text: string)
    ensures KeywordScore([], text) == Match(0, [])
  {
  }

  /* ---------------------------------------------------------- strategies */

  /** The trained classifier: the probability it gives the "important"
      class, or `None` where `predict_proba` raises. */
  datatype Model = Model(importantProbability: string -> Option<real>)

  /** The scoring strategy resolved once per cycle. */
  datatype Scorer = KeywordScorer(table: KeywordTable) | MLScorer(model: Model)

  /** What one `score` call does: a score with its reasons, or an exception. */
  datatype ScoreOutcome = Scored(score: real, reasons: seq<string>) | Raised

  /** The fixed reason the classifier reports. */
  const MLReasonTag: string := "ML Prediction"

  /** `scorer.score(text)`. The keyword strategy never raises and reports
      its integer score; the classifier reports the probability times 100
      and always the single reason tag. */
  function Score(s: Scorer, text: string): (r: ScoreOutcome)
    ensures s.KeywordScorer? ==> r.Scored?
    ensures s.KeywordScorer? ==> forall w :: w in r.reasons <==> w in WordsOf(s.table) && Contains(Lower(text), w)
    ensures s.MLScorer? && r.Scored? ==> r.reasons == [MLReasonTag]
    ensures s.MLScorer? ==> (r.Scored? <==> s.model.importantProbability(text).Some?)
    ensures s.MLScorer? && r.Scored? ==> r.score == s.model.importantProbability(text).value * 100.0
  {
    match s
    case KeywordScorer(table) =>
      var m := KeywordScore(table, text);
      Scored(m.score as real, m.reasons)
    case MLScorer(model) =>
      match model.importantProbability(text)
      case Some(p) => Scored(p * 100.0, [MLReasonTag])
      case None => Raised
  }

  /** A strategy that scores every text without raising. */
  ghost predicate NeverRaises(s: Scorer) {
    forall t :: Score(s, t).Scored?
  }

  /** What `joblib.load` of the artifact does: a model, or an exception. */
  datatype LoadOutcome = Loaded(model: Model) | LoadRaised

  /** `get_scorer`: the classifier exactly when the artifact exists and
      loads; otherwise the keyword strategy over the current keyword table.
      A failing load never escapes. */
  function GetScorer(artifactExists: bool, load: LoadOutcome, keywords: KeywordTable): (r: Scorer)
    ensures r.MLScorer? <==> artifactExists && load.Loaded?
    ensures r.MLScorer? ==> r.model == load.model
    ensures r.KeywordScorer? ==> r.table == keywords
  {
    if artifactExists then
      match load
      case Loaded(m) => MLScorer(m)
      case LoadRaised => KeywordScorer(keywords)
    else KeywordScorer(keywords)
  }

  /** With no artifact, or one that fails to load, scoring is the keyword
      sum, and it never raises. */
  lemma FallbackUsesKeywords(artifactExists: bool, load: LoadOutcome, keywords: KeywordTable, text: string)
    requires !artifactExists || load.LoadRaised?
    ensures Score(GetScorer(artifactExists, load, keywords), text)
         == Scored(KeywordScore(keywords, text).score as real, KeywordScore(keywords, text).reasons)
    ensures NeverRaises(GetScorer(artifactExists, load, keywords))
  {
  }

  lemma MissingCharNotContained(t: string, w: string, c: char)
    requires c in w && c !in t
    ensures !Contains(t, w)
  {
  }

  /** The keyword table `init_db` seeds. */
  lemma SeededTable()
    ensures TableOf(Database.DefaultKeywords) == [("critical", 50), ("rce", 60), ("vulnerability", 40)]
  {
  }

  /** The seeded table against a text holding `critical` and `rce`. */
  lemma MatchSeededBoth(l: string)
    requires Contains(l, "critical") && Contains(l, "rce") && !Contains(l, "vulnerability")
    ensures MatchKeywords(TableOf(Database.DefaultKeywords), l) == Match(110, ["critical", "rce"])
  {
    SeededTable();
    var t := TableOf(Database.DefaultKeywords);
    assert t[1..] == [("rce", 60), ("vulnerability", 40)];
    assert t[1..][1..] == [("vulnerability", 40)];
    assert MatchKeywords(t[1..][1..], l) == Match(0, []);
    assert MatchKeywords(t[1..], l) == Match(60, ["rce"]);
  }

  /** The seeded table against a text holding only `rce`. */
  lemma MatchSeededRceOnly(l: string)
    requires !Contains(l, "critical") && Contains(l, "rce") && !Contains(l, "vulnerability")
    ensures MatchKeywords(TableOf(Database.DefaultKeywords), l) == Match(60, ["rce"])
  {
    SeededTable();
    var t := TableOf(Database.DefaultKeywords);
    assert t[1..] == [("rce", 60), ("vulnerability", 40)];
    assert t[1..][1..] == [("vulnerability", 40)];
    assert MatchKeywords(t[1..][1..], l) == Match(0, []);
  }

  lemma LowerExamples()
    ensures Lower("Critical RCE found") == "critical rce found"
    ensures Lower("rce rce RCE") == "rce rce rce"
  {
  }

  lemma OccursExampleCritical()
    ensures Contains("critical rce found", "critical")
    ensures Contains("critical rce found", "rce")
  {
    assert OccursAt("critical rce found", "critical", 0);
    assert OccursAt("critical rce found", "rce", 9);
  }

  lemma OccursExampleVulnerability()
    ensures !Contains("critical rce found", "vulnerability")
  {
    MissingCharNotContained("critical rce found", "vulnerability", 'v');
  }

  lemma OccursExampleRepeated()
    ensures Contains("rce rce rce", "rce")
  {
    assert OccursAt("rce rce rce", "rce", 0);
  }

  /** A text without the letters `t` and `v` contains neither "critical"
      nor "vulnerability". */
  lemma MissesCriticalAndVulnerability(text: string)
    requires 't' !in text && 'v' !in text
    ensures !Contains(text, "critical") && !Contains(text, "vulnerability")
  {
    MissingCharNotContained(text, "critical", 't');
    MissingCharNotContained(text, "vulnerability", 'v');
  }

  lemma RepeatedTextLetters()
    ensures 't' !in "rce rce rce" && 'v' !in "rce rce rce"
  {
  }

  lemma ScoreWithSeededTable(text: string, l: string)
    requires Lower(text) == l
    ensures KeywordScore(TableOf(Database.DefaultKeywords), text) == MatchKeywords(TableOf(Database.DefaultKeywords), l)
  {
  }

  /** With the seeded keywords, "Critical RCE found" scores 110 with
      reasons `critical` and `rce`. */
  lemma SeededKeywordsExample()
    ensures KeywordScore(TableOf(Database.DefaultKeywords), "Critical RCE found") == Match(110, ["critical", "rce"])
  {
    LowerExamples();
    ScoreWithSeededTable("Critical RCE found", "critical rce found");
    OccursExampleCritical();
    OccursExampleVulnerability();
    MatchSeededBoth("critical rce found");
  }

  /** With the seeded keywords, a keyword repeated in the text counts once. */
  lemma SeededRepeatedKeywordExample()
    ensures KeywordScore(TableOf(Database.DefaultKeywords), "rce rce RCE") == Match(60, ["rce"])
  {
    LowerExamples();
    ScoreWithSeededTable("rce rce RCE", "rce rce rce");
    OccursExampleRepeated();
    RepeatedTextLetters();
    MissesCriticalAndVulnerability("rce rce rce");
    MatchSeededRceOnly("rce rce rce");
  }
}
