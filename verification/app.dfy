/**
 The state-changing parts of the dashboard: the review callback
 `change_status`, the inbox query, the archive pagination, and the two
 bulk-add forms of the configuration page (keywords and feed sources)
 together with the keyword delete button. Rendering is not modelled; each
 piece is a function from the store (and the form's input) to the rows it
 shows or the store it leaves behind.
 */
module App {
  import opened Wrappers
  import opened Text
  import opened Database

  /* ------------------------------------------------------- form lines */

  /** The weight a keyword line gets when it gives none, or one `int()`
      rejects. */
  const DefaultWeight := 10

  /** The name a feed line gets when it gives none. */
  const DefaultFeedName := "New Feed"

  /** A value a form line can carry unchanged: no field separator, no line
      break, no whitespace at either end. */
  predicate Field(v: string) {
    && ',' !in v && '\n' !in v
    && (v == [] || (!IsSpace(v[0]) && !IsSpace(v[|v| - 1])))
  }

  /** A keyword as the form stores it: a field in lower case. */
  predicate NormalWord(w: string) {
    Field(w) && Lower(w) == w
  }

  /** One line of the bulk keyword form. A blank line is skipped (`None`).
      Otherwise the word is the first comma-separated field, stripped and
      lower-cased; the weight is the second field when `int()` accepts it
      after stripping, and the default otherwise. */
  function ParseKeywordLine(line: string): (r: Option<Keyword>)
    ensures r.None? <==> AllSpace(line)
    ensures r.Some? ==> NormalWord(r.value.word) || '\n' in line
    ensures r.Some? && ',' !in line ==> r.value.weight == DefaultWeight
    ensures r.Some? ==> r.value.weight == DefaultWeight || ',' in line
  {
    if AllSpace(line) then None
    else
      var parts := Split(line, ',');
      var word := Lower(Strip(parts[0]));
      var weight := if |parts| > 1 then ParseInt(Strip(parts[1])).GetOr(DefaultWeight) else DefaultWeight;
      KeywordLineShape(line);
      Some(Keyword(word, weight))
  }

  /** The word field of a keyword line is a normal word unless the line
      spans several lines, and there is a weight field only when the line
      has a comma. */
  lemma KeywordLineShape(line: string)
    ensures NormalWord(Lower(Strip(Split(line, ',')[0]))) || '\n' in line
    ensures |Split(line, ',')| > 1 ==> ',' in line
    ensures ',' !in line ==> |Split(line, ',')| == 1
  {
    SplitFirstField(line);
    LowerKeepsField(Strip(Split(line, ',')[0]), line);
  }

  /** The first field of a split has no separator, and a line without the
      separator is a single field. */
  lemma SplitFirstField(line: string)
    ensures ',' !in Split(line, ',')[0]
    ensures ',' !in line ==> Split(line, ',') == [line]
    ensures |Split(line, ',')| > 1 ==> ',' in line
  {
    if ',' !in line {
      SplitJoin([line], ',');
    } else {
      assert ',' in line;
    }
    var parts := Split(line, ',');
    if |parts| > 1 {
      assert line == Join(parts, ',') == parts[0] + [','] + Join(parts[1..], ',');
      assert line[|parts[0]|] == ',';
    }
  }

  /** Lower-casing a stripped field taken from `line` keeps it a field,
      unless `line` had a line break. */
  lemma LowerKeepsField(field: string, line: string)
    requires ',' !in field
    requires field == [] || (!IsSpace(field[0]) && !IsSpace(field[|field| - 1]))
    requires forall c :: c in field ==> c in line
    ensures NormalWord(Lower(field)) || '\n' in line
  {
    LowerForgetsCase(field);
    var w := Lower(field);
    assert forall i :: 0 <= i < |w| ==> w[i] == LowerChar(field[i]);
    if '\n' in w {
      var i :| 0 <= i < |w| && w[i] == '\n';
      assert field[i] == '\n';
      assert field[i] in field;
    }
  }

  /** A value without whitespace at its ends is its own strip. */
  lemma StripField(w: string)
    requires w == [] || (!IsSpace(w[0]) && !IsSpace(w[|w| - 1]))
    ensures Strip(w) == w
  {
    StripPadded([], w, []);
    assert [] + w + [] == w;
  }

  /** Stripping undoes one leading blank. */
  lemma StripSpaced(w: string)
    requires w == [] || (!IsSpace(w[0]) && !IsSpace(w[|w| - 1]))
    ensures Strip(" " + w) == w
  {
    StripPadded(" ", w, []);
    assert " " + w + [] == " " + w;
  }

  /** Splitting a text with exactly one separator gives its two parts. */
  lemma SplitTwo(a: string, b: string, sep: char)
    requires sep !in a && sep !in b
    ensures Split(a + [sep] + b, sep) == [a, b]
  {
    assert a + [sep] + b == Join([a, b], sep);
    SplitJoin([a, b], sep);
  }

  /** A keyword line with two fields. */
  lemma KeywordLineFields(a: string, b: string)
    requires ',' !in a && ',' !in b
    ensures ParseKeywordLine(a + [','] + b) == Some(Keyword(Lower(Strip(a)), ParseInt(Strip(b)).GetOr(DefaultWeight)))
  {
    SplitTwo(a, b, ',');
    assert (a + [','] + b)[|a|] == ',';
  }

  /** Any keyword line with at least two fields: the word is the first
      field stripped and lower-cased, the weight is read from the second
      field, and the fields after the second are ignored. */
  lemma KeywordLineValue(a: string, b: string, c: string)
    requires ',' !in a && ',' !in b
    requires c == [] || c[0] == ','
    ensures ParseKeywordLine(a + [','] + b + c) == Some(Keyword(Lower(Strip(a)), ParseInt(Strip(b)).GetOr(DefaultWeight)))
  {
    var line := a + [','] + b + c;
    if c == [] {
      assert line == a + [','] + b;
      KeywordLineFields(a, b);
    } else {
      var d := c[1..];
      var parts := Split(line, ',');
      assert parts[0] == a && parts[1] == b by {
        assert line == a + [','] + (b + [','] + d);
        SplitHead(a, b + [','] + d, ',');
        SplitHead(b, d, ',');
      }
      assert !AllSpace(line) by {
        assert line[|a|] == ',';
      }
    }
  }

  /** A keyword line without a comma: the word is the whole line stripped
      and lower-cased, with the default weight. */
  lemma KeywordLineOneField(a: string)
    requires ',' !in a && !AllSpace(a)
    ensures ParseKeywordLine(a) == Some(Keyword(Lower(Strip(a)), DefaultWeight))
  {
    SplitFirstField(a);
  }

  /** A padded, mixed-case word is stored stripped and in lower case. */
  lemma PaddedWordExample()
    ensures ParseKeywordLine(" Zero-Day ") == Some(Keyword("zero-day", DefaultWeight))
  {
    var line := " Zero-Day ";
    var word := "Zero-Day";
    assert Strip(line) == word by {
      assert line == " " + word + " ";
      assert !IsSpace(word[0]) && !IsSpace(word[|word| - 1]);
      StripPadded(" ", word, " ");
    }
    LowerZeroDay();
    assert ParseKeywordLine(line) == Some(Keyword(Lower(Strip(line)), DefaultWeight)) by {
      PaddedWordLine();
      KeywordLineOneField(line);
    }
  }

  lemma PaddedWordLine()
    ensures ',' !in " Zero-Day " && !AllSpace(" Zero-Day ")
  {
    var line := " Zero-Day ";
    assert !IsSpace(line[1]);
  }

  lemma LowerZeroDay()
    ensures Lower("Zero-Day") == "zero-day"
  {
    var l := Lower("Zero-Day");
    assert l[0] == 'z' && l[1] == 'e' && l[2] == 'r' && l[3] == 'o';
    assert l[4] == '-' && l[5] == 'd' && l[6] == 'a' && l[7] == 'y';
  }

  /** A value without a separator, spaced with one leading blank. */
  lemma SpacedField(d: string)
    requires ',' !in d
    ensures ',' !in " " + d
  {
    var t := " " + d;
    forall i | 0 <= i < |t| ensures t[i] != ',' {
      if i > 0 { assert t[i] == d[i - 1]; }
    }
  }

  /** A printed integer is a field. */
  lemma NumberIsField(n: int)
    ensures Field(IntToString(n))
  {
    IntToStringShape(n);
    var d := IntToString(n);
    assert !IsSpace(d[0]);
  }

  /** How the form would display a keyword: `word, weight`. */
  function FormatKeyword(k: Keyword): string {
    k.word + ", " + IntToString(k.weight)
  }

  /** Reading back a displayed keyword gives the keyword: the parser
      inverts the form's own `word, weight` notation for every weight
      within the digit cap; a longer weight falls back to the default. */
  lemma KeywordLineRoundTrip(k: Keyword)
    requires NormalWord(k.word)
    ensures ParseKeywordLine(FormatKeyword(k))
         == Some(if WithinStrDigits(k.weight) then k else Keyword(k.word, DefaultWeight))
  {
    var d := IntToString(k.weight);
    NumberIsField(k.weight);
    SpacedField(d);
    assert FormatKeyword(k) == k.word + [','] + (" " + d);
    KeywordLineFields(k.word, " " + d);
    StripField(k.word);
    StripSpaced(d);
    ParseIntToString(k.weight);
  }

  /** A line holding only a word gets the default weight. */
  lemma BareWordGetsDefaultWeight(w: string)
    requires NormalWord(w) && w != []
    ensures ParseKeywordLine(w) == Some(Keyword(w, DefaultWeight))
  {
    SplitFirstField(w);
    StripField(w);
  }

  /** A second field `int()` rejects falls back to the default weight
      instead of rejecting the line. */
  lemma UnreadableWeightGetsDefault(w: string, junk: string)
    requires NormalWord(w) && w != []
    requires Field(junk) && ParseInt(junk).None?
    ensures ParseKeywordLine(w + "," + junk) == Some(Keyword(w, DefaultWeight))
  {
    assert w + "," + junk == w + [','] + junk;
    KeywordLineFields(w, junk);
    StripField(w);
    StripField(junk);
  }

  /** One line of the bulk feed form. A blank line is skipped (`None`).
      Otherwise the url is the first comma-separated field stripped, the
      name the second field stripped or the default name, and the new
      source is active. */
  function ParseFeedLine(line: string): (r: Option<FeedSource>)
    ensures r.None? <==> AllSpace(line)
    ensures r.Some? ==> r.value.isActive
    ensures r.Some? ==> ',' !in r.value.url
    ensures r.Some? && ',' !in line ==> r.value.name == DefaultFeedName
  {
    if AllSpace(line) then None
    else
      var parts := Split(line, ',');
      var url := Strip(parts[0]);
      var name := if |parts| > 1 then Strip(parts[1]) else DefaultFeedName;
      SplitFirstField(line);
      StripKeepsOut(parts[0], ',');
      Some(NewFeedSource(url, name))
  }

  /** A feed line with two fields. */
  lemma FeedLineFields(a: string, b: string)
    requires ',' !in a && ',' !in b
    ensures ParseFeedLine(a + [','] + b) == Some(NewFeedSource(Strip(a), Strip(b)))
  {
    SplitTwo(a, b, ',');
    assert (a + [','] + b)[|a|] == ',';
  }

  /** Any feed line with at least two fields: the url and the name are the
      first two fields stripped, and the fields after the second are
      ignored. */
  lemma FeedLineValue(a: string, b: string, c: string)
    requires ',' !in a && ',' !in b
    requires c == [] || c[0] == ','
    ensures ParseFeedLine(a + [','] + b + c) == Some(NewFeedSource(Strip(a), Strip(b)))
  {
    var line := a + [','] + b + c;
    if c == [] {
      assert line == a + [','] + b;
      FeedLineFields(a, b);
    } else {
      var d := c[1..];
      assert line == a + [','] + (b + [','] + d);
      assert line[|a|] == ',';
      SplitHead(a, b + [','] + d, ',');
      SplitHead(b, d, ',');
    }
  }

  /** A feed line without a comma: the url is the whole line stripped, with
      the default name. */
  lemma FeedLineOneField(a: string)
    requires ',' !in a && !AllSpace(a)
    ensures ParseFeedLine(a) == Some(NewFeedSource(Strip(a), DefaultFeedName))
  {
    SplitFirstField(a);
  }

  /** How the form would display a source: `url, name`. */
  function FormatFeed(url: string, name: string): string {
    url + ", " + name
  }

  /** Reading back a displayed source gives an active source with that url
      and name. */
  lemma FeedLineRoundTrip(url: string, name: string)
    requires Field(url) && Field(name)
    ensures ParseFeedLine(FormatFeed(url, name)) == Some(NewFeedSource(url, name))
  {
    var spaced := " " + name;
    var line := FormatFeed(url, name);
    assert line == url + [','] + spaced;
    assert ParseFeedLine(line) == Some(NewFeedSource(Strip(url), Strip(spaced))) by {
      SpacedField(name);
      FeedLineFields(url, spaced);
    }
    assert Strip(url) == url by { StripField(url); }
    assert Strip(spaced) == name by { StripSpaced(name); }
  }

  /** A line holding only a url gets the default name. */
  lemma BareUrlGetsDefaultName(url: string)
    requires Field(url) && url != []
    ensures ParseFeedLine(url) == Some(NewFeedSource(url, DefaultFeedName))
  {
    SplitFirstField(url);
    StripField(url);
  }

  /* -------------------------------------------------- bulk submissions */

  /** The non-blank lines of a submission, in order. */
  function NonBlank(lines: seq<string>): (r: seq<string>)
    ensures |r| <= |lines|
    ensures forall i :: 0 <= i < |r| ==> !AllSpace(r[i])
    ensures forall l :: l in r <==> l in lines && !AllSpace(l)
    decreases |lines|
  {
    if |lines| == 0 then []
    else (if AllSpace(lines[0]) then [] else [lines[0]]) + NonBlank(lines[1..])
  }

  /** The kept lines keep their order. */
  lemma {:induction false} NonBlankInOrder(lines: seq<string>)
    ensures IsSubsequence(NonBlank(lines), lines)
    decreases |lines|
  {
    if |lines| > 0 {
      NonBlankInOrder(lines[1..]);
      var r := NonBlank(lines);
      if !AllSpace(lines[0]) {
        assert r[0] == lines[0] && r[1..] == NonBlank(lines[1..]);
      } else {
        assert r == NonBlank(lines[1..]);
      }
    }
  }

  /** Every non-blank line is kept as often as it occurs, repeats included,
      and no blank line is kept. */
  lemma {:induction false} NonBlankCounts(lines: seq<string>)
    ensures forall l :: multiset(NonBlank(lines))[l] == if AllSpace(l) then 0 else multiset(lines)[l]
    decreases |lines|
  {
    if |lines| > 0 {
      NonBlankCounts(lines[1..]);
      assert lines == [lines[0]] + lines[1..];
      assert multiset(lines) == multiset{lines[0]} + multiset(lines[1..]);
    }
  }

  /** The keys of a table's rows. */
  function KeySet<T>(rows: seq<T>, key: T -> string): (r: set<string>)
    ensures forall i :: 0 <= i < |rows| ==> key(rows[i]) in r
    ensures forall k :: k in r ==> exists i :: 0 <= i < |rows| && key(rows[i]) == k
  {
    set i | 0 <= i < |rows| :: key(rows[i])
  }

  /** No two rows share a key: the table's unique constraint. */
  predicate KeysDistinct<T>(rows: seq<T>, key: T -> string) {
    forall i, j :: 0 <= i < j < |rows| ==> key(rows[i]) != key(rows[j])
  }

  /** No key absent from `existing` occurs twice among `rows`. */
  predicate NoRepeatedNewKey<T>(existing: set<string>, rows: seq<T>, key: T -> string) {
    forall i, j :: 0 <= i < j < |rows| && key(rows[i]) !in existing ==> key(rows[i]) != key(rows[j])
  }

  /** The rows the form adds to the session: those whose key the existence
      query does not find. With `autoflush` off the query sees only the
      table as it was before the submission, so every row is checked
      against `existing` alone. */
  function Fresh<T(==,!new)>(existing: set<string>, rows: seq<T>, key: T -> string): (r: seq<T>)
    ensures |r| <= |rows|
    ensures forall x :: x in r <==> x in rows && key(x) !in existing
    ensures forall i :: 0 <= i < |r| ==> key(r[i]) !in existing
    decreases |rows|
  {
    if |rows| == 0 then []
    else (if key(rows[0]) in existing then [] else [rows[0]]) + Fresh(existing, rows[1..], key)
  }

  /** The staged rows keep the submission's order. */
  lemma {:induction false} FreshInOrder<T(!new)>(existing: set<string>, rows: seq<T>, key: T -> string)
    ensures IsSubsequence(Fresh(existing, rows, key), rows)
    decreases |rows|
  {
    if |rows| > 0 {
      FreshInOrder(existing, rows[1..], key);
      var r := Fresh(existing, rows, key);
      if key(rows[0]) !in existing {
        assert r[0] == rows[0] && r[1..] == Fresh(existing, rows[1..], key);
      } else {
        assert r == Fresh(existing, rows[1..], key);
      }
    }
  }

  /** Every row whose key the query does not find is staged as often as it
      is submitted, repeats included; no other row is staged. */
  lemma {:induction false} FreshCounts<T(!new)>(existing: set<string>, rows: seq<T>, key: T -> string)
    ensures forall x :: multiset(Fresh(existing, rows, key))[x] == if key(x) in existing then 0 else multiset(rows)[x]
    decreases |rows|
  {
    if |rows| > 0 {
      FreshCounts(existing, rows[1..], key);
      assert rows == [rows[0]] + rows[1..];
      assert multiset(rows) == multiset{rows[0]} + multiset(rows[1..]);
    }
  }

  /** The added rows violate no unique constraint among themselves exactly
      when no new key repeats in the submission. */
  lemma {:induction false} FreshDistinct<T(!new)>(existing: set<string>, rows: seq<T>, key: T -> string)
    ensures KeysDistinct(Fresh(existing, rows, key), key) <==> NoRepeatedNewKey(existing, rows, key)
    decreases |rows|
  {
    if |rows| > 0 {
      var rest := rows[1..];
      FreshDistinct(existing, rest, key);
      var f := Fresh(existing, rest, key);
      NoRepeatCons(existing, rows, key);
      if key(rows[0]) !in existing {
        assert Fresh(existing, rows, key) == [rows[0]] + f;
        DistinctCons(rows[0], f, key);
        FreshKeeps(existing, rest, key, key(rows[0]), f);
      } else {
        assert Fresh(existing, rows, key) == f;
      }
    }
  }

  lemma NoRepeatCons<T>(existing: set<string>, rows: seq<T>, key: T -> string)
    requires |rows| > 0
    ensures NoRepeatedNewKey(existing, rows, key) <==>
            && NoRepeatedNewKey(existing, rows[1..], key)
            && (key(rows[0]) !in existing ==> forall j :: 0 <= j < |rows[1..]| ==> key(rows[1..][j]) != key(rows[0]))
  {
    var rest := rows[1..];
    assert forall j :: 0 < j < |rows| ==> rows[j] == rest[j - 1];
  }

  lemma DistinctCons<T>(x: T, f: seq<T>, key: T -> string)
    ensures KeysDistinct([x] + f, key) <==>
            KeysDistinct(f, key) && forall j :: 0 <= j < |f| ==> key(f[j]) != key(x)
  {
    var r := [x] + f;
    if KeysDistinct(r, key) {
      forall i, j | 0 <= i < j < |f| ensures key(f[i]) != key(f[j]) {
        assert f[i] == r[i + 1] && f[j] == r[j + 1];
      }
      forall j | 0 <= j < |f| ensures key(f[j]) != key(x) {
        assert f[j] == r[j + 1] && x == r[0];
      }
    }
    if KeysDistinct(f, key) && forall j :: 0 <= j < |f| ==> key(f[j]) != key(x) {
      forall i, j | 0 <= i < j < |r| ensures key(r[i]) != key(r[j]) {
        assert r[j] == f[j - 1];
        if i > 0 {
          assert r[i] == f[i - 1];
        }
      }
    }
  }

  /** A new key occurs among the rows exactly when it occurs among the
      rows the form adds. */
  lemma FreshKeeps<T(!new)>(existing: set<string>, rows: seq<T>, key: T -> string, k: string, f: seq<T>)
    requires k !in existing
    requires f == Fresh(existing, rows, key)
    ensures (forall j :: 0 <= j < |rows| ==> key(rows[j]) != k) <==> (forall j :: 0 <= j < |f| ==> key(f[j]) != k)
  {
    forall j | 0 <= j < |rows| && key(rows[j]) == k
      ensures exists i :: 0 <= i < |f| && key(f[i]) == k
    {
      assert rows[j] in f;
      var i :| 0 <= i < |f| && f[i] == rows[j];
      assert key(f[i]) == k;
    }
    forall j | 0 <= j < |f| ensures exists i :: 0 <= i < |rows| && key(rows[i]) == key(f[j]) {
      assert f[j] in rows;
      var i :| 0 <= i < |rows| && rows[i] == f[j];
    }
  }

  /** Appending rows with new, pairwise distinct keys keeps a table's keys
      distinct. */
  lemma AppendKeepsDistinct<T>(table: seq<T>, more: seq<T>, key: T -> string)
    ensures KeysDistinct(table, key) && KeysDistinct(more, key)
            && (forall j :: 0 <= j < |more| ==> key(more[j]) !in KeySet(table, key))
            ==> KeysDistinct(table + more, key)
  {
    var t := table + more;
    if KeysDistinct(table, key) && KeysDistinct(more, key)
       && (forall j :: 0 <= j < |more| ==> key(more[j]) !in KeySet(table, key)) {
    forall i, j | 0 <= i < j < |t| ensures key(t[i]) != key(t[j]) {
      if j >= |table| {
        assert t[j] == more[j - |table|];
        if i >= |table| {
          assert t[i] == more[i - |table|];
        }
      }
    }
    }
  }

  /** What a bulk form leaves behind: the table after the commit, the two
      counters, and whether the commit went through. */
  datatype Submission<T> = Submission(table: seq<T>, added: nat, skipped: nat, committed: bool)

  /** The form loop followed by `session.commit()`: each row is added
      unless its key is already in the table, and counted as added or
      skipped; the commit fails, and nothing is written, when two added
      rows share a key. */
  function Submit<T(==,!new)>(table: seq<T>, rows: seq<T>, key: T -> string): (r: Submission<T>)
    ensures r.added + r.skipped == |rows|
    ensures r.committed <==> NoRepeatedNewKey(KeySet(table, key), rows, key)
    ensures !r.committed ==> r.table == table
    ensures r.committed ==> |r.table| == |table| + r.added && r.table[..|table|] == table
    ensures forall x :: x in r.table <==> x in table || (r.committed && x in rows && key(x) !in KeySet(table, key))
    ensures KeysDistinct(table, key) ==> KeysDistinct(r.table, key)
  {
    var news := Fresh(KeySet(table, key), rows, key);
    FreshDistinct(KeySet(table, key), rows, key);
    if KeysDistinct(news, key) then
      AppendKeepsDistinct(table, news, key);
      assert (table + news)[..|table|] == table;
      Submission(table + news, |news|, |rows| - |news|, true)
    else Submission(table, |news|, |rows| - |news|, false)
  }

  /** The staging the form evidently intends: the existence check also
      sees the rows added earlier in the same submission, so a repeated
      new key is skipped instead of failing the commit. */
  function FreshDeduped<T(==,!new)>(existing: set<string>, rows: seq<T>, key: T -> string): (r: seq<T>)
    ensures |r| <= |rows|
    ensures KeysDistinct(r, key)
    ensures forall i :: 0 <= i < |r| ==> key(r[i]) !in existing
    ensures forall x :: x in r ==> x in rows
    ensures forall i :: 0 <= i < |rows| ==> key(rows[i]) in existing || key(rows[i]) in KeySet(r, key)
    decreases |rows|
  {
    if |rows| == 0 then []
    else if key(rows[0]) in existing then FreshDeduped(existing, rows[1..], key)
    else
      var k := key(rows[0]);
      var rest := FreshDeduped(existing + {k}, rows[1..], key);
      DistinctCons(rows[0], rest, key);
      DedupedCovers(existing, rows, key, rest);
      [rows[0]] + rest
  }

  lemma DedupedCovers<T>(existing: set<string>, rows: seq<T>, key: T -> string, rest: seq<T>)
    requires |rows| > 0
    requires forall i :: 0 <= i < |rows[1..]| ==>
               key(rows[1..][i]) in existing + {key(rows[0])} || key(rows[1..][i]) in KeySet(rest, key)
    ensures forall i :: 0 <= i < |rows| ==> key(rows[i]) in existing || key(rows[i]) in KeySet([rows[0]] + rest, key)
  {
    var r := [rows[0]] + rest;
    forall i | 0 <= i < |rows| ensures key(rows[i]) in existing || key(rows[i]) in KeySet(r, key) {
      assert key(r[0]) in KeySet(r, key);
      if i > 0 {
        assert rows[i] == rows[1..][i - 1];
        if key(rows[i]) in KeySet(rest, key) {
          var j :| 0 <= j < |rest| && key(rest[j]) == key(rows[i]);
          assert r[j + 1] == rest[j];
        }
      }
    }
  }

  /** A key no row carries does not change the intended staging. */
  lemma {:induction false} DedupedIgnoresAbsentKey<T(!new)>(existing: set<string>, rows: seq<T>, key: T -> string, k: string)
    requires forall j :: 0 <= j < |rows| ==> key(rows[j]) != k
    ensures FreshDeduped(existing + {k}, rows, key) == FreshDeduped(existing, rows, key)
    decreases |rows|
  {
    if |rows| > 0 {
      var k0 := key(rows[0]);
      assert forall j :: 0 <= j < |rows[1..]| ==> rows[1..][j] == rows[j + 1];
      if k0 in existing {
        DedupedIgnoresAbsentKey(existing, rows[1..], key, k);
      } else {
        assert existing + {k} + {k0} == existing + {k0} + {k};
        DedupedIgnoresAbsentKey(existing + {k0}, rows[1..], key, k);
      }
    }
  }

  /** Whenever the form as written commits, the intended staging adds the
      very same rows. */
  lemma {:induction false} DedupedAgreesWithoutRepeats<T(!new)>(existing: set<string>, rows: seq<T>, key: T -> string)
    requires NoRepeatedNewKey(existing, rows, key)
    ensures FreshDeduped(existing, rows, key) == Fresh(existing, rows, key)
    decreases |rows|
  {
    if |rows| > 0 {
      NoRepeatCons(existing, rows, key);
      var k0 := key(rows[0]);
      if k0 !in existing {
        DedupedIgnoresAbsentKey(existing, rows[1..], key, k0);
      }
      DedupedAgreesWithoutRepeats(existing, rows[1..], key);
    }
  }

  /** The submission with the intended staging: it always commits, keeps
      the unique constraint and leaves every submitted key in the table. */
  function SubmitDeduped<T(==,!new)>(table: seq<T>, rows: seq<T>, key: T -> string): (r: Submission<T>)
    ensures r.committed
    ensures r.added + r.skipped == |rows|
    ensures |r.table| == |table| + r.added && r.table[..|table|] == table
    ensures forall x :: x in r.table ==> x in table || (x in rows && key(x) !in KeySet(table, key))
    ensures forall i :: 0 <= i < |rows| ==> key(rows[i]) in KeySet(r.table, key)
    ensures KeysDistinct(table, key) ==> KeysDistinct(r.table, key)
  {
    var news := FreshDeduped(KeySet(table, key), rows, key);
    AppendKeepsDistinct(table, news, key);
    KeySetAppend(table, news, key);
    assert (table + news)[..|table|] == table;
    Submission(table + news, |news|, |rows| - |news|, true)
  }

  lemma KeySetAppend<T>(table: seq<T>, more: seq<T>, key: T -> string)
    ensures KeySet(table + more, key) == KeySet(table, key) + KeySet(more, key)
  {
    var t := table + more;
    forall k | k in KeySet(table, key) ensures k in KeySet(t, key) {
      var j :| 0 <= j < |table| && key(table[j]) == k;
      assert t[j] == table[j];
    }
    forall k | k in KeySet(more, key) ensures k in KeySet(t, key) {
      var j :| 0 <= j < |more| && key(more[j]) == k;
      assert t[|table| + j] == more[j];
    }
    forall k | k in KeySet(t, key) ensures k in KeySet(table, key) + KeySet(more, key) {
      var j :| 0 <= j < |t| && key(t[j]) == k;
      if j >= |table| {
        assert t[j] == more[j - |table|];
      }
    }
  }

  /** Whenever the form as written commits, the intended form leaves the
      same table and counters. */
  lemma DedupedAgreesWhenCommitted<T(!new)>(table: seq<T>, rows: seq<T>, key: T -> string)
    requires Submit(table, rows, key).committed
    ensures SubmitDeduped(table, rows, key) == Submit(table, rows, key)
  {
    var e := KeySet(table, key);
    FreshDistinct(e, rows, key);
    DedupedAgreesWithoutRepeats(e, rows, key);
    var news := Fresh(e, rows, key);
    assert Submit(table, rows, key) == Submission(table + news, |news|, |rows| - |news|, true);
  }

  /** Rows whose keys are all known add nothing. */
  lemma KnownKeysAddNothing<T(!new)>(existing: set<string>, rows: seq<T>, key: T -> string)
    requires forall i :: 0 <= i < |rows| ==> key(rows[i]) in existing
    ensures Fresh(existing, rows, key) == []
  {
  }

  /** After a committed submission every submitted key is in the table. */
  lemma CommittedKeysStored<T(!new)>(table: seq<T>, rows: seq<T>, key: T -> string)
    requires Submit(table, rows, key).committed
    ensures forall i :: 0 <= i < |rows| ==> key(rows[i]) in KeySet(Submit(table, rows, key).table, key)
  {
    var news := Fresh(KeySet(table, key), rows, key);
    var t := table + news;
    assert Submit(table, rows, key).table == t;
    KeySetAppend(table, news, key);
    forall i | 0 <= i < |rows| ensures key(rows[i]) in KeySet(t, key) {
      if key(rows[i]) !in KeySet(table, key) {
        assert rows[i] in news;
        var j :| 0 <= j < |news| && news[j] == rows[i];
        assert key(news[j]) in KeySet(news, key);
      }
    }
  }

  /** Submitting the same rows again after a committed submission adds
      nothing: every row is skipped. */
  lemma ResubmitSkipsAll<T(!new)>(table: seq<T>, rows: seq<T>, key: T -> string, t: seq<T>)
    requires Submit(table, rows, key).committed
    requires t == Submit(table, rows, key).table
    ensures Submit(t, rows, key) == Submission(t, 0, |rows|, true)
  {
    assert Fresh(KeySet(t, key), rows, key) == [] by {
      CommittedKeysStored(table, rows, key);
      KnownKeysAddNothing(KeySet(t, key), rows, key);
    }
    NothingFreshSkipsAll(t, rows, key);
  }

  /** A submission with no new key commits and skips every row. */
  lemma NothingFreshSkipsAll<T(!new)>(table: seq<T>, rows: seq<T>, key: T -> string)
    requires Fresh(KeySet(table, key), rows, key) == []
    ensures Submit(table, rows, key) == Submission(table, 0, |rows|, true)
  {
    assert table + [] == table;
  }

  /* ------------------------------------------------ the keyword form */

  function WordOf(k: Keyword): string { k.word }

  function UrlOf(s: FeedSource): string { s.url }

  /** The keywords a bulk submission stages, one per non-blank line. */
  function KeywordRows(raw: string): (r: seq<Keyword>)
    ensures |r| == |NonBlank(Split(raw, '\n'))|
    ensures forall i :: 0 <= i < |r| ==> NormalWord(r[i].word)
  {
    var lines := NonBlank(Split(raw, '\n'));
    assert forall i :: 0 <= i < |lines| ==> lines[i] in Split(raw, '\n');
    seq(|lines|, i requires 0 <= i < |lines| => ParseKeywordLine(lines[i]).value)
  }

  /** What a form leaves behind in the store, with its counters. */
  datatype FormResult = FormResult(db: Db, added: nat, skipped: nat, committed: bool)

  /** The unique constraint on `word` is key-distinctness under `WordOf`. */
  lemma UniqueWordsByKey(t: seq<Keyword>)
    ensures UniqueWords(t) <==> KeysDistinct(t, WordOf)
  {
  }

  /** Replacing the keyword table by one with unique words keeps the store
      valid. */
  lemma KeywordsReplaced(db: Db, t: seq<Keyword>)
    requires Valid(db) && KeysDistinct(t, WordOf)
    ensures Valid(db.(keywords := t))
  {
    UniqueWordsByKey(t);
  }

  /** The bulk keyword form: stage every non-blank line whose word is not
      yet in the table, count it as added or skipped, then commit. The
      articles and sources are untouched; a failed commit leaves the store
      as it was. */
  function AddKeywords(db: Db, raw: string): (r: FormResult)
    requires Valid(db)
    ensures Valid(r.db)
    ensures r.db.articles == db.articles && r.db.nextArticleId == db.nextArticleId && r.db.sources == db.sources
    ensures r.added + r.skipped == |NonBlank(Split(raw, '\n'))|
    ensures !r.committed ==> r.db == db
    ensures r.committed ==> |r.db.keywords| == |db.keywords| + r.added && r.db.keywords[..|db.keywords|] == db.keywords
    ensures forall k :: k in r.db.keywords <==>
              k in db.keywords || (r.committed && k in KeywordRows(raw) && k.word !in KeySet(db.keywords, WordOf))
  {
    var sub := Submit(db.keywords, KeywordRows(raw), WordOf);
    UniqueWordsByKey(db.keywords);
    KeywordsReplaced(db, sub.table);
    FormResult(db.(keywords := sub.table), sub.added, sub.skipped, sub.committed)
  }

  /** The keyword form with the intended staging: it always commits and
      every submitted word ends up in the table. */
  function AddKeywordsDeduped(db: Db, raw: string): (r: FormResult)
    requires Valid(db)
    ensures Valid(r.db) && r.committed
    ensures r.db.articles == db.articles && r.db.nextArticleId == db.nextArticleId && r.db.sources == db.sources
    ensures r.added + r.skipped == |NonBlank(Split(raw, '\n'))|
    ensures |r.db.keywords| == |db.keywords| + r.added && r.db.keywords[..|db.keywords|] == db.keywords
    ensures forall i :: 0 <= i < |KeywordRows(raw)| ==> KeywordRows(raw)[i].word in KeySet(r.db.keywords, WordOf)
  {
    var sub := SubmitDeduped(db.keywords, KeywordRows(raw), WordOf);
    UniqueWordsByKey(db.keywords);
    KeywordsReplaced(db, sub.table);
    FormResult(db.(keywords := sub.table), sub.added, sub.skipped, sub.committed)
  }

  /** Submitting the same keyword text twice: the second submission adds
      nothing and skips every line. */
  lemma KeywordResubmitSkipsAll(db: Db, raw: string)
    requires Valid(db)
    requires AddKeywords(db, raw).committed
    ensures var again := AddKeywords(AddKeywords(db, raw).db, raw);
            again.db == AddKeywords(db, raw).db && again.added == 0 && again.committed
  {
    var first := AddKeywords(db, raw);
    ResubmitSkipsAll(db.keywords, KeywordRows(raw), WordOf, first.db.keywords);
  }

  /** Where the two stagings agree: whenever the form as written commits,
      the intended form leaves the same store and counters. */
  lemma KeywordFormsAgreeWhenCommitted(db: Db, raw: string)
    requires Valid(db)
    requires AddKeywords(db, raw).committed
    ensures AddKeywordsDeduped(db, raw) == AddKeywords(db, raw)
  {
    DedupedAgreesWhenCommitted(db.keywords, KeywordRows(raw), WordOf);
  }

  /** A word the table lacks, submitted on two lines: the form as written
      stages it twice, both existence checks miss (the first row is not
      flushed), and the commit fails on the unique constraint, so the
      store is unchanged and nothing is added. */
  lemma RepeatedNewWordFailsCommit(db: Db, w: string)
    requires Valid(db)
    requires NormalWord(w) && w != []
    requires w !in KeySet(db.keywords, WordOf)
    ensures AddKeywords(db, w + "\n" + w) == FormResult(db, 2, 0, false)
  {
    var k := Keyword(w, DefaultWeight);
    RepeatedWordRows(w);
    SubmitRepeatedNew(db.keywords, k, WordOf);
  }

  /** The same submission under the intended staging adds the word once
      and reports the second line as a duplicate. */
  lemma RepeatedNewWordAddedOnce(db: Db, w: string)
    requires Valid(db)
    requires NormalWord(w) && w != []
    requires w !in KeySet(db.keywords, WordOf)
    ensures AddKeywordsDeduped(db, w + "\n" + w)
         == FormResult(db.(keywords := db.keywords + [Keyword(w, DefaultWeight)]), 1, 1, true)
  {
    var k := Keyword(w, DefaultWeight);
    RepeatedWordRows(w);
    SubmitRepeatedNew(db.keywords, k, WordOf);
  }

  lemma RepeatedWordRows(w: string)
    requires NormalWord(w) && w != []
    ensures KeywordRows(w + "\n" + w) == [Keyword(w, DefaultWeight), Keyword(w, DefaultWeight)]
  {
    TwoLines(w);
    RowsOfRepeatedLine(w + "\n" + w, w, Keyword(w, DefaultWeight));
  }

  lemma RowsOfRepeatedLine(raw: string, line: string, k: Keyword)
    requires NonBlank(Split(raw, '\n')) == [line, line]
    requires ParseKeywordLine(line) == Some(k)
    ensures KeywordRows(raw) == [k, k]
  {
    KeywordRowsOf(raw, [line, line]);
  }

  /** The keyword rows of a submission, given its non-blank lines. */
  lemma KeywordRowsOf(raw: string, lines: seq<string>)
    requires NonBlank(Split(raw, '\n')) == lines
    ensures |KeywordRows(raw)| == |lines|
    ensures forall i :: 0 <= i < |lines| ==> Some(KeywordRows(raw)[i]) == ParseKeywordLine(lines[i])
  {
  }

  /** One new row submitted twice: the form as written fails its commit,
      the intended one adds the row once. */
  lemma SubmitRepeatedNew<T(!new)>(table: seq<T>, x: T, key: T -> string)
    requires key(x) !in KeySet(table, key)
    ensures Submit(table, [x, x], key) == Submission(table, 2, 0, false)
    ensures SubmitDeduped(table, [x, x], key) == Submission(table + [x], 1, 1, true)
  {
    var e := KeySet(table, key);
    var rows := [x, x];
    assert rows[1..] == [x];
    assert rows[1..][1..] == [];
    assert Fresh(e, rows, key) == rows;
    assert !NoRepeatedNewKey(e, rows, key) by {
      assert key(rows[0]) == key(rows[1]);
    }
    assert FreshDeduped(e + {key(x)}, [x], key) == [];
    assert FreshDeduped(e, rows, key) == [x];
  }

  /** The lines of `w\nw` for a non-blank field `w`. */
  lemma TwoLines(w: string)
    requires NormalWord(w) && w != []
    ensures NonBlank(Split(w + "\n" + w, '\n')) == [w, w]
    ensures ParseKeywordLine(w) == Some(Keyword(w, DefaultWeight))
  {
    TwoFieldLines(w);
    BareWordGetsDefaultWeight(w);
  }

  /** The lines of `w\nw` for a non-blank field `w`. */
  lemma TwoFieldLines(w: string)
    requires Field(w) && w != []
    ensures NonBlank(Split(w + "\n" + w, '\n')) == [w, w]
  {
    assert w + "\n" + w == w + ['\n'] + w;
    SplitTwo(w, w, '\n');
    FieldNotBlank(w);
    NonBlankTwo(w, w);
  }

  lemma FieldNotBlank(w: string)
    requires Field(w) && w != []
    ensures !AllSpace(w)
  {
    assert !IsSpace(w[0]);
  }

  lemma NonBlankTwo(a: string, b: string)
    requires !AllSpace(a) && !AllSpace(b)
    ensures NonBlank([a, b]) == [a, b]
  {
    var ls := [a, b];
    assert ls[1..] == [b];
    assert ls[1..][1..] == [];
  }

  /** The delete button next to a keyword: the row with that word goes,
      the others stay in order. */
  function DeleteKeyword(db: Db, word: string): (r: Db)
    requires Valid(db)
    ensures Valid(r)
    ensures r.articles == db.articles && r.nextArticleId == db.nextArticleId && r.sources == db.sources
    ensures forall k :: k in r.keywords <==> k in db.keywords && k.word != word
    ensures !Absent(db.keywords, word) ==> |r.keywords| == |db.keywords| - 1
    ensures Absent(db.keywords, word) ==> r == db
  {
    db.(keywords := Without(db.keywords, word))
  }

  /** No row of `table` carries `word`. */
  predicate Absent(table: seq<Keyword>, word: string) {
    forall i :: 0 <= i < |table| ==> table[i].word != word
  }

  /** `table` without the rows carrying `word`, order kept. */
  function Without(table: seq<Keyword>, word: string): (r: seq<Keyword>)
    ensures forall k :: k in r <==> k in table && k.word != word
    ensures |r| <= |table|
    ensures UniqueWords(table) ==> UniqueWords(r)
    ensures Absent(table, word) ==> r == table
    ensures UniqueWords(table) && !Absent(table, word) ==> |r| == |table| - 1
    decreases |table|
  {
    if |table| == 0 then []
    else
      var rest := Without(table[1..], word);
      TailFacts(table, word);
      if table[0].word == word then
        rest
      else
        WithoutCons(table, word, rest);
        [table[0]] + rest
  }

  lemma TailFacts(table: seq<Keyword>, word: string)
    requires |table| > 0
    ensures UniqueWords(table) ==> UniqueWords(table[1..])
    ensures UniqueWords(table) && table[0].word == word ==> Absent(table[1..], word)
    ensures Absent(table, word) <==> table[0].word != word && Absent(table[1..], word)
    ensures table == [table[0]] + table[1..]
  {
    assert forall j :: 0 < j < |table| ==> table[j] == table[1..][j - 1];
  }

  lemma WithoutCons(table: seq<Keyword>, word: string, rest: seq<Keyword>)
    requires |table| > 0 && table[0].word != word
    requires forall k :: k in rest <==> k in table[1..] && k.word != word
    requires UniqueWords(table[1..]) ==> UniqueWords(rest)
    ensures UniqueWords(table) ==> UniqueWords([table[0]] + rest)
  {
    if UniqueWords(table) {
      TailFacts(table, word);
      var r := [table[0]] + rest;
      forall i, j | 0 <= i < j < |r| ensures r[i].word != r[j].word {
        assert r[j] == rest[j - 1] && r[j] in table[1..];
        if i > 0 {
          assert r[i] == rest[i - 1];
        } else {
          var m :| 0 <= m < |table[1..]| && table[1..][m] == r[j];
          assert table[m + 1] == r[j];
        }
      }
    }
  }

  /** A word is absent from a table exactly when it is not one of its keys. */
  lemma AbsentIsNotKey(table: seq<Keyword>, word: string)
    ensures Absent(table, word) <==> word !in KeySet(table, WordOf)
  {
    if word in KeySet(table, WordOf) {
      var i :| 0 <= i < |table| && WordOf(table[i]) == word;
    }
  }

  /** Adding one new keyword and deleting it again restores the table. */
  lemma AddThenDeleteRestores(db: Db, w: string)
    requires Valid(db)
    requires NormalWord(w) && w != []
    requires w !in KeySet(db.keywords, WordOf)
    ensures AddKeywords(db, w).committed
    ensures DeleteKeyword(AddKeywords(db, w).db, w) == db
  {
    var k := Keyword(w, DefaultWeight);
    SingleWordRows(w);
    SubmitSingleNew(db.keywords, k, WordOf);
    AbsentIsNotKey(db.keywords, w);
    WithoutAppended(db.keywords, k);
  }

  lemma SingleWordRows(w: string)
    requires NormalWord(w) && w != []
    ensures KeywordRows(w) == [Keyword(w, DefaultWeight)]
  {
    SplitFirstLine(w);
    FieldNotBlank(w);
    assert NonBlank([w]) == [w];
    BareWordGetsDefaultWeight(w);
    RowsOfSingleLine(w, w, Keyword(w, DefaultWeight));
  }

  lemma RowsOfSingleLine(raw: string, line: string, k: Keyword)
    requires NonBlank(Split(raw, '\n')) == [line]
    requires ParseKeywordLine(line) == Some(k)
    ensures KeywordRows(raw) == [k]
  {
    KeywordRowsOf(raw, [line]);
  }

  /** One new row submitted alone is committed and appended. */
  lemma SubmitSingleNew<T(!new)>(table: seq<T>, x: T, key: T -> string)
    requires key(x) !in KeySet(table, key)
    ensures Submit(table, [x], key) == Submission(table + [x], 1, 0, true)
  {
    var e := KeySet(table, key);
    assert [x][1..] == [];
    assert Fresh(e, [x], key) == [x];
  }

  /** A single line without a line break is one line. */
  lemma SplitFirstLine(w: string)
    requires '\n' !in w
    ensures Split(w, '\n') == [w]
  {
    SplitJoin([w], '\n');
  }

  lemma {:induction false} WithoutAppended(table: seq<Keyword>, k: Keyword)
    requires Absent(table, k.word)
    ensures Without(table + [k], k.word) == table
    decreases |table|
  {
    if |table| == 0 {
      assert [] + [k] == [k];
    } else {
      TailFacts(table, k.word);
      assert (table + [k])[1..] == table[1..] + [k];
      WithoutAppended(table[1..], k);
    }
  }

  /* --------------------------------------------------- the feed form */

  /** The sources a bulk submission stages, one per non-blank line. */
  function FeedRows(raw: string): (r: seq<FeedSource>)
    ensures |r| == |NonBlank(Split(raw, '\n'))|
    ensures forall i :: 0 <= i < |r| ==> r[i].isActive && ',' !in r[i].url
  {
    var lines := NonBlank(Split(raw, '\n'));
    seq(|lines|, i requires 0 <= i < |lines| => ParseFeedLine(lines[i]).value)
  }

  /** The unique constraint on `url` is key-distinctness under `UrlOf`. */
  lemma UniqueUrlsByKey(t: seq<FeedSource>)
    ensures UniqueUrls(t) <==> KeysDistinct(t, UrlOf)
  {
  }

  lemma SourcesReplaced(db: Db, t: seq<FeedSource>)
    requires Valid(db) && KeysDistinct(t, UrlOf)
    ensures Valid(db.(sources := t))
  {
    UniqueUrlsByKey(t);
  }

  /** The bulk feed form: stage every non-blank line whose url is not yet
      registered, count it, then commit. New sources are active. */
  function AddFeeds(db: Db, raw: string): (r: FormResult)
    requires Valid(db)
    ensures Valid(r.db)
    ensures r.db.articles == db.articles && r.db.nextArticleId == db.nextArticleId && r.db.keywords == db.keywords
    ensures r.added + r.skipped == |NonBlank(Split(raw, '\n'))|
    ensures !r.committed ==> r.db == db
    ensures r.committed ==> |r.db.sources| == |db.sources| + r.added && r.db.sources[..|db.sources|] == db.sources
    ensures forall s :: s in r.db.sources <==>
              s in db.sources || (r.committed && s in FeedRows(raw) && s.url !in KeySet(db.sources, UrlOf))
    ensures forall s :: s in r.db.sources && s !in db.sources ==> s.isActive
  {
    var sub := Submit(db.sources, FeedRows(raw), UrlOf);
    UniqueUrlsByKey(db.sources);
    SourcesReplaced(db, sub.table);
    FormResult(db.(sources := sub.table), sub.added, sub.skipped, sub.committed)
  }

  /** The feed form with the intended staging: it always commits and every
      submitted url ends up registered. */
  function AddFeedsDeduped(db: Db, raw: string): (r: FormResult)
    requires Valid(db)
    ensures Valid(r.db) && r.committed
    ensures r.db.articles == db.articles && r.db.nextArticleId == db.nextArticleId && r.db.keywords == db.keywords
    ensures r.added + r.skipped == |NonBlank(Split(raw, '\n'))|
    ensures |r.db.sources| == |db.sources| + r.added && r.db.sources[..|db.sources|] == db.sources
    ensures forall i :: 0 <= i < |FeedRows(raw)| ==> FeedRows(raw)[i].url in KeySet(r.db.sources, UrlOf)
  {
    var sub := SubmitDeduped(db.sources, FeedRows(raw), UrlOf);
    UniqueUrlsByKey(db.sources);
    SourcesReplaced(db, sub.table);
    FormResult(db.(sources := sub.table), sub.added, sub.skipped, sub.committed)
  }

  /** Submitting the same feed text twice: the second submission adds
      nothing. */
  lemma FeedResubmitSkipsAll(db: Db, raw: string)
    requires Valid(db)
    requires AddFeeds(db, raw).committed
    ensures var again := AddFeeds(AddFeeds(db, raw).db, raw);
            again.db == AddFeeds(db, raw).db && again.added == 0 && again.committed
  {
    var first := AddFeeds(db, raw);
    ResubmitSkipsAll(db.sources, FeedRows(raw), UrlOf, first.db.sources);
  }

  /** Whenever the feed form as written commits, the intended form leaves
      the same store and counters. */
  lemma FeedFormsAgreeWhenCommitted(db: Db, raw: string)
    requires Valid(db)
    requires AddFeeds(db, raw).committed
    ensures AddFeedsDeduped(db, raw) == AddFeeds(db, raw)
  {
    DedupedAgreesWhenCommitted(db.sources, FeedRows(raw), UrlOf);
  }

  /** A url not yet registered, submitted on two lines: the form as written
      stages two sources with that url and the commit fails on the unique
      constraint, so nothing is registered. */
  lemma RepeatedNewUrlFailsCommit(db: Db, u: string)
    requires Valid(db)
    requires Field(u) && u != []
    requires u !in KeySet(db.sources, UrlOf)
    ensures AddFeeds(db, u + "\n" + u) == FormResult(db, 2, 0, false)
  {
    RepeatedUrlRows(u);
    SubmitRepeatedNew(db.sources, NewFeedSource(u, DefaultFeedName), UrlOf);
  }

  /** The same submission under the intended staging registers the url
      once, with the default name, and skips the second line. */
  lemma RepeatedNewUrlAddedOnce(db: Db, u: string)
    requires Valid(db)
    requires Field(u) && u != []
    requires u !in KeySet(db.sources, UrlOf)
    ensures AddFeedsDeduped(db, u + "\n" + u)
         == FormResult(db.(sources := db.sources + [NewFeedSource(u, DefaultFeedName)]), 1, 1, true)
  {
    RepeatedUrlRows(u);
    SubmitRepeatedNew(db.sources, NewFeedSource(u, DefaultFeedName), UrlOf);
  }

  lemma RepeatedUrlRows(u: string)
    requires Field(u) && u != []
    ensures FeedRows(u + "\n" + u) == [NewFeedSource(u, DefaultFeedName), NewFeedSource(u, DefaultFeedName)]
  {
    TwoFieldLines(u);
    BareUrlGetsDefaultName(u);
    RowsOfRepeatedFeedLine(u + "\n" + u, u, NewFeedSource(u, DefaultFeedName));
  }

  lemma RowsOfRepeatedFeedLine(raw: string, line: string, s: FeedSource)
    requires NonBlank(Split(raw, '\n')) == [line, line]
    requires ParseFeedLine(line) == Some(s)
    ensures FeedRows(raw) == [s, s]
  {
    FeedRowsOf(raw, [line, line]);
  }

  /** The feed rows of a submission, given its non-blank lines. */
  lemma FeedRowsOf(raw: string, lines: seq<string>)
    requires NonBlank(Split(raw, '\n')) == lines
    ensures |FeedRows(raw)| == |lines|
    ensures forall i :: 0 <= i < |lines| ==> Some(FeedRows(raw)[i]) == ParseFeedLine(lines[i])
  {
  }

  /* ------------------------------------------------------ the archive */

  /** `math.ceil(total / perPage)`, raised to at least one page. */
  function TotalPages(total: nat, perPage: nat): (r: nat)
    requires perPage > 0
    ensures r >= 1
    ensures total <= r * perPage
    ensures total > 0 ==> (r - 1) * perPage < total
    ensures total == 0 ==> r == 1
  {
    var pages := (total + perPage - 1) / perPage;
    CeilDivision(total, perPage);
    if pages < 1 then 1 else pages
  }

  /** The ceiling quotient brackets `total`. */
  lemma CeilDivision(total: nat, perPage: nat)
    requires perPage > 0
    ensures total <= ((total + perPage - 1) / perPage) * perPage
    ensures total > 0 ==> ((total + perPage - 1) / perPage - 1) * perPage < total
    ensures total > 0 ==> (total + perPage - 1) / perPage >= 1
    ensures total == 0 ==> (total + perPage - 1) / perPage == 0
  {
    var n := total + perPage - 1;
    var q := n / perPage;
    assert n == q * perPage + n % perPage;
    assert (q - 1) * perPage == q * perPage - perPage;
  }

  /** The first position a page shows. */
  function Offset(page: nat, perPage: nat): nat
    requires page >= 1
  {
    (page - 1) * perPage
  }

  /** The page the archive view shows: `perPage` articles of the
      newest-first archive from the page's offset on. A page the page
      selector allows is never past the end, and only the single page of
      an empty archive is empty. */
  function ArchivePage<T>(archive: seq<T>, page: nat, perPage: nat): (r: seq<T>)
    requires perPage > 0 && 1 <= page <= TotalPages(|archive|, perPage)
    ensures |r| <= perPage
    ensures |archive| > 0 ==> |r| > 0
    ensures forall q :: 0 <= q < |r| ==> Offset(page, perPage) + q < |archive| && r[q] == archive[Offset(page, perPage) + q]
    ensures Offset(page, perPage) + perPage <= |archive| ==> |r| == perPage
  {
    var offset := Offset(page, perPage);
    OffsetInRange(|archive|, page, perPage);
    var stop := if offset + perPage <= |archive| then offset + perPage else |archive|;
    archive[offset..stop]
  }

  /** An allowed page starts inside the archive (or at zero for an empty
      one). */
  lemma OffsetInRange(total: nat, page: nat, perPage: nat)
    requires perPage > 0 && 1 <= page <= TotalPages(total, perPage)
    ensures Offset(page, perPage) <= total
    ensures total > 0 ==> Offset(page, perPage) < total
  {
    var r := TotalPages(total, perPage);
    assert (page - 1) * perPage <= (r - 1) * perPage by {
      MultiplyMonotone(page - 1, r - 1, perPage);
    }
  }

  lemma MultiplyMonotone(a: nat, b: nat, c: nat)
    requires a <= b
    ensures a * c <= b * c
  {
  }

  /** Every article of the archive is reachable: article `k` is on page
      `k / perPage + 1`, which the page selector allows, at position
      `k % perPage`. */
  lemma PageOfIndex<T>(archive: seq<T>, perPage: nat, k: nat)
    requires perPage > 0 && k < |archive|
    ensures 1 <= k / perPage + 1 <= TotalPages(|archive|, perPage)
    ensures var page := ArchivePage(archive, k / perPage + 1, perPage);
            k % perPage < |page| && page[k % perPage] == archive[k]
  {
    var p := k / perPage;
    var q := k % perPage;
    assert k == p * perPage + q;
    var r := TotalPages(|archive|, perPage);
    if p + 1 > r {
      MultiplyMonotone(r, p, perPage);
      assert false;
    }
    assert Offset(p + 1, perPage) == p * perPage;
  }

  /* ------------------------------------------------- review callback */

  /** The article after `change_status` when it carries `id`: the new
      review flag, and the new alert flag when one is given. */
  function Reviewed(a: Article, id: nat, fb: Feedback, bubble: Option<bool>): (r: Article)
    ensures a.id != id ==> r == a
    ensures a.id == id ==> r.feedback == fb && r.isBubbled == bubble.GetOr(a.isBubbled)
    ensures r.(feedback := a.feedback, isBubbled := a.isBubbled) == a
  {
    if a.id != id then a
    else a.(feedback := fb, isBubbled := bubble.GetOr(a.isBubbled))
  }

  /** `change_status`: the article with primary key `id`, if any, gets the
      new review flag (and alert flag); every other row and table is
      unchanged, and an unknown id changes nothing. */
  function ChangeStatus(db: Db, id: nat, fb: Feedback, bubble: Option<bool>): (r: Db)
    requires Valid(db)
    ensures Valid(r)
    ensures r.nextArticleId == db.nextArticleId && r.sources == db.sources && r.keywords == db.keywords
    ensures forall l :: l in r.articles <==> l in db.articles
    ensures forall l :: l in db.articles && db.articles[l].id != id ==> r.articles[l] == db.articles[l]
    ensures forall l :: l in db.articles && db.articles[l].id == id ==>
              r.articles[l].feedback == fb && r.articles[l].isBubbled == bubble.GetOr(db.articles[l].isBubbled)
    ensures forall l :: l in db.articles ==>
              r.articles[l].(feedback := db.articles[l].feedback, isBubbled := db.articles[l].isBubbled) == db.articles[l]
    ensures (forall l :: l in db.articles ==> db.articles[l].id != id) ==> r == db
  {
    var m := map l | l in db.articles :: Reviewed(db.articles[l], id, fb, bubble);
    assert (forall l :: l in db.articles ==> db.articles[l].id != id) ==> m == db.articles;
    db.(articles := m)
  }

  /** Pressing the same review button twice has the effect of pressing it
      once. */
  lemma ChangeStatusIdempotent(db: Db, id: nat, fb: Feedback, bubble: Option<bool>)
    requires Valid(db)
    ensures ChangeStatus(ChangeStatus(db, id, fb, bubble), id, fb, bubble) == ChangeStatus(db, id, fb, bubble)
  {
    var once := ChangeStatus(db, id, fb, bubble);
    var twice := ChangeStatus(once, id, fb, bubble);
    assert twice.articles == once.articles;
  }

  /** Acknowledging an unreviewed article and re-opening it restores the
      store exactly. */
  lemma AcknowledgeThenReopen(db: Db, id: nat)
    requires Valid(db)
    requires forall l :: l in db.articles && db.articles[l].id == id ==> db.articles[l].feedback == Unreviewed
    ensures ChangeStatus(ChangeStatus(db, id, Confirmed, None), id, Unreviewed, None) == db
  {
    var back := ChangeStatus(ChangeStatus(db, id, Confirmed, None), id, Unreviewed, None);
    assert back.articles == db.articles;
  }

  /* -------------------------------------------------------- the inbox */

  /** The inbox shows at most this many alerts. */
  const InboxLimit := 30

  /** Waiting in the inbox: flagged as an alert and not yet reviewed. */
  predicate Pending(a: Article) {
    a.isBubbled && a.feedback == Unreviewed
  }

  /** The stored articles waiting in the inbox. */
  function PendingArticles(m: map<string, Article>): (r: set<Article>)
    ensures forall a :: a in r <==> Pending(a) && exists l :: l in m && m[l] == a
  {
    set l | l in m && Pending(m[l]) :: m[l]
  }

  /** The links of the pending rows. */
  function PendingLinks(m: map<string, Article>): set<string> {
    set l | l in m && Pending(m[l])
  }

  /** Under the unique `link` column each pending row is a different article,
      so there are as many pending articles as pending rows. */
  lemma PendingCount(m: map<string, Article>)
    requires KeyedByLink(m)
    ensures |PendingArticles(m)| == |PendingLinks(m)|
  {
    var links := PendingLinks(m);
    assert PendingArticles(m) == set l | l in links :: m[l];
    RowsByLinkCount(links, m);
  }

  lemma {:induction false} RowsByLinkCount(links: set<string>, m: map<string, Article>)
    requires forall l :: l in links ==> l in m && m[l].link == l
    ensures |set l | l in links :: m[l]| == |links|
    decreases |links|
  {
    if links != {} {
      var x :| x in links;
      var rest := links - {x};
      RowsByLinkCount(rest, m);
      var img := set l | l in links :: m[l];
      var img' := set l | l in rest :: m[l];
      assert img == img' + {m[x]};
      assert m[x] !in img';
    }
  }

  /** Acknowledging or dismissing an article takes it out of the inbox. */
  lemma ReviewLeavesInbox(db: Db, id: nat, fb: Feedback)
    requires Valid(db) && fb != Unreviewed
    ensures forall a :: a in PendingArticles(ChangeStatus(db, id, fb, None).articles) ==> a.id != id
  {
  }

  /** Marking a stored article critical puts it into the inbox. */
  lemma MarkCriticalEntersInbox(db: Db, l: string)
    requires Valid(db) && l in db.articles
    ensures var r := ChangeStatus(db, db.articles[l].id, Unreviewed, Some(true));
            r.articles[l] in PendingArticles(r.articles) && r.articles[l].id == db.articles[l].id
  {
  }

  /** Scores never increase along the sequence. */
  predicate ByScoreDesc(s: seq<Article>) {
    forall i, j :: 0 <= i < j < |s| ==> s[i].score >= s[j].score
  }

  /** No article occurs twice. */
  predicate NoRepeats(s: seq<Article>) {
    forall i, j :: 0 <= i < j < |s| ==> s[i] != s[j]
  }

  /** Insertion into a list ordered by descending score: `a` goes before
      the first article it does not score below. */
  function InsertByScore(a: Article, s: seq<Article>): (r: seq<Article>)
    requires ByScoreDesc(s)
    ensures ByScoreDesc(r)
    ensures multiset(r) == multiset(s) + multiset{a}
    decreases |s|
  {
    if |s| == 0 || s[0].score <= a.score then
      assert s == [] || a.score >= s[0].score;
      assert multiset([a] + s) == multiset{a} + multiset(s);
      [a] + s
    else
      var rest := InsertByScore(a, s[1..]);
      InsertBehind(a, s, rest);
      [s[0]] + rest
  }

  lemma InsertBehind(a: Article, s: seq<Article>, rest: seq<Article>)
    requires ByScoreDesc(s) && |s| > 0 && s[0].score > a.score
    requires ByScoreDesc(rest) && multiset(rest) == multiset(s[1..]) + multiset{a}
    ensures ByScoreDesc([s[0]] + rest)
    ensures multiset([s[0]] + rest) == multiset(s) + multiset{a}
  {
    assert s == [s[0]] + s[1..];
    assert multiset(s) == multiset{s[0]} + multiset(s[1..]);
    var r := [s[0]] + rest;
    forall i, j | 0 <= i < j < |r| ensures r[i].score >= r[j].score {
      assert r[j] == rest[j - 1];
      if i > 0 {
        assert r[i] == rest[i - 1];
      } else {
        assert rest[j - 1] in multiset(rest);
        if rest[j - 1] != a {
          assert rest[j - 1] in s[1..];
          var k :| 0 <= k < |s[1..]| && s[1..][k] == rest[j - 1];
          assert s[k + 1] == rest[j - 1];
        }
      }
    }
  }

  /** The inbox query: the pending articles by descending score, at most
      `InboxLimit` of them. The result holds only pending stored articles,
      each once, in score order; it is as long as the limit allows; and no
      pending article left out scores above one shown. */
  method Inbox(m: map<string, Article>) returns (r: seq<Article>)
    requires KeyedByLink(m)
    ensures forall a :: a in r ==> a in PendingArticles(m)
    ensures ByScoreDesc(r) && NoRepeats(r)
    ensures |r| == if |PendingLinks(m)| < InboxLimit then |PendingLinks(m)| else InboxLimit
    ensures forall a, i :: a in PendingArticles(m) && a !in r && 0 <= i < |r| ==> r[i].score >= a.score
  {
    var pending := PendingArticles(m);
    var todo := pending;
    var sorted: seq<Article> := [];
    while todo != {}
      invariant SortedSoFar(pending, todo, sorted)
      decreases |todo|
    {
      var a :| a in todo;
      var next := InsertByScore(a, sorted);
      InboxStep(pending, todo, sorted, a, next);
      sorted := next;
      todo := todo - {a};
    }
    var n := if |sorted| < InboxLimit then |sorted| else InboxLimit;
    r := sorted[..n];
    TopOfSorted(pending, sorted, n);
    PendingCount(m);
  }

  /** Loop invariant of `Inbox`: `sorted` holds, once each and by
      descending score, the pending articles already taken from `todo`. */
  ghost predicate SortedSoFar(pending: set<Article>, todo: set<Article>, sorted: seq<Article>) {
    && todo <= pending
    && ByScoreDesc(sorted) && NoRepeats(sorted)
    && (forall a :: a in sorted <==> a in pending && a !in todo)
    && |sorted| == |pending - todo|
  }

  lemma InboxStep(pending: set<Article>, todo: set<Article>, sorted: seq<Article>, a: Article, next: seq<Article>)
    requires SortedSoFar(pending, todo, sorted) && a in todo
    requires ByScoreDesc(next) && multiset(next) == multiset(sorted) + multiset{a}
    ensures SortedSoFar(pending, todo - {a}, next)
  {
    InsertKeepsNoRepeats(a, sorted, next);
    assert pending - (todo - {a}) == (pending - todo) + {a};
    assert |next| == |sorted| + 1 by {
      assert |multiset(next)| == |multiset(sorted)| + 1;
    }
  }

  /** The first `n` articles of a full descending list are the top `n`. */
  lemma TopOfSorted(pending: set<Article>, sorted: seq<Article>, n: nat)
    requires SortedSoFar(pending, {}, sorted)
    requires n == if |sorted| < InboxLimit then |sorted| else InboxLimit
    ensures forall a :: a in sorted[..n] ==> a in pending
    ensures ByScoreDesc(sorted[..n]) && NoRepeats(sorted[..n])
    ensures n == if |pending| < InboxLimit then |pending| else InboxLimit
    ensures forall a, i :: a in pending && a !in sorted[..n] && 0 <= i < n ==> sorted[..n][i].score >= a.score
  {
    assert pending - {} == pending;
    var r := sorted[..n];
    forall a, i | a in pending && a !in r && 0 <= i < n ensures r[i].score >= a.score {
      var j :| 0 <= j < |sorted| && sorted[j] == a;
      assert r[i] == sorted[i];
    }
  }

  /** Inserting an absent article keeps a list free of repeats. */
  lemma InsertKeepsNoRepeats(a: Article, s: seq<Article>, r: seq<Article>)
    requires NoRepeats(s) && a !in s
    requires multiset(r) == multiset(s) + multiset{a}
    ensures NoRepeats(r)
    ensures forall x :: x in r <==> x in s || x == a
  {
    assert forall x :: x in r <==> x in multiset(r);
    forall x ensures multiset(r)[x] <= 1 {
      assert multiset(s)[x] <= 1 by { NoRepeatsCount(s, x); }
    }
    forall i, j | 0 <= i < j < |r| ensures r[i] != r[j] {
      if r[i] == r[j] {
        TwoOccurrences(r, i, j);
        assert false;
      }
    }
  }

  lemma NoRepeatsCount(s: seq<Article>, x: Article)
    requires NoRepeats(s)
    ensures multiset(s)[x] <= 1
    decreases |s|
  {
    if |s| > 0 {
      assert s == [s[0]] + s[1..];
      assert NoRepeats(s[1..]) by {
        forall i, j | 0 <= i < j < |s[1..]| ensures s[1..][i] != s[1..][j] {
          assert s[1..][i] == s[i + 1] && s[1..][j] == s[j + 1];
        }
      }
      NoRepeatsCount(s[1..], x);
      if s[0] == x {
        assert x !in s[1..] by {
          forall k | 0 <= k < |s[1..]| ensures s[1..][k] != x {
            assert s[1..][k] == s[k + 1];
          }
        }
      }
    }
  }

  /** Two positions holding the same article count it twice. */
  lemma TwoOccurrences(r: seq<Article>, i: nat, j: nat)
    requires i < j < |r| && r[i] == r[j]
    ensures multiset(r)[r[i]] >= 2
  {
    var x := r[i];
    assert r == r[..j] + r[j..];
    assert r[..j] == r[..i] + r[i..j];
    assert x in r[i..j] by { assert r[i..j][0] == x; }
    assert x in r[j..] by { assert r[j..][0] == x; }
    assert multiset(r) == multiset(r[..i]) + multiset(r[i..j]) + multiset(r[j..]);
  }
}
