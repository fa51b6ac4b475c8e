/**
 Models of the Python string built-ins the repository relies on:
 `str.lower` (restricted to ASCII), the substring test `w in t`,
 `str.strip`, `str.split(sep)` with its inverse `sep.join`, and the
 decimal `int(...)` / `str(...)` conversions.
 */
module Text {
  import opened Wrappers

  /* ---------------------------------------------------------------- case */

  function LowerChar(c: char): char {
    if 'A' <= c <= 'Z' then (c as int + 32) as char else c
  }

  function UpperChar(c: char): char {
    if 'a' <= c <= 'z' then (c as int - 32) as char else c
  }

  /** `s.lower()` on the ASCII letters; every other character is kept. */
  function Lower(s: string): (r: string)
    ensures |r| == |s|
    ensures forall i :: 0 <= i < |s| ==> r[i] == LowerChar(s[i])
  {
    seq(|s|, i requires 0 <= i < |s| => LowerChar(s[i]))
  }

  /** `s.upper()` on the ASCII letters. */
  function Upper(s: string): (r: string)
    ensures |r| == |s|
    ensures forall i :: 0 <= i < |s| ==> r[i] == UpperChar(s[i])
  {
    seq(|s|, i requires 0 <= i < |s| => UpperChar(s[i]))
  }

  /** Lower-casing is idempotent and forgets the original case: a text and
      its upper-cased variant have the same lower-case form. */
  lemma LowerForgetsCase(s: string)
    ensures Lower(Lower(s)) == Lower(s)
    ensures Lower(Upper(s)) == Lower(s)
  {
  }

  /* ----------------------------------------------------------- substring */

  /** `w` occurs in `t` starting at index `i`. */
  predicate OccursAt(t: string, w: string, i: int) {
    0 <= i && i + |w| <= |t| && t[i..i + |w|] == w
  }

  /** Python's `w in t` for strings: a substring test, so the empty word
      occurs in every text. */
  function Contains(t: string, w: string): (r: bool)
    ensures r <==> exists i :: OccursAt(t, w, i)
    decreases |t|
  {
    if |w| > |t| then false
    else if t[..|w|] == w then
      assert OccursAt(t, w, 0);
      true
    else
      var r := Contains(t[1..], w);
      ContainsStep(t, w);
      r
  }

  lemma ContainsStep(t: string, w: string)
    requires |w| <= |t| && t[..|w|] != w
    ensures (exists i :: OccursAt(t, w, i)) <==> (exists i :: OccursAt(t[1..], w, i))
  {
    if i :| OccursAt(t, w, i) {
      assert i != 0;
      assert t[1..][i - 1..i - 1 + |w|] == t[i..i + |w|];
      assert OccursAt(t[1..], w, i - 1);
    }
    if i :| OccursAt(t[1..], w, i) {
      assert t[1..][i..i + |w|] == t[i + 1..i + 1 + |w|];
      assert OccursAt(t, w, i + 1);
    }
  }

  /** A word is found inside any longer text that embeds it: matching is
      by substring, not by token. */
  lemma ContainsEmbedded(before: string, w: string, after: string)
    ensures Contains(before + w + after, w)
  {
    var t := before + w + after;
    assert t[|before|..|before| + |w|] == w;
    assert OccursAt(t, w, |before|);
  }

  /* ---------------------------------------------------------- whitespace */

  /** The characters Python's `str.isspace` accepts. */
  predicate IsSpace(c: char) {
    || c == ' ' || c == '\t' || c == '\n' || c == '\r'
    || c == '\U{B}' || c == '\U{C}'
    || ('\U{1C}' <= c <= '\U{1F}')
    || c == '\U{85}' || c == '\U{A0}' || c == '\U{1680}'
    || ('\U{2000}' <= c <= '\U{200A}')
    || c == '\U{2028}' || c == '\U{2029}' || c == '\U{202F}' || c == '\U{205F}'
    || c == '\U{3000}'
  }

  predicate AllSpace(s: string) {
    forall i :: 0 <= i < |s| ==> IsSpace(s[i])
  }

  /** `s.lstrip()`: the suffix left after dropping leading whitespace. */
  function TrimStart(s: string): (r: string)
    ensures |r| <= |s| && r == s[|s| - |r|..]
    ensures AllSpace(s[..|s| - |r|])
    ensures r == [] || !IsSpace(r[0])
    decreases |s|
  {
    if |s| > 0 && IsSpace(s[0]) then TrimStart(s[1..]) else s
  }

  /** `s.rstrip()`: the prefix left after dropping trailing whitespace. */
  function TrimEnd(s: string): (r: string)
    ensures |r| <= |s| && r == s[..|r|]
    ensures AllSpace(s[|r|..])
    ensures r == [] || !IsSpace(r[|r| - 1])
    decreases |s|
  {
    if |s| > 0 && IsSpace(s[|s| - 1]) then TrimEnd(s[..|s| - 1]) else s
  }

  /** `s.strip()`: `s` without its leading and trailing whitespace. The
      result neither starts nor ends with whitespace, and it is empty
      exactly when `s` is blank. */
  function Strip(s: string): (r: string)
    ensures |r| <= |s|
    ensures r == [] || (!IsSpace(r[0]) && !IsSpace(r[|r| - 1]))
    ensures r == [] <==> AllSpace(s)
  {
    var t := TrimStart(s);
    var r := TrimEnd(t);
    StripSlice(s, t, r);
    r
  }

  lemma StripSlice(s: string, t: string, r: string)
    requires |t| <= |s| && t == s[|s| - |t|..] && AllSpace(s[..|s| - |t|])
    requires t == [] || !IsSpace(t[0])
    requires |r| <= |t| && r == t[..|r|] && AllSpace(t[|r|..])
    requires r == [] || !IsSpace(r[|r| - 1])
    ensures |s| - |t| <= |s| - |r|
    ensures s[|s| - |t|..|s| - |t| + |r|] == r
    ensures AllSpace(s[..|s| - |t|]) && AllSpace(s[|s| - |t| + |r|..])
    ensures r == [] || (!IsSpace(r[0]) && !IsSpace(r[|r| - 1]))
    ensures r == [] <==> AllSpace(s)
  {
    var i := |s| - |t|;
    assert s[i..i + |r|] == r;
    assert s[i + |r|..] == t[|r|..];
    if r == [] {
      assert s == s[..i] + t;
      assert AllSpace(s);
    } else {
      assert r[0] == t[0];
      assert !IsSpace(s[i]);
    }
  }

  /** Stripping only removes characters: one absent from `s` is absent
      from its strip. */
  lemma StripKeepsOut(s: string, c: char)
    requires c !in s
    ensures c !in Strip(s)
  {
    var t := TrimStart(s);
    var r := TrimEnd(t);
    StripSlice(s, t, r);
    var i := |s| - |t|;
    forall j | 0 <= j < |r| ensures r[j] != c {
      assert r[j] == s[i + j];
    }
  }

  /** Stripping removes exactly the whitespace padding around a value that
      neither starts nor ends with whitespace. */
  lemma StripPadded(a: string, w: string, b: string)
    requires AllSpace(a) && AllSpace(b)
    requires w == [] || (!IsSpace(w[0]) && !IsSpace(w[|w| - 1]))
    ensures Strip(a + w + b) == w
  {
    if w == [] {
      assert AllSpace(a + w + b);
    } else {
      assert a + w + b == a + (w + b);
      TrimStartPadded(a, w + b);
      TrimEndPadded(w, b);
    }
  }

  lemma {:induction false} TrimStartPadded(a: string, t: string)
    requires AllSpace(a) && |t| > 0 && !IsSpace(t[0])
    ensures TrimStart(a + t) == t
    decreases |a|
  {
    if |a| > 0 {
      assert (a + t)[1..] == a[1..] + t;
      TrimStartPadded(a[1..], t);
    }
  }

  lemma {:induction false} TrimEndPadded(t: string, b: string)
    requires AllSpace(b) && |t| > 0 && !IsSpace(t[|t| - 1])
    ensures TrimEnd(t + b) == t
    decreases |b|
  {
    if |b| > 0 {
      assert (t + b)[..|t + b| - 1] == t + b[..|b| - 1];
      TrimEndPadded(t, b[..|b| - 1]);
    }
  }

  /* ----------------------------------------------------------- filtering */

  /** `a` is `b` with some elements left out, the rest kept in order. */
  predicate IsSubsequence<T(==)>(a: seq<T>, b: seq<T>)
    decreases |b|
  {
    |a| == 0 || (|b| > 0 && ((a[0] == b[0] && IsSubsequence(a[1..], b[1..])) || IsSubsequence(a, b[1..])))
  }

  /* -------------------------------------------------------- split / join */

  /** `sep.join(parts)`. */
  function Join(parts: seq<string>, sep: char): string
    decreases |parts|
  {
    if |parts| == 0 then ""
    else if |parts| == 1 then parts[0]
    else parts[0] + [sep] + Join(parts[1..], sep)
  }

  /** `s.split(sep)` for a one-character separator: never empty, no field
      contains the separator, and joining the fields gives back `s`. */
  function Split(s: string, sep: char): (r: seq<string>)
    ensures |r| >= 1
    ensures forall i :: 0 <= i < |r| ==> sep !in r[i]
    ensures Join(r, sep) == s
    decreases |s|
  {
    if |s| == 0 then [""]
    else
      var rest := Split(s[1..], sep);
      if s[0] == sep then
        assert s == [sep] + s[1..];
        [""] + rest
      else
        var r := [[s[0]] + rest[0]] + rest[1..];
        assert r[1..] == rest[1..];
        assert s == [s[0]] + s[1..];
        r
  }

  /** Splitting undoes joining whenever no field holds the separator. */
  lemma {:induction false} SplitJoin(parts: seq<string>, sep: char)
    requires |parts| >= 1
    requires forall i :: 0 <= i < |parts| ==> sep !in parts[i]
    ensures Split(Join(parts, sep), sep) == parts
    decreases |parts|, |parts[0]|
  {
    var p := parts[0];
    if |p| == 0 {
      if |parts| == 1 {
      } else {
        var tail := parts[1..];
        SplitJoin(tail, sep);
        var s := Join(parts, sep);
        assert s == [sep] + Join(tail, sep);
        assert s[1..] == Join(tail, sep);
        assert parts == [""] + tail;
      }
    } else {
      var q := [p[1..]] + parts[1..];
      assert forall i :: 0 <= i < |q| ==> sep !in q[i] by {
        forall i | 0 <= i < |q| ensures sep !in q[i] {
          if i == 0 {
            assert forall k :: 0 <= k < |p[1..]| ==> p[1..][k] == p[k + 1];
          } else {
            assert q[i] == parts[i];
          }
        }
      }
      SplitJoin(q, sep);
      var s := Join(parts, sep);
      JoinCons(p[0], q, sep);
      assert [p[0]] + p[1..] == p;
      assert q[1..] == parts[1..];
      assert s == [p[0]] + Join(q, sep);
      assert s[1..] == Join(q, sep);
      assert s[0] == p[0] && s[0] != sep;
      var rest := Split(s[1..], sep);
      assert rest == q;
      assert [[s[0]] + rest[0]] + rest[1..] == parts;
    }
  }

  /** Splitting at the first separator: the text before it is the first
      field, and the rest splits on its own. */
  lemma SplitHead(a: string, rest: string, sep: char)
    requires sep !in a
    ensures Split(a + [sep] + rest, sep) == [a] + Split(rest, sep)
  {
    var ps := Split(rest, sep);
    var parts := [a] + ps;
    assert parts[1..] == ps;
    assert Join(parts, sep) == a + [sep] + rest;
    assert forall i :: 0 <= i < |parts| ==> sep !in parts[i] by {
      forall i | 0 <= i < |parts| ensures sep !in parts[i] {
        if i > 0 { assert parts[i] == ps[i - 1]; }
      }
    }
    SplitJoin(parts, sep);
  }

  lemma JoinCons(c: char, q: seq<string>, sep: char)
    requires |q| >= 1
    ensures Join([[c] + q[0]] + q[1..], sep) == [c] + Join(q, sep)
  {
    var parts := [[c] + q[0]] + q[1..];
    assert parts[1..] == q[1..];
  }

  /* ------------------------------------------------------------- integers */

  predicate IsDigit(c: char) {
    '0' <= c <= '9'
  }

  function DigitValue(c: char): nat
    requires IsDigit(c)
  {
    c as int - '0' as int
  }

  function DigitChar(d: nat): (c: char)
    requires d < 10
    ensures IsDigit(c) && DigitValue(c) == d
  {
    ('0' as int + d) as char
  }

  /** The digit strings Python's `int(...)` accepts after the sign: digits,
      with single underscores allowed between two digits. */
  predicate DigitGroups(s: string) {
    && |s| > 0
    && IsDigit(s[0])
    && IsDigit(s[|s| - 1])
    && (forall i :: 0 <= i < |s| ==> IsDigit(s[i]) || s[i] == '_')
    && (forall i :: 0 <= i < |s| - 1 ==> s[i] != '_' || s[i + 1] != '_')
  }

  /** The decimal value of a digit string, underscores being separators. */
  function DigitsValue(s: string): nat
    requires forall i :: 0 <= i < |s| ==> IsDigit(s[i]) || s[i] == '_'
    decreases |s|
  {
    if |s| == 0 then 0
    else if s[|s| - 1] == '_' then DigitsValue(s[..|s| - 1])
    else DigitsValue(s[..|s| - 1]) * 10 + DigitValue(s[|s| - 1])
  }

  /** CPython's default cap on the decimal digits `int(...)` reads and
      `str(...)` writes (`sys.get_int_max_str_digits()`). */
  const MaxStrDigits: nat := 4300

  /** The decimal digits of a text; underscores and signs do not count. */
  function DigitCount(s: string): (r: nat)
    ensures r <= |s|
    decreases |s|
  {
    if |s| == 0 then 0 else (if IsDigit(s[0]) then 1 else 0) + DigitCount(s[1..])
  }

  /** `int(s)` for an already stripped `s`: `None` where Python raises
      `ValueError`, which includes a text of more digits than the cap. */
  function ParseInt(s: string): (r: Option<int>)
    ensures r.Some? ==> |s| > 0
    ensures |s| > 0 && s[0] != '+' && s[0] != '-' && !IsDigit(s[0]) ==> r == None
    ensures DigitCount(s) > MaxStrDigits ==> r == None
  {
    if |s| > 0 && (s[0] == '+' || s[0] == '-') then
      if DigitGroups(s[1..]) && DigitCount(s[1..]) <= MaxStrDigits then
        var n: int := DigitsValue(s[1..]);
        Some(if s[0] == '-' then -n else n)
      else None
    else if DigitGroups(s) && DigitCount(s) <= MaxStrDigits then Some(DigitsValue(s))
    else None
  }

  /** `str(n)` for a natural number: its shortest decimal digits. */
  function NatToString(n: nat): (r: string)
    ensures |r| >= 1
    decreases n
  {
    if n < 10 then [DigitChar(n)] else NatToString(n / 10) + [DigitChar(n % 10)]
  }

  /** `str(n)`. */
  function IntToString(n: int): string {
    if n < 0 then "-" + NatToString(-n) else NatToString(n)
  }

  lemma {:induction false} NatToStringDigits(n: nat)
    ensures forall i :: 0 <= i < |NatToString(n)| ==> IsDigit(NatToString(n)[i])
    ensures DigitsValue(NatToString(n)) == n
    decreases n
  {
    var s := NatToString(n);
    if n >= 10 {
      NatToStringDigits(n / 10);
      assert s[..|s| - 1] == NatToString(n / 10);
    }
  }

  /** `str(n)` is a sign-or-digit followed by digits: never empty, no
      whitespace at either end, no separator of any kind. */
  lemma IntToStringShape(n: int)
    ensures |IntToString(n)| >= 1
    ensures forall i :: 0 <= i < |IntToString(n)| ==> IsDigit(IntToString(n)[i]) || IntToString(n)[i] == '-'
    ensures IsDigit(IntToString(n)[|IntToString(n)| - 1])
  {
    var m: nat := if n < 0 then -n else n;
    NatToStringDigits(m);
    var d := NatToString(m);
    if n < 0 {
      var s := IntToString(n);
      assert s == "-" + d;
      assert forall i :: 1 <= i < |s| ==> s[i] == d[i - 1];
    }
  }

  /** The number of decimal digits of `n`, its sign not counted. */
  function DecimalDigits(n: int): nat {
    if n < 0 then |NatToString(-n)| else |NatToString(n)|
  }

  /** `str(n)` succeeds, and `int` reads its text back, iff `n` has at most
      the capped number of digits. */
  predicate WithinStrDigits(n: int) {
    DecimalDigits(n) <= MaxStrDigits
  }

  function Pow10(k: nat): (r: nat)
    ensures r >= 1
  {
    if k == 0 then 1 else 10 * Pow10(k - 1)
  }

  /** A natural number has at most `k` digits iff it is below `10^k`. */
  lemma {:induction false} DigitsBelowPower(n: nat, k: nat)
    requires k >= 1
    ensures |NatToString(n)| <= k <==> n < Pow10(k)
    decreases n
  {
    if k == 1 {
      if n >= 10 { assert |NatToString(n)| == |NatToString(n / 10)| + 1; }
    } else if n >= 10 {
      DigitsBelowPower(n / 10, k - 1);
      assert |NatToString(n)| == |NatToString(n / 10)| + 1;
      assert n / 10 < Pow10(k - 1) <==> n < 10 * Pow10(k - 1);
    } else {
      assert Pow10(k) == 10 * Pow10(k - 1);
    }
  }

  /** A text of digits only counts every character as a digit. */
  lemma {:induction false} AllDigitsCount(s: string)
    requires forall i :: 0 <= i < |s| ==> IsDigit(s[i])
    ensures DigitCount(s) == |s|
    decreases |s|
  {
    if |s| > 0 {
      assert forall i :: 0 <= i < |s[1..]| ==> IsDigit(s[1..][i]) by {
        forall i | 0 <= i < |s[1..]| ensures IsDigit(s[1..][i]) { assert s[1..][i] == s[i + 1]; }
      }
      AllDigitsCount(s[1..]);
    }
  }

  /** `int(str(n)) == n` for every integer within the digit cap; past the
      cap `int` refuses the text (and `str` itself raises). */
  lemma ParseIntToString(n: int)
    ensures ParseInt(IntToString(n)) == if WithinStrDigits(n) then Some(n) else None
  {
    var m: nat := if n < 0 then -n else n;
    NatToStringDigits(m);
    var d := NatToString(m);
    AllDigitsCount(d);
    if n < 0 {
      var s := IntToString(n);
      assert s[1..] == d;
    }
  }
}
