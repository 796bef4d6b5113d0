/**
 Score extraction from the analysis text (`extract_score`, hrms_app.py).

 The source runs `re.search` with the pattern
 `score out of 100: (\d+)|Score: (\d+)`: the leftmost position at which
 either alternative matches wins, the first alternative is tried first at each
 position, and the digit group is greedy. The captured digits are turned into
 an integer with no range check. Matching is case-sensitive, and the literal,
 which ends in a single space, must be followed directly by a digit.
 */
module ScoreExtraction {
  import opened Wrappers

  /** The first alternative's literal part. */
  const LongLabel: string := "score out of 100: "

  /** The second alternative's literal part. */
  const ShortLabel: string := "Score: "

  predicate IsDigit(c: char) {
    '0' <= c <= '9'
  }

  predicate AllDigits(ds: string) {
    forall k :: 0 <= k < |ds| ==> IsDigit(ds[k])
  }

  function DigitValue(c: char): nat
    requires IsDigit(c)
  {
    c as int - '0' as int
  }

  function DigitChar(d: nat): (c: char)
    requires d < 10
    ensures IsDigit(c) && DigitValue(c) == d
  {
    ('0' as int + d) as char
  }

  /** The value of a decimal numeral, most significant digit first. */
  function DecimalValue(ds: string): nat
    requires AllDigits(ds)
  {
    if |ds| == 0 then 0
    else DecimalValue(ds[..|ds| - 1]) * 10 + DigitValue(ds[|ds| - 1])
  }

  /** The shortest decimal numeral of `n`; the inverse of `DecimalValue`. */
  function DecimalString(n: nat): (ds: string)
    ensures |ds| > 0 && AllDigits(ds)
  {
    if n < 10 then [DigitChar(n)] else DecimalString(n / 10) + [DigitChar(n % 10)]
  }

  /** Length of the maximal run of digits that starts at position `j` (what a greedy `\d*` consumes). */
  function DigitRun(s: string, j: nat): (n: nat)
    requires j <= |s|
    ensures j + n <= |s|
    ensures AllDigits(s[j..j + n])
    ensures j + n == |s| || !IsDigit(s[j + n])
    decreases |s| - j
  {
    if j < |s| && IsDigit(s[j]) then
      var rest := DigitRun(s, j + 1);
      assert s[j..j + 1 + rest] == [s[j]] + s[j + 1..j + 1 + rest];
      1 + rest
    else 0
  }

  /** The literal `lit` occurs at position `i` of `s` and is followed by at least one digit. */
  predicate LabelAt(s: string, i: nat, lit: string) {
    i + |lit| < |s| && s[i..i + |lit|] == lit && IsDigit(s[i + |lit|])
  }

  /** One of the two alternatives of the pattern matches at position `i`. */
  predicate MatchAt(s: string, i: nat) {
    LabelAt(s, i, LongLabel) || LabelAt(s, i, ShortLabel)
  }

  /** `i` is the position `re.search` reports: a match, with no match before it. */
  predicate LeftmostMatch(s: string, i: nat) {
    i < |s| && MatchAt(s, i) && forall k: nat :: k < i ==> !MatchAt(s, k)
  }

  /** The digits captured at a match: group 1 when the first alternative matched there, else group 2. */
  function CapturedAt(s: string, i: nat): (ds: string)
    requires MatchAt(s, i)
    ensures |ds| > 0 && AllDigits(ds)
  {
    var j := if LabelAt(s, i, LongLabel) then i + |LongLabel| else i + |ShortLabel|;
    s[j..j + DigitRun(s, j)]
  }

  /** The leftmost match position at or after `from`, if any. */
  function FindMatch(s: string, from: nat): (r: Option<nat>)
    requires from <= |s|
    ensures r.Some? ==> from <= r.value < |s| && MatchAt(s, r.value)
    ensures r.Some? ==> forall k: nat :: from <= k < r.value ==> !MatchAt(s, k)
    ensures r.None? ==> forall k: nat :: from <= k < |s| ==> !MatchAt(s, k)
    decreases |s| - from
  {
    if from == |s| then None
    else if MatchAt(s, from) then Some(from)
    else FindMatch(s, from + 1)
  }

  /** `extract_score`: the integer of the digits captured at the leftmost match, or None when nothing matches. */
  function ExtractScore(text: string): Option<nat> {
    match FindMatch(text, 0)
    case None => None
    case Some(i) => Some(DecimalValue(CapturedAt(text, i)))
  }

  /** `extract_score` returns None exactly when nothing matches, and otherwise the value captured at the leftmost match. */
  lemma ExtractScoreSpec(text: string)
    ensures ExtractScore(text).None? <==> forall i: nat :: i < |text| ==> !MatchAt(text, i)
    ensures forall i: nat :: LeftmostMatch(text, i) ==> ExtractScore(text) == Some(DecimalValue(CapturedAt(text, i)))
  {
    match FindMatch(text, 0)
    case None =>
    case Some(i) => LeftmostMatchUnique(text, i);
  }

  /** There is at most one leftmost match. */
  lemma LeftmostMatchUnique(s: string, i: nat)
    requires LeftmostMatch(s, i)
    ensures forall j: nat :: LeftmostMatch(s, j) ==> j == i
  {
  }

  /** A label is absent wherever one of its characters differs. */
  lemma NotLabelAt(s: string, i: nat, lit: string, k: nat)
    requires k < |lit| && i + k < |s| && s[i + k] != lit[k]
    ensures !LabelAt(s, i, lit)
  {
    if i + |lit| < |s| {
      assert s[i..i + |lit|][k] == s[i + k];
    }
  }

  /** No match starts at a character other than 's' or 'S'. */
  lemma MatchNeedsLetterS(s: string, i: nat)
    requires i < |s| && s[i] != 's' && s[i] != 'S'
    ensures !MatchAt(s, i)
  {
    NotLabelAt(s, i, LongLabel, 0);
    NotLabelAt(s, i, ShortLabel, 0);
  }

  /** No match starts in a stretch of text without 's' or 'S'. */
  lemma NoMatchWithoutS(s: string, lo: nat, hi: nat)
    requires lo <= hi <= |s|
    requires forall k :: lo <= k < hi ==> s[k] != 's' && s[k] != 'S'
    ensures forall k: nat :: lo <= k < hi ==> !MatchAt(s, k)
  {
    forall k: nat | lo <= k < hi
      ensures !MatchAt(s, k)
    {
      MatchNeedsLetterS(s, k);
    }
  }

  /** A text with neither 's' nor 'S' yields no score. */
  lemma NoLetterSNoScore(s: string)
    requires forall k :: 0 <= k < |s| ==> s[k] != 's' && s[k] != 'S'
    ensures ExtractScore(s) == None
  {
    NoMatchWithoutS(s, 0, |s|);
  }

  lemma DecimalValueSnoc(ds: string, c: char)
    requires AllDigits(ds) && IsDigit(c)
    ensures AllDigits(ds + [c])
    ensures DecimalValue(ds + [c]) == DecimalValue(ds) * 10 + DigitValue(c)
  {
    assert (ds + [c])[..|ds|] == ds;
  }

  /** Reading back the numeral of `n` gives `n`. */
  lemma {:induction false} DecimalRoundTrip(n: nat)
    ensures DecimalValue(DecimalString(n)) == n
  {
    if n >= 10 {
      DecimalRoundTrip(n / 10);
      DecimalValueSnoc(DecimalString(n / 10), DigitChar(n % 10));
    }
  }

  /** A digit run is exactly the digits `ds` when `ds` sits at `j` and is not followed by a digit. */
  lemma {:induction false} DigitRunIs(s: string, j: nat, ds: string)
    requires j + |ds| <= |s| && s[j..j + |ds|] == ds && AllDigits(ds)
    requires j + |ds| == |s| || !IsDigit(s[j + |ds|])
    ensures DigitRun(s, j) == |ds|
    decreases |ds|
  {
    if |ds| > 0 {
      assert s[j] == ds[0];
      assert s[j + 1..j + |ds|] == ds[1..];
      DigitRunIs(s, j + 1, ds[1..]);
    }
  }

  /** A label followed by the digits `ds` (and then a non-digit or the end) matches, capturing `ds`. */
  lemma MatchOfLabel(s: string, i: nat, lit: string, ds: string)
    requires lit == LongLabel || lit == ShortLabel
    requires |ds| > 0 && AllDigits(ds)
    requires i + |lit| + |ds| <= |s|
    requires s[i..i + |lit|] == lit && s[i + |lit|..i + |lit| + |ds|] == ds
    requires i + |lit| + |ds| == |s| || !IsDigit(s[i + |lit| + |ds|])
    ensures MatchAt(s, i) && CapturedAt(s, i) == ds
  {
    var j := i + |lit|;
    assert s[j] == s[j..j + |ds|][0];
    assert LabelAt(s, i, lit);
    DigitRunIs(s, j, ds);
    if lit == ShortLabel {
      assert s[i] == s[i..j][0];
      NotLabelAt(s, i, LongLabel, 0);
    }
  }

  /**
   After text with no 's' or 'S', a label followed by the numeral of `n` (and then
   a non-digit or the end) is read back as `n`.
   */
  lemma LabelRoundTrip(prefix: string, lit: string, n: nat, rest: string)
    requires forall k :: 0 <= k < |prefix| ==> prefix[k] != 's' && prefix[k] != 'S'
    requires lit == LongLabel || lit == ShortLabel
    requires |rest| == 0 || !IsDigit(rest[0])
    ensures ExtractScore(prefix + lit + DecimalString(n) + rest) == Some(n)
  {
    var ds := DecimalString(n);
    var s := prefix + lit + ds + rest;
    var i := |prefix|;
    var j := i + |lit|;
    assert forall k :: 0 <= k < i ==> s[k] == prefix[k];
    NoMatchWithoutS(s, 0, i);
    assert s[i..j] == lit;
    assert s[j..j + |ds|] == ds;
    if |rest| > 0 {
      assert s[j + |ds|] == rest[0];
    }
    MatchOfLabel(s, i, lit, ds);
    assert LeftmostMatch(s, i);
    ExtractScoreSpec(s);
    DecimalRoundTrip(n);
  }

  /** "score out of 100: 87" gives 87. */
  lemma ExampleLongLabel()
    ensures ExtractScore("score out of 100: 87") == Some(87)
  {
    assert DecimalString(87) == "87";
    assert "" + LongLabel + "87" + "" == "score out of 100: 87";
    LabelRoundTrip("", LongLabel, 87, "");
  }

  /** "Score: 42" gives 42. */
  lemma ExampleShortLabel()
    ensures ExtractScore("Score: 42") == Some(42)
  {
    assert DecimalString(42) == "42";
    assert "" + ShortLabel + "42" + "" == "Score: 42";
    LabelRoundTrip("", ShortLabel, 42, "");
  }

  /** No range check: "Score: 150" gives 150. */
  lemma ExampleAboveHundred()
    ensures ExtractScore("Score: 150") == Some(150)
  {
    assert DecimalString(150) == DecimalString(15) + "0";
    assert DecimalString(150) == "150";
    assert "" + ShortLabel + "150" + "" == "Score: 150";
    LabelRoundTrip("", ShortLabel, 150, "");
  }

  /** "no number here" gives no score. */
  lemma ExampleNoScore()
    ensures ExtractScore("no number here") == None
  {
    NoLetterSNoScore("no number here");
  }

  /** Case matters: "Score out of 100: 87" matches neither alternative. */
  lemma ExampleWrongCase()
    ensures ExtractScore("Score out of 100: 87") == None
  {
    var s := "Score out of 100: 87";
    NotLabelAt(s, 0, LongLabel, 0);
    NotLabelAt(s, 0, ShortLabel, 5);
    NoMatchWithoutS(s, 1, |s|);
  }

  /** Spacing matters: two spaces after the colon give no score. */
  lemma ExampleTwoSpaces()
    ensures ExtractScore("Score:  42") == None
  {
    var s := "Score:  42";
    NotLabelAt(s, 0, LongLabel, 0);
    assert !IsDigit(s[|ShortLabel|]);
    NoMatchWithoutS(s, 1, |s|);
  }
}
