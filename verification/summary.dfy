/**
 The summary split (`analysis.split("\n\n")[0]`, hrms_app.py): the summary is
 the text before the first blank-line separator, or the whole text when there is
 none.
 */
module SummarySplit {
  import opened Wrappers

  /** The separator `split` is called with: two line feeds. */
  const Separator: string := "\n\n"

  /** The separator occurs in `t` at position `k`. */
  predicate SeparatorAt(t: string, k: nat) {
    k + 1 < |t| && t[k] == Separator[0] && t[k + 1] == Separator[1]
  }

  /** The first separator position at or after `from`, if any. */
  function FindSeparator(t: string, from: nat): (r: Option<nat>)
    requires from <= |t|
    ensures r.Some? ==> from <= r.value && SeparatorAt(t, r.value)
    ensures r.Some? ==> forall k: nat :: from <= k < r.value ==> !SeparatorAt(t, k)
    ensures r.None? ==> forall k: nat :: from <= k ==> !SeparatorAt(t, k)
    decreases |t| - from
  {
    if from + |Separator| > |t| then None
    else if SeparatorAt(t, from) then Some(from)
    else FindSeparator(t, from + 1)
  }

  /**
   The first piece of `t.split("\n\n")`: a prefix of `t` with no separator
   starting inside it, which is either all of `t` or is followed by a separator.
   */
  function Summary(t: string): (r: string)
    ensures r <= t
    ensures forall k: nat :: k < |r| ==> !SeparatorAt(t, k)
    ensures r == t || SeparatorAt(t, |r|)
  {
    match FindSeparator(t, 0)
    case None => t
    case Some(k) => t[..k]
  }

  /** The three properties of `Summary` determine it: no other prefix has them. */
  lemma SummaryUnique(t: string, p: string)
    requires p <= t
    requires forall k: nat :: k < |p| ==> !SeparatorAt(t, k)
    requires p == t || SeparatorAt(t, |p|)
    ensures p == Summary(t)
  {
    assert |p| == |Summary(t)|;
  }

  /** The summary itself contains no separator. */
  lemma SummaryHasNoSeparator(t: string)
    ensures forall k: nat :: !SeparatorAt(Summary(t), k)
  {
    var r := Summary(t);
    forall k: nat
      ensures !SeparatorAt(r, k)
    {
      if k + 1 < |r| {
        assert !SeparatorAt(t, k);
        assert r[k] == t[k] && r[k + 1] == t[k + 1];
      }
    }
  }

  /** Either the text has no separator and is its own summary, or it is the summary, a separator and the rest. */
  lemma SummarySplitsText(t: string)
    ensures (forall k: nat :: !SeparatorAt(t, k)) <==> Summary(t) == t
    ensures Summary(t) != t ==>
      t == Summary(t) + Separator + t[|Summary(t)| + |Separator|..]
  {
    var r := Summary(t);
    if r != t {
      assert SeparatorAt(t, |r|);
      assert t == t[..|r|] + t[|r|..|r| + |Separator|] + t[|r| + |Separator|..];
    } else {
      forall k: nat | SeparatorAt(t, k)
        ensures false
      {
        SummaryHasNoSeparator(t);
      }
    }
  }

  /** Splitting is idempotent: the summary of a summary is itself. */
  lemma SummaryIdempotent(t: string)
    ensures Summary(Summary(t)) == Summary(t)
  {
    SummaryHasNoSeparator(t);
    SummarySplitsText(Summary(t));
  }

  /** A paragraph with no separator that does not end in a line feed, followed by a separator, is the summary. */
  lemma SummaryOfParagraphs(p: string, rest: string)
    requires forall k: nat :: !SeparatorAt(p, k)
    requires |p| == 0 || p[|p| - 1] != '\n'
    ensures Summary(p + Separator + rest) == p
  {
    var t := p + Separator + rest;
    forall k: nat | k < |p|
      ensures !SeparatorAt(t, k)
    {
      if k + 1 < |p| {
        assert !SeparatorAt(p, k);
        assert t[k] == p[k] && t[k + 1] == p[k + 1];
      } else {
        assert t[k] == p[k];
      }
    }
    assert t[|p|] == '\n' && t[|p| + 1] == '\n';
    SummaryUnique(t, p);
  }

  /** "First part.\n\nSecond part." has summary "First part.". */
  lemma ExampleTwoParagraphs()
    ensures Summary("First part.\n\nSecond part.") == "First part."
  {
    var p := "First part.";
    assert forall k :: 0 <= k < |p| ==> p[k] != '\n';
    assert forall k: nat :: !SeparatorAt(p, k);
    assert p + Separator + "Second part." == "First part.\n\nSecond part.";
    SummaryOfParagraphs(p, "Second part.");
  }

  /** "Only one paragraph" is its own summary. */
  lemma ExampleOneParagraph()
    ensures Summary("Only one paragraph") == "Only one paragraph"
  {
    var t := "Only one paragraph";
    assert forall k :: 0 <= k < |t| ==> t[k] != '\n';
    assert forall k: nat :: !SeparatorAt(t, k);
    SummarySplitsText(t);
  }
}
