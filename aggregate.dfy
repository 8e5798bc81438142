/**
 * The label counts `run_analysis` keeps, and the closing summary: the
 * dominant label by `max(sentiment_counts, key=sentiment_counts.get)` and
 * its share of all counted rows.
 */
module Aggregate {
  import opened Sentiment

  /** The `sentiment_counts` dictionary has all three labels as keys. */
  predicate Complete(counts: map<Label, nat>) {
    forall l: Label :: l in counts
  }

  /** The dictionary as `run_analysis` creates it: every label at zero. */
  function Zero(): (counts: map<Label, nat>)
    ensures Complete(counts)
    ensures forall l :: counts[l] == 0
  {
    var counts := map[Positive := 0, Negative := 0, Neutral := 0];
    ZeroLookup(counts);
    counts
  }

  /** The literal dictionary has every label, each at zero. */
  lemma ZeroLookup(counts: map<Label, nat>)
    requires counts == map[Positive := 0, Negative := 0, Neutral := 0]
    ensures forall l :: l in counts && counts[l] == 0
  {
    forall l ensures l in counts && counts[l] == 0 {
      match l
      case Positive =>
      case Negative =>
      case Neutral =>
    }
  }

  /** `sum(sentiment_counts.values())`. */
  function Total(counts: map<Label, nat>): nat
    requires Complete(counts)
  {
    counts[Positive] + counts[Negative] + counts[Neutral]
  }

  /** Where a label sits in the dictionary's insertion order. */
  function Rank(l: Label): nat {
    match l
    case Positive => 0
    case Negative => 1
    case Neutral => 2
  }

  /**
   * `max(sentiment_counts, key=sentiment_counts.get)`: keys are visited in
   * insertion order and a later key replaces the best so far only when its
   * count is strictly larger, so the result is the first maximum.
   */
  function MostCommon(counts: map<Label, nat>): (l: Label)
    requires Complete(counts)
    ensures forall m :: counts[m] <= counts[l]
    ensures forall m :: Rank(m) < Rank(l) ==> counts[m] < counts[l]
  {
    var best := if counts[Negative] > counts[Positive] then Negative else Positive;
    var l := if counts[Neutral] > counts[best] then Neutral else best;
    AtLeastEvery(counts, l);
    l
  }

  /** A count at least each of the three is at least every count. */
  lemma AtLeastEvery(counts: map<Label, nat>, l: Label)
    requires Complete(counts)
    requires counts[Positive] <= counts[l] && counts[Negative] <= counts[l] && counts[Neutral] <= counts[l]
    ensures forall m :: counts[m] <= counts[l]
  {
    forall m ensures counts[m] <= counts[l] {
      match m
      case Positive =>
      case Negative =>
      case Neutral =>
    }
  }

  /** A tie between the top labels goes to the one inserted first. */
  lemma TiesGoToEarlierLabel(counts: map<Label, nat>, a: Label, b: Label)
    requires Complete(counts) && Rank(a) < Rank(b) && counts[a] == counts[b]
    requires forall m :: counts[m] <= counts[a]
    ensures MostCommon(counts) != b
  {
  }

  /** The closing summary: a division by zero when nothing was counted, otherwise the dominant label and its percentage. */
  datatype Summary = ZeroDivision | Overall(dominant: Label, percentage: real)

  /**
   * The dominant label and `counts[label] / sum(counts) * 100`. With no
   * counted row the division raises, which is `ZeroDivision`.
   */
  function Summarize(counts: map<Label, nat>): (s: Summary)
    requires Complete(counts)
    ensures s.ZeroDivision? <==> Total(counts) == 0
    ensures s.Overall? ==> s.dominant == MostCommon(counts)
    ensures s.Overall? ==> s.percentage * Total(counts) as real == counts[s.dominant] as real * 100.0
    ensures s.Overall? ==> 100.0 / 3.0 <= s.percentage <= 100.0
  {
    var t := Total(counts);
    if t == 0 then ZeroDivision
    else
      var l := MostCommon(counts);
      TopShare(counts);
      ShareBounds(counts[l], t);
      Overall(l, counts[l] as real / t as real * 100.0)
  }

  /** The most common count is at most the total and at least a third of it. */
  lemma TopShare(counts: map<Label, nat>)
    requires Complete(counts)
    ensures var top := counts[MostCommon(counts)];
      top <= Total(counts) <= 3 * top
  {
    var l := MostCommon(counts);
    assert counts[Positive] <= counts[l] && counts[Negative] <= counts[l] && counts[Neutral] <= counts[l];
    assert counts[l] == counts[Positive] || counts[l] == counts[Negative] || counts[l] == counts[Neutral];
  }

  /** The largest of three counts is at least a third of their sum and at most all of it. */
  lemma ShareBounds(top: nat, total: nat)
    requires 0 < total <= 3 * top && top <= total
    ensures 100.0 / 3.0 <= top as real / total as real * 100.0 <= 100.0
    ensures top as real / total as real * 100.0 * total as real == top as real * 100.0
  {
    var p, t := top as real, total as real;
    var inv := 1.0 / t;
    assert inv > 0.0;
    assert t * inv == 1.0;
    assert p / t == p * inv;
    MulNonNegative(t - p, inv);
    assert (t - p) * inv == t * inv - p * inv;
    MulNonNegative(3.0 * p - t, inv);
    assert (3.0 * p - t) * inv == 3.0 * (p * inv) - t * inv;
    assert p * inv * 100.0 * t == p * (t * inv) * 100.0;
  }

  /** A product of non-negative reals is non-negative. */
  lemma MulNonNegative(x: real, y: real)
    requires x >= 0.0 && y >= 0.0
    ensures x * y >= 0.0
  {
  }
}
