/**
 * `analyze_sentiment`: the polarity of the translated text, computed by a
 * lexicon analyser outside this model, and the three-way sign rule that
 * turns it into a label.
 */
module Sentiment {
  /** The three labels, in the insertion order of the `sentiment_counts` dictionary. */
  datatype Label = Positive | Negative | Neutral

  /** The sign rule, exact at zero: positive above, negative below, neutral at exactly zero. */
  function Classify(polarity: real): (l: Label)
    ensures l == Positive <==> polarity > 0.0
    ensures l == Negative <==> polarity < 0.0
    ensures l == Neutral <==> polarity == 0.0
  {
    if polarity > 0.0 then Positive
    else if polarity < 0.0 then Negative
    else Neutral
  }

  /** The label of the opposite sign. */
  function Opposite(l: Label): Label {
    match l
    case Positive => Negative
    case Negative => Positive
    case Neutral => Neutral
  }

  /** Negating the polarity swaps positive and negative and keeps neutral. */
  lemma ClassifyNegated(polarity: real)
    ensures Classify(-polarity) == Opposite(Classify(polarity))
  {
  }

  /** A larger polarity never gets a label further towards negative. */
  lemma ClassifyMonotone(p: real, q: real)
    requires p <= q
    ensures Classify(p) == Positive ==> Classify(q) == Positive
    ensures Classify(q) == Negative ==> Classify(p) == Negative
  {
  }

  /** The dictionary `analyze_sentiment` returns. */
  datatype Analysis = Analysis(sentiment: Label, polarity: real)

  /** `analyze_sentiment`: the analyser's polarity, returned unchanged, with its label. */
  function AnalyzeSentiment(polarity: string -> real, text: string): (a: Analysis)
    ensures a.polarity == polarity(text)
    ensures a.sentiment == Positive <==> polarity(text) > 0.0
    ensures a.sentiment == Negative <==> polarity(text) < 0.0
    ensures a.sentiment == Neutral <==> polarity(text) == 0.0
  {
    var p := polarity(text);
    Analysis(Classify(p), p)
  }
}
