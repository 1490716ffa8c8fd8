/** The sentiment view: the score on a 0..100 bar, a label and a colour
    picked by the thresholds 0.33 and -0.33, and the badge class derived
    from the colour. Scores are real numbers. */
module SentimentAnalysis {
  import opened JsString
  import opened Tables
  import opened Analysis

  const PositiveThreshold: real := 0.33
  const NegativeThreshold: real := -0.33

  /** `((score + 1) / 2) * 100`: the score moved from [-1, 1] to [0, 100]. */
  function NormalizedScore(score: real): (r: real)
    ensures -1.0 <= score <= 1.0 ==> 0.0 <= r <= 100.0
  {
    ((score + 1.0) / 2.0) * 100.0
  }

  /** The ends and the middle of the scale, and the order kept. */
  lemma NormalizedScoreScale(s: real, t: real)
    ensures NormalizedScore(-1.0) == 0.0 && NormalizedScore(0.0) == 50.0 && NormalizedScore(1.0) == 100.0
    ensures s <= t ==> NormalizedScore(s) <= NormalizedScore(t)
    ensures s < t ==> NormalizedScore(s) < NormalizedScore(t)
  {
  }

  /** The analyser's scores lie in [-1, 1), so the bar lies in [0, 100). */
  lemma MockScoreOnBar(u: UnitReal)
    ensures 0.0 <= NormalizedScore(MockScore(u)) < 100.0
  {
    NormalizedScoreScale(MockScore(u), 1.0);
  }

  /** `getSentimentLabel()`: exactly one label applies, each on its own range
      of scores. */
  function SentimentLabel(score: real): (r: string)
    ensures r == "Positive" <==> score > 0.33
    ensures r == "Negative" <==> score < -0.33
    ensures r == "Neutral" <==> -0.33 <= score <= 0.33
  {
    if score > PositiveThreshold then "Positive"
    else if score < NegativeThreshold then "Negative"
    else "Neutral"
  }

  /** `getSentimentColor()`: green, red or yellow as the label is Positive,
      Negative or Neutral. */
  function SentimentColor(score: real): (r: string)
    ensures r == "bg-green-500" <==> SentimentLabel(score) == "Positive"
    ensures r == "bg-red-500" <==> SentimentLabel(score) == "Negative"
    ensures r == "bg-yellow-500" <==> SentimentLabel(score) == "Neutral"
  {
    if score > PositiveThreshold then "bg-green-500"
    else if score < NegativeThreshold then "bg-red-500"
    else "bg-yellow-500"
  }

  /** `getSentimentColor().replace('bg-', 'bg-opacity-80 bg-')` */
  function BadgeClass(score: real): string {
    ReplaceFirst(SentimentColor(score), "bg-", "bg-opacity-80 bg-")
  }

  /** The badge class is the colour with `bg-opacity-80 ` in front. */
  lemma BadgeClassIsOpaqueColor(score: real)
    ensures BadgeClass(score) == "bg-opacity-80 " + SentimentColor(score)
  {
    var c := SentimentColor(score);
    assert IsPrefix("bg-", c);
    assert "bg-opacity-80 bg-" == "bg-opacity-80 " + "bg-";
    ReplacePrefixBefore(c, "bg-", "bg-opacity-80 ");
  }
}
