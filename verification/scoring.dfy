/** The reverence score (app.js:95-115): four clamped signals and the community-note
    average, weighted by the user's sliders, scaled to a whole number of percent. */
module Scoring {
  import opened Parishes

  /** The domain ceilings that map each raw signal onto [0, 1]. */
  const ConfessionCeiling: real := 10.0
  const AdorationCeiling: real := 40.0
  const ReviewCeiling: real := 5.0
  const ImageCeiling: real := 5.0
  const RatingCeiling: real := 5.0

  /** The fixed weight of the community-note component. */
  const CrowdWeight: real := 2.0

  /** `Math.min(value / max, 1)`: the share of the ceiling reached, capped at 1. */
  function Normalize(value: real, max: real): (r: real)
    requires max > 0.0
    ensures r <= 1.0
    ensures value <= max ==> r == value / max
    ensures value >= max ==> r == 1.0
    ensures value >= 0.0 ==> r >= 0.0
  {
    if value / max < 1.0 then value / max else 1.0
  }

  /** The `reduce` over the ratings: their sum. */
  function SumRatings(notes: seq<Note>): (total: real)
    ensures NonNegativeRatings(notes) ==> total >= 0.0
    ensures ValidRatings(notes) ==> |notes| as real <= total <= RatingCeiling * |notes| as real
  {
    if |notes| == 0 then 0.0
    else
      var init := notes[..|notes| - 1];
      assert forall i :: 0 <= i < |init| ==> init[i] == notes[i];
      SumRatings(init) + notes[|notes| - 1].rating
  }

  /** The mean community rating, or 0 when there are no notes. */
  function CrowdAverage(notes: seq<Note>): (avg: real)
    ensures |notes| == 0 ==> avg == 0.0
    ensures NonNegativeRatings(notes) ==> avg >= 0.0
    ensures ValidRatings(notes) && |notes| > 0 ==> 1.0 <= avg <= RatingCeiling
  {
    if |notes| == 0 then 0.0
    else
      var n := |notes| as real;
      var total := SumRatings(notes);
      if ValidRatings(notes) then
        MeanBounds(total, n);
        total / n
      else
        total / n
  }

  /** A total between `n` and `RatingCeiling * n` has a mean between 1 and `RatingCeiling`. */
  lemma MeanBounds(total: real, n: real)
    requires n > 0.0 && n <= total <= RatingCeiling * n
    ensures 1.0 <= total / n <= RatingCeiling
  {
    var m := total / n;
    assert m * n == total;
    assert (m - 1.0) * n >= 0.0;
    assert (RatingCeiling - m) * n >= 0.0;
  }

  /** `Math.round`: the nearest integer, halves rounded up. */
  function Round(x: real): (n: int)
    ensures n as real - 0.5 <= x < n as real + 0.5
  {
    (x + 0.5).Floor
  }

  /** A signal's weighted share: `normalize(value, ceiling) * weight`. */
  function Component(value: real, ceiling: real, weight: real): (r: real)
    requires ceiling > 0.0
    ensures value >= 0.0 && weight >= 0.0 ==> 0.0 <= r <= weight
  {
    var share := Normalize(value, ceiling);
    assert value >= 0.0 && weight >= 0.0 ==> share * weight <= 1.0 * weight;
    share * weight
  }

  function ConfessionScore(p: Parish, w: Weights): real {
    Component(p.confessionHoursPerWeek, ConfessionCeiling, w.confessionWeight)
  }

  function AdorationScore(p: Parish, w: Weights): real {
    Component(p.adorationHoursPerWeek, AdorationCeiling, w.adorationWeight)
  }

  function ReviewScore(p: Parish, w: Weights): real {
    Component(p.onlineReviewScore, ReviewCeiling, w.reviewWeight)
  }

  /** The image signal reuses the review weight. */
  function ImageScore(p: Parish, w: Weights): real {
    Component(p.reverentImageSignals, ImageCeiling, w.reviewWeight)
  }

  /** The community-note component: the average rating over 5, with weight 2. */
  function CrowdScore(notes: seq<Note>): (r: real)
    ensures |notes| == 0 ==> r == 0.0
    ensures NonNegativeRatings(notes) ==> 0.0 <= r <= CrowdWeight
  {
    Component(CrowdAverage(notes), RatingCeiling, CrowdWeight)
  }

  function WeightedTotal(p: Parish, w: Weights): real {
    ConfessionScore(p, w) + AdorationScore(p, w) + ReviewScore(p, w) + ImageScore(p, w)
      + CrowdScore(p.communityNotes)
  }

  /** The largest weighted total possible: every weight once, the review weight twice
      (review and image signals), and the crowd weight. */
  function MaxPossible(w: Weights): (m: real)
    ensures NonNegativeWeights(w) ==> m >= CrowdWeight
  {
    w.confessionWeight + w.adorationWeight + w.reviewWeight + w.reviewWeight + CrowdWeight
  }

  /** `buildReverenceScore`. Only weights summing to -2 (where JavaScript divides by zero
      and yields NaN or an infinity) are excluded. With non-negative weights and signals
      the score is a percentage. */
  function ReverenceScore(p: Parish, w: Weights): (score: int)
    requires MaxPossible(w) != 0.0
    ensures NonNegativeWeights(w) && NonNegativeSignals(p) ==> 0 <= score <= 100
  {
    if NonNegativeWeights(w) && NonNegativeSignals(p) then
      PercentInRange(WeightedTotal(p, w), MaxPossible(w));
      Percent(WeightedTotal(p, w), MaxPossible(w))
    else
      Percent(WeightedTotal(p, w), MaxPossible(w))
  }

  /** `Math.round((total / max) * 100)`. */
  function Percent(total: real, max: real): int
    requires max != 0.0
  {
    Round(total / max * 100.0)
  }

  /** A total between 0 and the maximum is a percentage between 0 and 100. */
  lemma PercentInRange(total: real, max: real)
    requires max > 0.0 && 0.0 <= total <= max
    ensures 0 <= Percent(total, max) <= 100
  {
    var ratio := total / max;
    assert ratio * max == total;
    assert 0.0 <= ratio * 100.0 <= 100.0;
  }

  /** With non-negative signals and weights the score is a percentage: 0 to 100. */
  lemma ScoreInRange(p: Parish, w: Weights)
    requires NonNegativeWeights(w) && NonNegativeSignals(p)
    ensures MaxPossible(w) >= 2.0
    ensures 0 <= ReverenceScore(p, w) <= 100
  {
    PercentInRange(WeightedTotal(p, w), MaxPossible(w));
  }

  /** Signals past their ceiling add nothing: 1000 confession hours score like 10,
      and adoration past 40 hours, reviews past 5 and image signals past 5 likewise. */
  lemma CeilingsSaturate(p: Parish, w: Weights)
    requires MaxPossible(w) != 0.0
    ensures p.confessionHoursPerWeek >= ConfessionCeiling ==>
      ReverenceScore(p, w) == ReverenceScore(p.(confessionHoursPerWeek := ConfessionCeiling), w)
    ensures p.adorationHoursPerWeek >= AdorationCeiling ==>
      ReverenceScore(p, w) == ReverenceScore(p.(adorationHoursPerWeek := AdorationCeiling), w)
    ensures p.onlineReviewScore >= ReviewCeiling ==>
      ReverenceScore(p, w) == ReverenceScore(p.(onlineReviewScore := ReviewCeiling), w)
    ensures p.reverentImageSignals >= ImageCeiling ==>
      ReverenceScore(p, w) == ReverenceScore(p.(reverentImageSignals := ImageCeiling), w)
  {
    if p.confessionHoursPerWeek >= ConfessionCeiling {
      var q := p.(confessionHoursPerWeek := ConfessionCeiling);
      assert ConfessionScore(p, w) == ConfessionScore(q, w);
      assert WeightedTotal(p, w) == WeightedTotal(q, w);
    }
    if p.adorationHoursPerWeek >= AdorationCeiling {
      var q := p.(adorationHoursPerWeek := AdorationCeiling);
      assert AdorationScore(p, w) == AdorationScore(q, w);
      assert WeightedTotal(p, w) == WeightedTotal(q, w);
    }
    if p.onlineReviewScore >= ReviewCeiling {
      var q := p.(onlineReviewScore := ReviewCeiling);
      assert ReviewScore(p, w) == ReviewScore(q, w);
      assert WeightedTotal(p, w) == WeightedTotal(q, w);
    }
    if p.reverentImageSignals >= ImageCeiling {
      var q := p.(reverentImageSignals := ImageCeiling);
      assert ImageScore(p, w) == ImageScore(q, w);
      assert WeightedTotal(p, w) == WeightedTotal(q, w);
    }
  }

  /** `q` has every signal at least as strong as `p` and the same notes. */
  predicate Dominates(q: Parish, p: Parish) {
    && q.confessionHoursPerWeek >= p.confessionHoursPerWeek
    && q.adorationHoursPerWeek >= p.adorationHoursPerWeek
    && q.onlineReviewScore >= p.onlineReviewScore
    && q.reverentImageSignals >= p.reverentImageSignals
    && q.communityNotes == p.communityNotes
  }

  /** A component never shrinks when its signal grows. */
  lemma ComponentMonotone(a: real, b: real, ceiling: real, weight: real)
    requires ceiling > 0.0 && a <= b && weight >= 0.0
    ensures Component(a, ceiling, weight) <= Component(b, ceiling, weight)
  {
    NormalizeMonotone(a, b, ceiling);
    ScaleMonotone(Normalize(a, ceiling), Normalize(b, ceiling), weight);
  }

  /** The capped share never shrinks when the value grows. */
  lemma NormalizeMonotone(a: real, b: real, ceiling: real)
    requires ceiling > 0.0 && a <= b
    ensures Normalize(a, ceiling) <= Normalize(b, ceiling)
  {
    assert a / ceiling <= b / ceiling;
  }

  lemma ScaleMonotone(x: real, y: real, w: real)
    requires x <= y && w >= 0.0
    ensures x * w <= y * w
  {
    assert (y - x) * w >= 0.0;
  }

  lemma PercentMonotone(t1: real, t2: real, max: real)
    requires max > 0.0 && t1 <= t2
    ensures Percent(t1, max) <= Percent(t2, max)
  {
    assert t1 / max <= t2 / max;
    assert t1 / max * 100.0 <= t2 / max * 100.0;
  }

  /** Raising any signal never lowers the score when the weights are non-negative. */
  lemma ScoreMonotone(p: Parish, q: Parish, w: Weights)
    requires NonNegativeWeights(w) && Dominates(q, p)
    ensures ReverenceScore(p, w) <= ReverenceScore(q, w)
  {
    ComponentMonotone(p.confessionHoursPerWeek, q.confessionHoursPerWeek, ConfessionCeiling, w.confessionWeight);
    ComponentMonotone(p.adorationHoursPerWeek, q.adorationHoursPerWeek, AdorationCeiling, w.adorationWeight);
    ComponentMonotone(p.onlineReviewScore, q.onlineReviewScore, ReviewCeiling, w.reviewWeight);
    ComponentMonotone(p.reverentImageSignals, q.reverentImageSignals, ImageCeiling, w.reviewWeight);
    PercentMonotone(WeightedTotal(p, w), WeightedTotal(q, w), MaxPossible(w));
  }

  /** Weights 3, 2 and 2, the example weights. */
  function ExampleWeights(): Weights {
    Weights(3.0, 2.0, 2.0)
  }

  /** Under weights 3/2/2 the seed parish St. John Vianney (8 confession hours, 30
      adoration hours, review 4.6, 4 image signals, notes rated 5 and 4) has a weighted
      total of 9.14 of a possible 11: a score of 83. */
  lemma StJohnVianneyScore(p: Parish)
    requires p == StJohnVianney()
    ensures ReverenceScore(p, ExampleWeights()) == 83
  {
    assert SumRatings(p.communityNotes) == 9.0;
    assert WeightedTotal(p, ExampleWeights()) == 9.14;
  }

  /** Holy Trinity (4, 12, review 4.2, 3 image signals, one note rated 4): 6.28 of 11, 57. */
  lemma HolyTrinityScore(p: Parish)
    requires p == HolyTrinity()
    ensures ReverenceScore(p, ExampleWeights()) == 57
  {
    assert SumRatings(p.communityNotes) == 4.0;
    assert WeightedTotal(p, ExampleWeights()) == 6.28;
  }

  /** Our Lady of the Angels (2, 6, review 3.8, 2 image signals, one note rated 3): 4.42 of
      11, 40. */
  lemma OurLadyOfTheAngelsScore(p: Parish)
    requires p == OurLadyOfTheAngels()
    ensures ReverenceScore(p, ExampleWeights()) == 40
  {
    assert SumRatings(p.communityNotes) == 3.0;
    assert WeightedTotal(p, ExampleWeights()) == 4.42;
  }

  /** Without notes the crowd component is 0: a parish with St. John Vianney's signals
      but no notes has 7.34 of a possible 11 under weights 3/2/2, a score of 67. */
  lemma NoNotesExample(p: Parish)
    requires p.confessionHoursPerWeek == 8.0 && p.adorationHoursPerWeek == 30.0
    requires p.onlineReviewScore == 4.6 && p.reverentImageSignals == 4.0
    requires p.communityNotes == []
    ensures ReverenceScore(p, ExampleWeights()) == 67
  {
    assert WeightedTotal(p, ExampleWeights()) == 7.34;
  }
}
