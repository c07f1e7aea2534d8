/** The per-row metrics of the dashboard's course table: Bayesian shrinkage of
    the popularity and quality scores toward the dataset mean, the confidence
    tier, engagement per subscriber and the suspicion flag
    (recommendation_system.py, `calculate_bayesian_average`,
    `calculate_confidence_level`, `enhance_dataframe`). Scores are exact reals. */
module Scoring {
  import opened Sequences

  /** The shrinkage constant `m` (`min_reviews=10` in `enhance_dataframe`). */
  const PriorWeight: nat := 10

  /** Suspicion thresholds: a review rate this high ... */
  const SuspiciousRate: real := 0.99
  /** ... on fewer subscribers than this. */
  const SuspiciousSubscribers: nat := 50

  /** One row of the course table as loaded from the database. A missing
      `quality_score` cell is `None`. */
  datatype Course = Course(
    courseId: int,
    title: string,
    subject: string,
    price: real,
    numSubscribers: nat,
    numReviews: nat,
    reviewRate: real,
    popularityScore: real,
    qualityScore: Option<real>)

  datatype Confidence = High | Medium | Low | VeryLow

  /** A row with the columns `enhance_dataframe` adds. */
  datatype EnrichedCourse = EnrichedCourse(
    course: Course,
    bayesianPopularity: real,
    bayesianQuality: Option<real>,
    confidence: Confidence,
    engagementPerSubscriber: real,
    isSuspicious: bool)

  function Min(a: real, b: real): real { if a <= b then a else b }
  function Max(a: real, b: real): real { if a <= b then b else a }

  /** `raw` shrunk toward `prior`: `(v/(v+m))*R + (m/(v+m))*C`. */
  function BayesianAverage(raw: real, count: nat, priorWeight: nat, prior: real): (r: real)
    requires count + priorWeight > 0
  {
    var n := (count + priorWeight) as real;
    (count as real / n) * raw + (priorWeight as real / n) * prior
  }

  /** The adjusted score is `raw` moved toward `prior` by the fraction
      `m/(v+m)` of the distance between them. */
  lemma BayesianAsShift(raw: real, count: nat, priorWeight: nat, prior: real)
    requires count + priorWeight > 0
    ensures BayesianAverage(raw, count, priorWeight, prior)
         == raw + (priorWeight as real / (count + priorWeight) as real) * (prior - raw)
  {
    var n := (count + priorWeight) as real;
    var v, m := count as real, priorWeight as real;
    calc {
      BayesianAverage(raw, count, priorWeight, prior);
      (v / n) * raw + (m / n) * prior;
      { FractionsSum(v, m, n); }
      (1.0 - m / n) * raw + (m / n) * prior;
      raw + (m / n) * (prior - raw);
    }
  }

  /** The two weights of the average add up to one. */
  lemma FractionsSum(v: real, m: real, n: real)
    requires n > 0.0 && v + m == n
    ensures v / n == 1.0 - m / n
  {
    var inv := 1.0 / n;
    assert v / n == v * inv && m / n == m * inv && n * inv == 1.0;
    assert v * inv == (n - m) * inv == n * inv - m * inv;
  }

  /** The adjusted score lies between the raw score and the prior, inclusive. */
  lemma BayesianBetween(raw: real, count: nat, priorWeight: nat, prior: real)
    requires count + priorWeight > 0
    ensures Min(raw, prior) <= BayesianAverage(raw, count, priorWeight, prior) <= Max(raw, prior)
  {
    BayesianAsShift(raw, count, priorWeight, prior);
    var n := (count + priorWeight) as real;
    var w := priorWeight as real / n;
    assert 0.0 <= w <= 1.0 by {
      assert priorWeight as real <= n;
      assert w * n == priorWeight as real;
    }
    ScaleWithin(w, prior - raw);
  }

  /** A fraction of a distance lies between zero and the distance. */
  lemma ScaleWithin(w: real, d: real)
    requires 0.0 <= w <= 1.0
    ensures d >= 0.0 ==> 0.0 <= w * d <= d
    ensures d <= 0.0 ==> d <= w * d <= 0.0
  {
    assert d - w * d == (1.0 - w) * d;
  }

  /** With no reviews the adjusted score is the prior; with no prior weight it is the raw score. */
  lemma BayesianExtremes(raw: real, count: nat, priorWeight: nat, prior: real)
    requires count + priorWeight > 0
    ensures count == 0 ==> BayesianAverage(raw, count, priorWeight, prior) == prior
    ensures priorWeight == 0 ==> BayesianAverage(raw, count, priorWeight, prior) == raw
  {
    BayesianAsShift(raw, count, priorWeight, prior);
  }

  /** More reviews never move the adjusted score away from the raw score. */
  lemma BayesianMonotone(raw: real, fewer: nat, more: nat, priorWeight: nat, prior: real)
    requires 0 < fewer + priorWeight && fewer <= more
    ensures raw <= prior ==>
      raw <= BayesianAverage(raw, more, priorWeight, prior) <= BayesianAverage(raw, fewer, priorWeight, prior)
    ensures prior <= raw ==>
      BayesianAverage(raw, fewer, priorWeight, prior) <= BayesianAverage(raw, more, priorWeight, prior) <= raw
  {
    BayesianAsShift(raw, fewer, priorWeight, prior);
    BayesianAsShift(raw, more, priorWeight, prior);
    var m := priorWeight as real;
    var wFew := m / (fewer + priorWeight) as real;
    var wMore := m / (more + priorWeight) as real;
    assert 0.0 <= wMore <= wFew by {
      assert (fewer + priorWeight) as real <= (more + priorWeight) as real;
    }
    if raw <= prior {
      assert 0.0 <= wMore * (prior - raw) <= wFew * (prior - raw);
    } else {
      assert wFew * (prior - raw) <= wMore * (prior - raw) <= 0.0;
    }
  }

  /** The tier of a review count: 100 and up, 20 to 99, 5 to 19, below 5. */
  function ConfidenceLevel(numReviews: int): (c: Confidence)
    ensures c == High <==> numReviews >= 100
    ensures c == Medium <==> 20 <= numReviews < 100
    ensures c == Low <==> 5 <= numReviews < 20
    ensures c == VeryLow <==> numReviews < 5
  {
    if numReviews >= 100 then High
    else if numReviews >= 20 then Medium
    else if numReviews >= 5 then Low
    else VeryLow
  }

  /** Reviews per subscriber, 0 for a course without subscribers. */
  function EngagementPerSubscriber(numReviews: nat, numSubscribers: nat): (r: real)
    ensures numSubscribers > 0 ==> r * numSubscribers as real == numReviews as real
    ensures numSubscribers == 0 ==> r == 0.0
    ensures r >= 0.0
  {
    if numSubscribers > 0 then numReviews as real / numSubscribers as real else 0.0
  }

  /** A near-certain review rate on a small audience. */
  predicate IsSuspicious(reviewRate: real, numSubscribers: nat) {
    reviewRate >= SuspiciousRate && numSubscribers < SuspiciousSubscribers
  }

  function Sum(xs: seq<real>): real {
    if xs == [] then 0.0 else xs[0] + Sum(xs[1..])
  }

  /** pandas' `Series.mean()` of a non-empty column. */
  function Mean(xs: seq<real>): real
    requires |xs| > 0
  {
    Sum(xs) / |xs| as real
  }

  lemma {:induction false} SumBounds(xs: seq<real>, lo: real, hi: real)
    requires forall i :: 0 <= i < |xs| ==> lo <= xs[i] <= hi
    ensures |xs| as real * lo <= Sum(xs) <= |xs| as real * hi
  {
    if xs != [] {
      SumBounds(xs[1..], lo, hi);
    }
  }

  /** A mean lies within any bounds that hold for all of its values. */
  lemma MeanBounds(xs: seq<real>, lo: real, hi: real)
    requires |xs| > 0
    requires forall i :: 0 <= i < |xs| ==> lo <= xs[i] <= hi
    ensures lo <= Mean(xs) <= hi
  {
    SumBounds(xs, lo, hi);
    var n := |xs| as real;
    assert n * lo <= Sum(xs) <= n * hi;
    assert lo == (n * lo) / n && hi == (n * hi) / n;
  }

  function PopularityColumn(rows: seq<Course>): (col: seq<real>)
    ensures |col| == |rows| && forall i :: 0 <= i < |rows| ==> col[i] == rows[i].popularityScore
  {
    seq(|rows|, i requires 0 <= i < |rows| => rows[i].popularityScore)
  }

  /** The present `quality_score` cells, in row order (pandas skips NaN). */
  function QualityValues(rows: seq<Course>): (vals: seq<real>)
    ensures forall q :: q in vals <==> exists i :: 0 <= i < |rows| && rows[i].qualityScore == Some(q)
  {
    if rows == [] then []
    else
      var rest := QualityValues(rows[1..]);
      assert forall i :: 1 <= i < |rows| ==> rows[i] == rows[1..][i - 1];
      match rows[0].qualityScore
      case Some(q) => [q] + rest
      case None => rest
  }

  /** The quality values are gathered row by row in row order: those of a
      concatenation are those of each part, in turn, and a single row gives
      its quality score if it has one and nothing otherwise. Together these
      fix `QualityValues` on every input, repeats and order included. */
  lemma {:induction false} QualityValuesConcat(a: seq<Course>, b: seq<Course>)
    ensures QualityValues(a + b) == QualityValues(a) + QualityValues(b)
    decreases |a|
  {
    if a == [] {
      assert a + b == b;
    } else {
      assert (a + b)[0] == a[0] && (a + b)[1..] == a[1..] + b;
      QualityValuesConcat(a[1..], b);
    }
  }

  lemma QualityValuesOne(c: Course)
    ensures QualityValues([c]) == if c.qualityScore.Some? then [c.qualityScore.value] else []
  {
    assert [c][1..] == [];
  }

  /** The derived columns of one row, given the dataset means `C` of the
      popularity and quality columns. */
  function EnrichRow(c: Course, popularityMean: real, qualityMean: real): (e: EnrichedCourse)
    ensures e.course == c
    ensures e.bayesianPopularity == BayesianAverage(c.popularityScore, c.numReviews, PriorWeight, popularityMean)
    ensures c.qualityScore.Some? ==>
      e.bayesianQuality == Some(BayesianAverage(c.qualityScore.value, c.numReviews, PriorWeight, qualityMean))
    ensures Min(c.popularityScore, popularityMean) <= e.bayesianPopularity <= Max(c.popularityScore, popularityMean)
    ensures e.bayesianQuality.Some? <==> c.qualityScore.Some?
    ensures c.qualityScore.Some? ==>
      Min(c.qualityScore.value, qualityMean) <= e.bayesianQuality.value <= Max(c.qualityScore.value, qualityMean)
    ensures c.numReviews == 0 ==> e.bayesianPopularity == popularityMean
    ensures e.confidence == ConfidenceLevel(c.numReviews)
    ensures e.isSuspicious <==> c.reviewRate >= 0.99 && c.numSubscribers < 50
    ensures c.numSubscribers == 0 ==> e.engagementPerSubscriber == 0.0
    ensures c.numSubscribers > 0 ==> e.engagementPerSubscriber == c.numReviews as real / c.numSubscribers as real
  {
    BayesianBetween(c.popularityScore, c.numReviews, PriorWeight, popularityMean);
    BayesianExtremes(c.popularityScore, c.numReviews, PriorWeight, popularityMean);
    var quality := (match c.qualityScore
      case Some(q) =>
        BayesianBetween(q, c.numReviews, PriorWeight, qualityMean);
        Some(BayesianAverage(q, c.numReviews, PriorWeight, qualityMean))
      case None => None);
    EnrichedCourse(
      c,
      BayesianAverage(c.popularityScore, c.numReviews, PriorWeight, popularityMean),
      quality,
      ConfidenceLevel(c.numReviews),
      EngagementPerSubscriber(c.numReviews, c.numSubscribers),
      IsSuspicious(c.reviewRate, c.numSubscribers))
  }

  /** `enhance_dataframe`: a copy of the table with the derived columns filled
      in row by row. The popularity prior is the mean over all rows, the quality
      prior the mean over the rows that have a quality score. An empty table
      stays empty. */
  method EnhanceDataframe(rows: seq<Course>) returns (out: seq<EnrichedCourse>)
    ensures |out| == |rows|
    ensures rows != [] ==> forall i :: 0 <= i < |rows| ==>
      out[i] == EnrichRow(rows[i], Mean(PopularityColumn(rows)),
                          if QualityValues(rows) == [] then 0.0 else Mean(QualityValues(rows)))
    ensures forall i :: 0 <= i < |rows| ==> out[i].course == rows[i]
  {
    out := [];
    if rows == [] {
      return;
    }
    var popularityMean := Mean(PopularityColumn(rows));
    var qualities := QualityValues(rows);
    var qualityMean := if qualities == [] then 0.0 else Mean(qualities);
    for i := 0 to |rows|
      invariant |out| == i
      invariant forall k :: 0 <= k < i ==> out[k] == EnrichRow(rows[k], popularityMean, qualityMean)
    {
      out := out + [EnrichRow(rows[i], popularityMean, qualityMean)];
    }
  }

  /** Every adjusted popularity lies within the range of the raw popularity
      column: shrinking toward the column mean never leaves [min, max]. */
  lemma EnhancedPopularityInRange(rows: seq<Course>, qualityMean: real, lo: real, hi: real)
    requires rows != []
    requires forall i :: 0 <= i < |rows| ==> lo <= rows[i].popularityScore <= hi
    ensures forall i :: 0 <= i < |rows| ==>
      lo <= EnrichRow(rows[i], Mean(PopularityColumn(rows)), qualityMean).bayesianPopularity <= hi
  {
    MeanBounds(PopularityColumn(rows), lo, hi);
  }
}
