/** The row-level rules of the import job (run_data_import.py): filling and
    dropping missing cells, the guarded ratio features, the weighted
    popularity and quality scores, the length and price categories, and
    de-duplication by course id. */
module DataImport {
  import opened Sequences

  /** A row of the CSV file. Missing cells are `None`. */
  datatype RawCourse = RawCourse(
    courseId: int,
    title: Option<string>,
    subject: Option<string>,
    price: Option<real>,
    numSubscribers: nat,
    numReviews: nat,
    numLectures: nat,
    contentDuration: real)

  /** A row that survived cleaning: it has a title, a subject and a price. */
  datatype Listing = Listing(
    courseId: int,
    title: string,
    subject: string,
    price: real,
    numSubscribers: nat,
    numReviews: nat,
    numLectures: nat,
    contentDuration: real)

  datatype LengthCategory = Short | Medium | Long

  datatype PriceCategory = Free | Budget | MidRange | Premium

  /** A cleaned row with the engineered columns. A score is `None` where
      pandas computes NaN (a column whose maximum is 0 gives 0/0). */
  datatype FeaturedCourse = FeaturedCourse(
    listing: Listing,
    reviewRate: real,
    avgLectureDuration: real,
    pricePerHour: real,
    popularityScore: Option<real>,
    qualityScore: Option<real>,
    lengthCategory: LengthCategory,
    priceCategory: PriceCategory)

  // ---------------------------------------------------------------------
  // Cleaning: `fillna(0)` on the price, `dropna` on title and subject.

  predicate IsComplete(r: RawCourse) {
    r.title.Some? && r.subject.Some?
  }

  function Fill(r: RawCourse): (l: Listing)
    requires IsComplete(r)
    ensures l.courseId == r.courseId && l.title == r.title.value && l.subject == r.subject.value
    ensures r.price.None? ==> l.price == 0.0
    ensures r.price.Some? ==> l.price == r.price.value
  {
    Listing(r.courseId, r.title.value, r.subject.value, r.price.GetOr(0.0),
            r.numSubscribers, r.numReviews, r.numLectures, r.contentDuration)
  }

  /** `l` is the filled version of a complete row of `raw`. */
  predicate FromComplete(raw: seq<RawCourse>, l: Listing) {
    exists i :: 0 <= i < |raw| && IsComplete(raw[i]) && l == Fill(raw[i])
  }

  lemma FromCompleteTail(raw: seq<RawCourse>, l: Listing)
    requires raw != [] && FromComplete(raw[1..], l)
    ensures FromComplete(raw, l)
  {
    var j :| 0 <= j < |raw[1..]| && IsComplete(raw[1..][j]) && l == Fill(raw[1..][j]);
    assert raw[j + 1] == raw[1..][j];
  }

  /** The complete rows, in order, with missing prices set to 0. */
  function CleanRows(raw: seq<RawCourse>): (rows: seq<Listing>)
    ensures |rows| <= |raw|
    ensures forall k :: 0 <= k < |rows| ==> FromComplete(raw, rows[k])
    ensures forall i :: 0 <= i < |raw| && IsComplete(raw[i]) ==> Fill(raw[i]) in rows
    decreases |raw|
  {
    if raw == [] then []
    else
      var rest := CleanRows(raw[1..]);
      assert forall i :: 1 <= i < |raw| ==> raw[i] == raw[1..][i - 1];
      assert forall k :: 0 <= k < |rest| ==> FromComplete(raw, rest[k]) by {
        forall k | 0 <= k < |rest| ensures FromComplete(raw, rest[k]) {
          FromCompleteTail(raw, rest[k]);
        }
      }
      if IsComplete(raw[0]) then
        var rows := [Fill(raw[0])] + rest;
        assert forall k :: 1 <= k < |rows| ==> rows[k] == rest[k - 1];
        assert FromComplete(raw, rows[0]) by {
          assert IsComplete(raw[0]) && rows[0] == Fill(raw[0]);
        }
        rows
      else rest
  }

  /** Cleaning works row by row and keeps the CSV order: the rows of a
      concatenation are the rows of each part, in turn, and a single row is
      kept (with its price filled) exactly when it is complete. Together
      these fix `CleanRows` on every input, repeats and order included. */
  lemma {:induction false} CleanRowsConcat(a: seq<RawCourse>, b: seq<RawCourse>)
    ensures CleanRows(a + b) == CleanRows(a) + CleanRows(b)
    decreases |a|
  {
    if a == [] {
      assert a + b == b;
    } else {
      assert (a + b)[0] == a[0] && (a + b)[1..] == a[1..] + b;
      CleanRowsConcat(a[1..], b);
    }
  }

  lemma CleanRowsOne(r: RawCourse)
    ensures CleanRows([r]) == if IsComplete(r) then [Fill(r)] else []
  {
    assert [r][1..] == [];
  }

  // ---------------------------------------------------------------------
  // Features.

  /** `(a / b).replace([inf, -inf], 0).fillna(0)`: the quotient, or 0 where
      the denominator is 0 (x/0 is ±inf and 0/0 is NaN in pandas). */
  function GuardedRatio(num: real, den: real): (r: real)
    ensures den != 0.0 ==> r * den == num
    ensures den == 0.0 ==> r == 0.0
    ensures num >= 0.0 && den >= 0.0 ==> r >= 0.0
  {
    if den == 0.0 then 0.0 else num / den
  }

  function ReviewRate(l: Listing): real {
    GuardedRatio(l.numReviews as real, l.numSubscribers as real)
  }

  /** The largest value of a column (0 for an empty one). */
  function ColumnMax(xs: seq<real>): (m: real)
    ensures forall i :: 0 <= i < |xs| ==> xs[i] <= m
    ensures xs != [] ==> m in xs
    ensures xs == [] ==> m == 0.0
  {
    if xs == [] then 0.0
    else if |xs| == 1 then xs[0]
    else
      var rest := ColumnMax(xs[1..]);
      assert forall i :: 1 <= i < |xs| ==> xs[i] == xs[1..][i - 1];
      if xs[0] >= rest then xs[0] else rest
  }

  /** The maxima of the three columns the scores divide by. */
  datatype ColumnMaxima = ColumnMaxima(subscribers: real, reviews: real, reviewRate: real)

  const PopularitySubscriberWeight: real := 0.4
  const PopularityReviewWeight: real := 0.3
  const PopularityRateWeight: real := 0.3
  const QualityReviewWeight: real := 0.5
  const QualityRateWeight: real := 0.5

  /** `0.4*subs/max + 0.3*reviews/max + 0.3*rate/max`. */
  function PopularityScore(subscribers: real, reviews: real, rate: real, maxima: ColumnMaxima): (r: Option<real>)
    ensures r.None? <==> maxima.subscribers == 0.0 || maxima.reviews == 0.0 || maxima.reviewRate == 0.0
  {
    if maxima.subscribers == 0.0 || maxima.reviews == 0.0 || maxima.reviewRate == 0.0 then None
    else Some(PopularitySubscriberWeight * (subscribers / maxima.subscribers)
              + PopularityReviewWeight * (reviews / maxima.reviews)
              + PopularityRateWeight * (rate / maxima.reviewRate))
  }

  /** `0.5*reviews/max + 0.5*rate/max`. */
  function QualityScore(reviews: real, rate: real, maxima: ColumnMaxima): (r: Option<real>)
    ensures r.None? <==> maxima.reviews == 0.0 || maxima.reviewRate == 0.0
  {
    if maxima.reviews == 0.0 || maxima.reviewRate == 0.0 then None
    else Some(QualityReviewWeight * (reviews / maxima.reviews) + QualityRateWeight * (rate / maxima.reviewRate))
  }

  /** Values shared by their column's maximum lie in [0, 1]. */
  predicate WithinMaximum(x: real, max: real) {
    0.0 <= x <= max
  }

  lemma ShareInUnitInterval(x: real, max: real)
    requires WithinMaximum(x, max) && max != 0.0
    ensures 0.0 <= x / max <= 1.0
  {
    assert x / max <= max / max;
  }

  /** Both scores lie in [0, 1] when every input lies between 0 and its
      column's maximum: the weights are non-negative and sum to 1. */
  lemma ScoresInUnitInterval(subscribers: real, reviews: real, rate: real, maxima: ColumnMaxima)
    requires WithinMaximum(subscribers, maxima.subscribers)
    requires WithinMaximum(reviews, maxima.reviews)
    requires WithinMaximum(rate, maxima.reviewRate)
    ensures PopularityScore(subscribers, reviews, rate, maxima).Some? ==>
      0.0 <= PopularityScore(subscribers, reviews, rate, maxima).value <= 1.0
    ensures QualityScore(reviews, rate, maxima).Some? ==>
      0.0 <= QualityScore(reviews, rate, maxima).value <= 1.0
  {
    if maxima.subscribers != 0.0 && maxima.reviews != 0.0 && maxima.reviewRate != 0.0 {
      ShareInUnitInterval(subscribers, maxima.subscribers);
      ShareInUnitInterval(reviews, maxima.reviews);
      ShareInUnitInterval(rate, maxima.reviewRate);
    } else if maxima.reviews != 0.0 && maxima.reviewRate != 0.0 {
      ShareInUnitInterval(reviews, maxima.reviews);
      ShareInUnitInterval(rate, maxima.reviewRate);
    }
  }

  /** `categorize_length`: under 2 hours is short, under 10 medium. */
  function CategorizeLength(duration: real): (c: LengthCategory)
    ensures c == Short <==> duration < 2.0
    ensures c == Medium <==> 2.0 <= duration < 10.0
    ensures c == Long <==> duration >= 10.0
  {
    if duration < 2.0 then Short
    else if duration < 10.0 then Medium
    else Long
  }

  /** `categorize_price`: 0 is free, under 50 budget (negative prices
      included), under 100 mid-range. */
  function CategorizePrice(price: real): (c: PriceCategory)
    ensures c == Free <==> price == 0.0
    ensures c == Budget <==> price != 0.0 && price < 50.0
    ensures c == MidRange <==> 50.0 <= price < 100.0
    ensures c == Premium <==> price >= 100.0
  {
    if price == 0.0 then Free
    else if price < 50.0 then Budget
    else if price < 100.0 then MidRange
    else Premium
  }

  function SubscriberColumn(rows: seq<Listing>): (col: seq<real>)
    ensures |col| == |rows| && forall i :: 0 <= i < |rows| ==> col[i] == rows[i].numSubscribers as real
  {
    seq(|rows|, i requires 0 <= i < |rows| => rows[i].numSubscribers as real)
  }

  function ReviewColumn(rows: seq<Listing>): (col: seq<real>)
    ensures |col| == |rows| && forall i :: 0 <= i < |rows| ==> col[i] == rows[i].numReviews as real
  {
    seq(|rows|, i requires 0 <= i < |rows| => rows[i].numReviews as real)
  }

  function ReviewRateColumn(rows: seq<Listing>): (col: seq<real>)
    ensures |col| == |rows| && forall i :: 0 <= i < |rows| ==> col[i] == ReviewRate(rows[i])
  {
    seq(|rows|, i requires 0 <= i < |rows| => ReviewRate(rows[i]))
  }

  function Maxima(rows: seq<Listing>): ColumnMaxima {
    ColumnMaxima(ColumnMax(SubscriberColumn(rows)), ColumnMax(ReviewColumn(rows)), ColumnMax(ReviewRateColumn(rows)))
  }

  function Featurize(l: Listing, maxima: ColumnMaxima): (f: FeaturedCourse)
    ensures f.listing == l
    ensures f.reviewRate == GuardedRatio(l.numReviews as real, l.numSubscribers as real)
    ensures f.avgLectureDuration == GuardedRatio(l.contentDuration, l.numLectures as real)
    ensures f.pricePerHour == GuardedRatio(l.price, l.contentDuration)
    ensures f.lengthCategory == CategorizeLength(l.contentDuration)
    ensures f.priceCategory == CategorizePrice(l.price)
  {
    var rate := ReviewRate(l);
    FeaturedCourse(
      l,
      rate,
      GuardedRatio(l.contentDuration, l.numLectures as real),
      GuardedRatio(l.price, l.contentDuration),
      PopularityScore(l.numSubscribers as real, l.numReviews as real, rate, maxima),
      QualityScore(l.numReviews as real, rate, maxima),
      CategorizeLength(l.contentDuration),
      CategorizePrice(l.price))
  }

  /** The feature columns of the whole frame; the score maxima are taken
      over the frame as it is at that point (after cleaning, before
      de-duplication). */
  function EngineerFeatures(rows: seq<Listing>): (out: seq<FeaturedCourse>)
    ensures |out| == |rows|
    ensures forall i :: 0 <= i < |rows| ==> out[i] == Featurize(rows[i], Maxima(rows))
  {
    seq(|rows|, i requires 0 <= i < |rows| => Featurize(rows[i], Maxima(rows)))
  }

  /** Every score of the frame lies in [0, 1]: each row's inputs are
      non-negative and bounded by their column's maximum. */
  lemma FrameScoresInUnitInterval(rows: seq<Listing>)
    ensures forall i :: 0 <= i < |rows| ==>
      var f := EngineerFeatures(rows)[i];
      && (f.popularityScore.Some? ==> 0.0 <= f.popularityScore.value <= 1.0)
      && (f.qualityScore.Some? ==> 0.0 <= f.qualityScore.value <= 1.0)
  {
    var maxima := Maxima(rows);
    forall i | 0 <= i < |rows|
      ensures var f := EngineerFeatures(rows)[i];
        && (f.popularityScore.Some? ==> 0.0 <= f.popularityScore.value <= 1.0)
        && (f.qualityScore.Some? ==> 0.0 <= f.qualityScore.value <= 1.0)
    {
      var l := rows[i];
      assert SubscriberColumn(rows)[i] == l.numSubscribers as real;
      assert ReviewColumn(rows)[i] == l.numReviews as real;
      assert ReviewRateColumn(rows)[i] == ReviewRate(l);
      ScoresInUnitInterval(l.numSubscribers as real, l.numReviews as real, ReviewRate(l), maxima);
    }
  }

  // ---------------------------------------------------------------------
  // `drop_duplicates(subset=['course_id'], keep='first')`.

  function Ids(rows: seq<FeaturedCourse>): set<int> {
    set i | 0 <= i < |rows| :: rows[i].listing.courseId
  }

  predicate UniqueIds(rows: seq<FeaturedCourse>) {
    forall i, j :: 0 <= i < j < |rows| ==> rows[i].listing.courseId != rows[j].listing.courseId
  }

  /** `x` is the first row of `rows` with its id. */
  ghost predicate IsFirstOccurrence(rows: seq<FeaturedCourse>, x: FeaturedCourse) {
    exists i :: 0 <= i < |rows| && rows[i] == x
      && forall j :: 0 <= j < i ==> rows[j].listing.courseId != x.listing.courseId
  }

  /** The position of the first row with the id, or `|rows|` if there is none. */
  function FirstIndex(rows: seq<FeaturedCourse>, id: int): (i: nat)
    ensures i <= |rows|
    ensures i < |rows| ==> rows[i].listing.courseId == id
    ensures forall j :: 0 <= j < i ==> rows[j].listing.courseId != id
    decreases |rows|
  {
    if rows == [] then 0
    else if rows[0].listing.courseId == id then 0
    else
      var k := FirstIndex(rows[1..], id);
      assert forall j :: 1 <= j < k + 1 ==> rows[j] == rows[1..][j - 1];
      k + 1
  }

  /** A row whose id occurs in no earlier row is where that id first occurs. */
  lemma FirstIndexAt(rows: seq<FeaturedCourse>, i: nat)
    requires i < |rows|
    requires forall j :: 0 <= j < i ==> rows[j].listing.courseId != rows[i].listing.courseId
    ensures FirstIndex(rows, rows[i].listing.courseId) == i
  {
  }

  /** The kept rows come in the order of the first occurrences of their ids. */
  predicate InFirstOrder(rows: seq<FeaturedCourse>, kept: seq<FeaturedCourse>) {
    forall a, b :: 0 <= a < b < |kept| ==>
      FirstIndex(rows, kept[a].listing.courseId) < FirstIndex(rows, kept[b].listing.courseId)
  }

  /** Every kept id first occurs before position `i`. */
  predicate FirstBefore(rows: seq<FeaturedCourse>, kept: seq<FeaturedCourse>, i: nat) {
    forall k :: 0 <= k < |kept| ==> FirstIndex(rows, kept[k].listing.courseId) < i
  }

  /** Appending the first occurrence at position `i` keeps the kept rows in
      first-occurrence order. */
  lemma AppendKeepsOrder(rows: seq<FeaturedCourse>, kept: seq<FeaturedCourse>, i: nat)
    requires i < |rows|
    requires InFirstOrder(rows, kept) && FirstBefore(rows, kept, i)
    requires FirstIndex(rows, rows[i].listing.courseId) == i
    ensures InFirstOrder(rows, kept + [rows[i]]) && FirstBefore(rows, kept + [rows[i]], i + 1)
  {
    var after := kept + [rows[i]];
    forall a, b | 0 <= a < b < |after|
      ensures FirstIndex(rows, after[a].listing.courseId) < FirstIndex(rows, after[b].listing.courseId)
    {
      assert after[a] == kept[a];
      if b < |kept| {
        assert after[b] == kept[b];
      } else {
        assert after[b] == rows[i];
      }
    }
    forall k | 0 <= k < |after| ensures FirstIndex(rows, after[k].listing.courseId) < i + 1 {
      if k < |kept| {
        assert after[k] == kept[k];
      }
    }
  }

  lemma IdsStep(rows: seq<FeaturedCourse>, i: nat)
    requires i < |rows|
    ensures Ids(rows[..i + 1]) == Ids(rows[..i]) + {rows[i].listing.courseId}
  {
    var before, after := rows[..i], rows[..i + 1];
    assert forall k :: 0 <= k < i ==> after[k] == before[k];
    assert after[i] == rows[i];
  }

  lemma IdsAppend(rows: seq<FeaturedCourse>, x: FeaturedCourse)
    ensures Ids(rows + [x]) == Ids(rows) + {x.listing.courseId}
  {
    var after := rows + [x];
    assert forall k :: 0 <= k < |rows| ==> after[k] == rows[k];
    assert after[|rows|] == x;
  }

  /** Appending a row whose id is new keeps the invariants of the
      de-duplication loop. */
  lemma AppendFirstOccurrence(rows: seq<FeaturedCourse>, kept: seq<FeaturedCourse>, i: nat)
    requires i < |rows|
    requires Ids(kept) == Ids(rows[..i]) && UniqueIds(kept)
    requires forall k :: 0 <= k < |kept| ==> IsFirstOccurrence(rows, kept[k])
    requires InFirstOrder(rows, kept) && FirstBefore(rows, kept, i)
    requires rows[i].listing.courseId !in Ids(rows[..i])
    ensures UniqueIds(kept + [rows[i]])
    ensures Ids(kept + [rows[i]]) == Ids(kept) + {rows[i].listing.courseId}
    ensures forall k :: 0 <= k < |kept + [rows[i]]| ==> IsFirstOccurrence(rows, (kept + [rows[i]])[k])
    ensures InFirstOrder(rows, kept + [rows[i]]) && FirstBefore(rows, kept + [rows[i]], i + 1)
  {
    var row := rows[i];
    assert forall j :: 0 <= j < i ==> rows[j].listing.courseId != row.listing.courseId by {
      forall j | 0 <= j < i ensures rows[j].listing.courseId != row.listing.courseId {
        assert rows[j] == rows[..i][j];
      }
    }
    assert IsFirstOccurrence(rows, row);
    FirstIndexAt(rows, i);
    AppendKeepsOrder(rows, kept, i);
    IdsAppend(kept, row);
    assert forall k :: 0 <= k < |kept| ==> kept[k].listing.courseId in Ids(kept);
  }

  /** Keeps the first row of every course id: the kept rows have distinct
      ids, are the first occurrences of those ids, keep their relative order,
      and cover every id of the input. */
  method DropDuplicateIds(rows: seq<FeaturedCourse>) returns (kept: seq<FeaturedCourse>)
    ensures UniqueIds(kept)
    ensures IsSubsequence(kept, rows)
    ensures Ids(kept) == Ids(rows)
    ensures forall k :: 0 <= k < |kept| ==> IsFirstOccurrence(rows, kept[k])
    ensures InFirstOrder(rows, kept)
  {
    kept := [];
    var seen: set<int> := {};
    for i := 0 to |rows|
      invariant seen == Ids(kept) == Ids(rows[..i])
      invariant UniqueIds(kept)
      invariant IsSubsequence(kept, rows[..i])
      invariant forall k :: 0 <= k < |kept| ==> IsFirstOccurrence(rows, kept[k])
      invariant FirstBefore(rows, kept, i)
      invariant InFirstOrder(rows, kept)
    {
      var row := rows[i];
      IdsStep(rows, i);
      assert rows[..i + 1] == rows[..i] + [row];
      SubsequenceAppend(kept, rows[..i], row);
      if row.listing.courseId !in seen {
        AppendFirstOccurrence(rows, kept, i);
        kept := kept + [row];
        seen := seen + {row.listing.courseId};
      }
    }
    assert rows[..|rows|] == rows;
  }

  // ---------------------------------------------------------------------
  // The whole job, up to the upload.

  /** Clean, engineer features, then de-duplicate, in the order of the
      script. The uploaded table has one row per course id that occurs in a
      complete CSV row, each the first such row, in CSV order, with scores
      in [0, 1]. */
  method ImportCourses(raw: seq<RawCourse>) returns (table: seq<FeaturedCourse>)
    ensures UniqueIds(table)
    ensures IsSubsequence(table, EngineerFeatures(CleanRows(raw)))
    ensures Ids(table) == set i | 0 <= i < |raw| && IsComplete(raw[i]) :: raw[i].courseId
    ensures forall k :: 0 <= k < |table| ==> IsFirstOccurrence(EngineerFeatures(CleanRows(raw)), table[k])
    ensures InFirstOrder(EngineerFeatures(CleanRows(raw)), table)
    ensures forall k :: 0 <= k < |table| ==>
      && (table[k].popularityScore.Some? ==> 0.0 <= table[k].popularityScore.value <= 1.0)
      && (table[k].qualityScore.Some? ==> 0.0 <= table[k].qualityScore.value <= 1.0)
  {
    var cleaned := CleanRows(raw);
    var featured := EngineerFeatures(cleaned);
    FrameScoresInUnitInterval(cleaned);
    table := DropDuplicateIds(featured);
    SubsequenceMembers(table, featured);
    forall k | 0 <= k < |table|
      ensures && (table[k].popularityScore.Some? ==> 0.0 <= table[k].popularityScore.value <= 1.0)
              && (table[k].qualityScore.Some? ==> 0.0 <= table[k].qualityScore.value <= 1.0)
    {
      assert table[k] in featured;
    }
    assert Ids(featured) == set i | 0 <= i < |raw| && IsComplete(raw[i]) :: raw[i].courseId by {
      forall id | id in Ids(featured) ensures exists i :: 0 <= i < |raw| && IsComplete(raw[i]) && raw[i].courseId == id {
        var k :| 0 <= k < |featured| && featured[k].listing.courseId == id;
        assert FromComplete(raw, cleaned[k]);
        var i :| 0 <= i < |raw| && IsComplete(raw[i]) && cleaned[k] == Fill(raw[i]);
      }
      forall i | 0 <= i < |raw| && IsComplete(raw[i]) ensures raw[i].courseId in Ids(featured) {
        var k :| 0 <= k < |cleaned| && cleaned[k] == Fill(raw[i]);
        assert featured[k].listing == cleaned[k];
      }
    }
  }
}
