/** The recommendation queries of recommendation_system.py: content-similar
    courses for one course (`get_recommendations`) and the most popular
    courses of a subject (the "explore by subject" table). The similarity
    matrix is an input: row `i` holds the cosine similarities of course `i`
    to every course, in table order. */
module Recommend {
  import opened Sequences
  import opened Sorting
  import opened Scoring

  /** How many rows the subject table shows (`nlargest(10, ...)`). */
  const SubjectTableSize: nat := 10

  /** One entry of a similarity row: the position of a course in the table
      and its similarity to the query course. */
  datatype Candidate = Candidate(index: nat, similarity: real)

  /** The dictionary `get_recommendations` builds for an admitted course. */
  datatype Recommendation = Recommendation(
    courseId: int,
    title: string,
    subject: string,
    price: real,
    numSubscribers: nat,
    numReviews: nat,
    bayesianPopularity: real,
    confidence: Confidence,
    similarity: real)

  function Similarity(c: Candidate): real { c.similarity }

  /** The order `sorted(..., key=similarity, reverse=True)` leaves the
      entries of `enumerate(row)` in: higher similarity first, and on a tie
      the earlier table row first. */
  predicate RanksBefore(a: Candidate, b: Candidate) {
    a.similarity > b.similarity || (a.similarity == b.similarity && a.index < b.index)
  }

  /** The similarity matrix has one row and one column per table row. */
  predicate IsSquare(sim: seq<seq<real>>, n: nat) {
    |sim| == n && forall i :: 0 <= i < n ==> |sim[i]| == n
  }

  /** `df[df['course_id'] == course_id].index[0]`: the first row holding the
      id, or `None` where the lookup raises. */
  function FindCourse(rows: seq<EnrichedCourse>, courseId: int): (r: Option<nat>)
    ensures r.Some? ==> r.value < |rows| && rows[r.value].course.courseId == courseId
    ensures r.Some? ==> forall j :: 0 <= j < r.value ==> rows[j].course.courseId != courseId
    ensures r.None? <==> forall j :: 0 <= j < |rows| ==> rows[j].course.courseId != courseId
  {
    if rows == [] then None
    else if rows[0].course.courseId == courseId then Some(0)
    else
      match FindCourse(rows[1..], courseId)
      case Some(i) => Some(i + 1)
      case None => None
  }

  /** `list(enumerate(row))`. */
  function Enumerate(row: seq<real>): (r: seq<Candidate>)
    ensures |r| == |row| && forall i :: 0 <= i < |row| ==> r[i] == Candidate(i, row[i])
  {
    seq(|row|, i requires 0 <= i < |row| => Candidate(i, row[i]))
  }

  function Ranked(row: seq<real>): seq<Candidate> {
    SortDescending(Enumerate(row), Similarity)
  }

  /** `sim_scores[1:]`: the ranked row without its first entry. */
  function RankedTail(row: seq<real>): seq<Candidate> {
    var r := Ranked(row);
    if r == [] then [] else r[1..]
  }

  lemma {:induction false} InsertRanks(x: Candidate, t: seq<Candidate>)
    requires Ordered(t, RanksBefore)
    requires forall y :: y in t ==> x.index < y.index
    ensures Ordered(Insert(x, t, Similarity), RanksBefore)
    decreases |t|
  {
    if t != [] && Similarity(x) < Similarity(t[0]) {
      var u := Insert(x, t[1..], Similarity);
      assert forall y :: y in t[1..] ==> y in t;
      InsertRanks(x, t[1..]);
      InsertPermutes(x, t[1..], Similarity);
      forall j | 0 <= j < |u| ensures RanksBefore(t[0], u[j]) {
        assert u[j] in multiset(t[1..]) + multiset{x};
        if u[j] != x {
          assert u[j] in t[1..];
          var p :| 0 <= p < |t[1..]| && t[1..][p] == u[j];
          assert RanksBefore(t[0], t[p + 1]);
        }
      }
    }
  }

  lemma {:induction false} SortRanks(s: seq<Candidate>)
    requires forall i, j :: 0 <= i < j < |s| ==> s[i].index < s[j].index
    ensures Ordered(SortDescending(s, Similarity), RanksBefore)
    decreases |s|
  {
    if s != [] {
      SortRanks(s[1..]);
      SortMembers(s[1..], Similarity);
      forall y | y in SortDescending(s[1..], Similarity) ensures s[0].index < y.index {
        var p :| 0 <= p < |s[1..]| && s[1..][p] == y;
        assert s[p + 1] == y;
      }
      InsertRanks(s[0], SortDescending(s[1..], Similarity));
    }
  }

  /** Ranking a similarity row keeps every entry exactly once, puts higher
      similarities first and breaks ties by table order. */
  lemma RankedSpec(row: seq<real>)
    ensures |Ranked(row)| == |row|
    ensures multiset(Ranked(row)) == multiset(Enumerate(row))
    ensures forall k :: 0 <= k < |Ranked(row)| ==> Ranked(row)[k].index < |row|
    ensures Ordered(Ranked(row), RanksBefore)
  {
    SortLength(Enumerate(row), Similarity);
    SortPermutes(Enumerate(row), Similarity);
    SortMembers(Enumerate(row), Similarity);
    SortRanks(Enumerate(row));
    forall k | 0 <= k < |Ranked(row)| ensures Ranked(row)[k].index < |row| {
      assert Ranked(row)[k] in Enumerate(row);
    }
  }

  lemma RankedTailSpec(row: seq<real>)
    ensures |RankedTail(row)| == if row == [] then 0 else |row| - 1
    ensures forall k :: 0 <= k < |RankedTail(row)| ==> RankedTail(row)[k].index < |row|
    ensures Ordered(RankedTail(row), RanksBefore)
  {
    RankedSpec(row);
    var r := Ranked(row);
    if r != [] {
      assert forall k :: 0 <= k < |r| - 1 ==> r[1..][k] == r[k + 1];
    }
  }

  /** The filter of `get_recommendations`: enough reviews and not suspicious. */
  predicate Admissible(rows: seq<EnrichedCourse>, minReviews: int, c: Candidate) {
    c.index < |rows| && rows[c.index].course.numReviews >= minReviews && !rows[c.index].isSuspicious
  }

  /** The admissible candidates, in their order. */
  function AdmissibleCandidates(rows: seq<EnrichedCourse>, cands: seq<Candidate>, minReviews: int): (r: seq<Candidate>)
    ensures forall k :: 0 <= k < |r| ==> Admissible(rows, minReviews, r[k])
    ensures forall c :: c in cands && Admissible(rows, minReviews, c) ==> c in r
    ensures IsSubsequence(r, cands)
    ensures |r| <= |cands|
    decreases |cands|
  {
    if cands == [] then []
    else
      var init, last := cands[..|cands| - 1], cands[|cands| - 1];
      var r := AdmissibleCandidates(rows, init, minReviews);
      assert cands == init + [last];
      SubsequenceAppend(r, init, last);
      if Admissible(rows, minReviews, last) then r + [last] else r
  }

  lemma AdmissibleStep(rows: seq<EnrichedCourse>, cands: seq<Candidate>, i: nat, minReviews: int)
    requires i < |cands|
    ensures AdmissibleCandidates(rows, cands[..i + 1], minReviews)
         == if Admissible(rows, minReviews, cands[i])
            then AdmissibleCandidates(rows, cands[..i], minReviews) + [cands[i]]
            else AdmissibleCandidates(rows, cands[..i], minReviews)
  {
    assert cands[..i + 1][..i] == cands[..i];
  }

  lemma {:induction false} AdmissibleConcat(rows: seq<EnrichedCourse>, a: seq<Candidate>, b: seq<Candidate>, minReviews: int)
    ensures AdmissibleCandidates(rows, a + b, minReviews)
         == AdmissibleCandidates(rows, a, minReviews) + AdmissibleCandidates(rows, b, minReviews)
    decreases |b|
  {
    if b != [] {
      var b' := b[..|b| - 1];
      assert (a + b)[..|a + b| - 1] == a + b' && (a + b)[|a + b| - 1] == b[|b| - 1];
      AdmissibleConcat(rows, a, b', minReviews);
    } else {
      assert a + b == a;
    }
  }

  function ToRecommendation(e: EnrichedCourse, similarity: real): (r: Recommendation)
    ensures r.courseId == e.course.courseId && r.numReviews == e.course.numReviews
    ensures r.similarity == similarity && r.bayesianPopularity == e.bayesianPopularity
  {
    Recommendation(e.course.courseId, e.course.title, e.course.subject, e.course.price,
                   e.course.numSubscribers, e.course.numReviews, e.bayesianPopularity,
                   e.confidence, similarity)
  }

  /** The dictionaries built for `cands`, in order. */
  function Project(rows: seq<EnrichedCourse>, cands: seq<Candidate>): (r: seq<Recommendation>)
    requires forall k :: 0 <= k < |cands| ==> cands[k].index < |rows|
    ensures |r| == |cands|
    ensures forall k :: 0 <= k < |cands| ==>
      r[k] == ToRecommendation(rows[cands[k].index], cands[k].similarity)
  {
    seq(|cands|, k requires 0 <= k < |cands| => ToRecommendation(rows[cands[k].index], cands[k].similarity))
  }

  lemma ProjectAppend(rows: seq<EnrichedCourse>, cands: seq<Candidate>, c: Candidate)
    requires forall k :: 0 <= k < |cands| ==> cands[k].index < |rows|
    requires c.index < |rows|
    ensures Project(rows, cands + [c]) == Project(rows, cands) + [ToRecommendation(rows[c.index], c.similarity)]
  {
    var lhs, rhs := Project(rows, cands + [c]), Project(rows, cands) + [ToRecommendation(rows[c.index], c.similarity)];
    assert |lhs| == |rhs|;
    forall k | 0 <= k < |lhs| ensures lhs[k] == rhs[k] {
      if k < |cands| {
        assert (cands + [c])[k] == cands[k];
      }
    }
  }

  /** What the walk over the ranked candidates admits. With `n >= 1` it is the
      first `n` admissible candidates; with `n <= 0` the length test after the
      first candidate already stops the walk, so only that candidate is looked at. */
  function TopAdmitted(rows: seq<EnrichedCourse>, cands: seq<Candidate>, n: int, minReviews: int): seq<Candidate> {
    if n >= 1 then Take(AdmissibleCandidates(rows, cands, minReviews), n)
    else AdmissibleCandidates(rows, Take(cands, 1), minReviews)
  }

  /** The admitted candidates are admissible, in their ranked order, at most
      `n` of them (one when `n <= 0`), and the walk stops only when `n` are
      found: a candidate left out while fewer than `n` were admitted does not
      exist. */
  lemma TopAdmittedSpec(rows: seq<EnrichedCourse>, cands: seq<Candidate>, n: int, minReviews: int)
    ensures forall k :: 0 <= k < |TopAdmitted(rows, cands, n, minReviews)| ==>
      Admissible(rows, minReviews, TopAdmitted(rows, cands, n, minReviews)[k])
    ensures IsSubsequence(TopAdmitted(rows, cands, n, minReviews), cands)
    ensures n >= 1 ==> |TopAdmitted(rows, cands, n, minReviews)| <= n
    ensures n < 1 ==> |TopAdmitted(rows, cands, n, minReviews)| <= 1
    ensures n >= 1 ==> forall c ::
      (c in cands && Admissible(rows, minReviews, c) && c !in TopAdmitted(rows, cands, n, minReviews))
      ==> |TopAdmitted(rows, cands, n, minReviews)| == n
  {
    var adm := AdmissibleCandidates(rows, cands, minReviews);
    var top := TopAdmitted(rows, cands, n, minReviews);
    if n >= 1 {
      PrefixIsSubsequence(adm, |top|);
      SubsequenceTransitive(top, adm, cands);
    } else {
      var first := Take(cands, 1);
      PrefixIsSubsequence(cands, |first|);
      SubsequenceTransitive(top, first, cands);
    }
  }

  /** The state of the walk when it breaks: the candidate just looked at
      brought the count to `n`, or it was the first one. */
  lemma WalkStopsEarly(rows: seq<EnrichedCourse>, cands: seq<Candidate>, i: nat, n: int, minReviews: int)
    requires 1 <= i <= |cands|
    requires |AdmissibleCandidates(rows, cands[..i], minReviews)| >= n
    requires i == 1 || |AdmissibleCandidates(rows, cands[..i - 1], minReviews)| < n
    ensures AdmissibleCandidates(rows, cands[..i], minReviews) == TopAdmitted(rows, cands, n, minReviews)
  {
    var seen := AdmissibleCandidates(rows, cands[..i], minReviews);
    if n >= 1 {
      assert |seen| == n by {
        if i > 1 {
          AdmissibleCountStep(rows, cands, i - 1, minReviews);
        }
      }
      assert cands == cands[..i] + cands[i..];
      AdmissibleConcat(rows, cands[..i], cands[i..], minReviews);
      TakeConcat(seen, AdmissibleCandidates(rows, cands[i..], minReviews), n);
    } else {
      assert Take(cands, 1) == cands[..i];
    }
  }

  /** One more candidate admits at most one more. */
  lemma AdmissibleCountStep(rows: seq<EnrichedCourse>, cands: seq<Candidate>, i: nat, minReviews: int)
    requires i < |cands|
    ensures |AdmissibleCandidates(rows, cands[..i + 1], minReviews)| <= |AdmissibleCandidates(rows, cands[..i], minReviews)| + 1
  {
    AdmissibleStep(rows, cands, i, minReviews);
  }

  lemma WalkRunsOut(rows: seq<EnrichedCourse>, cands: seq<Candidate>, n: int, minReviews: int)
    requires cands == [] || |AdmissibleCandidates(rows, cands, minReviews)| < n
    ensures AdmissibleCandidates(rows, cands, minReviews) == TopAdmitted(rows, cands, n, minReviews)
  {
  }

  /** The loop of `get_recommendations` over the ranked candidates: admit a
      candidate with enough reviews that is not suspicious, and stop once at
      least `n` are admitted (the test follows every candidate). */
  method AdmitTopN(rows: seq<EnrichedCourse>, cands: seq<Candidate>, n: int, minReviews: int)
    returns (recs: seq<Recommendation>)
    requires forall k :: 0 <= k < |cands| ==> cands[k].index < |rows|
    ensures recs == Project(rows, TopAdmitted(rows, cands, n, minReviews))
  {
    recs := [];
    var i := 0;
    while i < |cands|
      invariant 0 <= i <= |cands|
      invariant recs == Project(rows, AdmissibleCandidates(rows, cands[..i], minReviews))
      invariant i == 0 || |recs| < n
    {
      var c := cands[i];
      var course := rows[c.index];
      ghost var admitted := AdmissibleCandidates(rows, cands[..i], minReviews);
      AdmissibleStep(rows, cands, i, minReviews);
      if course.course.numReviews >= minReviews && !course.isSuspicious {
        ProjectAppend(rows, admitted, c);
        recs := recs + [ToRecommendation(course, c.similarity)];
      }
      i := i + 1;
      if |recs| >= n {
        WalkStopsEarly(rows, cands, i, n, minReviews);
        break;
      }
    }
    if i == 0 || |recs| < n {
      assert cands[..i] == cands;
      WalkRunsOut(rows, cands, n, minReviews);
    }
  }

  /** `get_recommendations(course_id, df, cosine_sim, n, min_reviews)`: the
      courses most similar to the query course. An id that is not in the table
      gives the empty result. */
  method GetRecommendations(courseId: int, rows: seq<EnrichedCourse>, sim: seq<seq<real>>, n: int, minReviews: int)
    returns (recs: seq<Recommendation>)
    requires IsSquare(sim, |rows|)
    ensures FindCourse(rows, courseId).None? ==> recs == []
    ensures FindCourse(rows, courseId).Some? ==>
      recs == Project(rows, TopAdmitted(rows, RankedTail(sim[FindCourse(rows, courseId).value]), n, minReviews))
    ensures n >= 1 ==> |recs| <= n
    ensures n < 1 ==> |recs| <= 1
    ensures forall k :: 0 <= k < |recs| ==> recs[k].numReviews >= minReviews
    ensures forall i, j :: 0 <= i < j < |recs| ==> recs[i].similarity >= recs[j].similarity
  {
    var found := FindCourse(rows, courseId);
    if found.None? {
      return [];
    }
    var row := sim[found.value];
    RankedTailSpec(row);
    var cands := RankedTail(row);
    recs := AdmitTopN(rows, cands, n, minReviews);
    TopAdmittedSpec(rows, cands, n, minReviews);
    var top := TopAdmitted(rows, cands, n, minReviews);
    SubsequencePreservesOrder(top, cands, RanksBefore);
    forall i, j | 0 <= i < j < |recs| ensures recs[i].similarity >= recs[j].similarity {
      assert RanksBefore(top[i], top[j]);
    }
  }

  /** The admitted entries of a recommendation query: a subsequence of the
      ranked row without its first entry, each with enough reviews and not
      suspicious, in non-increasing similarity with ties in table order. */
  lemma RecommendationsSpec(rows: seq<EnrichedCourse>, sim: seq<seq<real>>, q: nat, n: int, minReviews: int)
    requires IsSquare(sim, |rows|) && q < |rows|
    ensures var top := TopAdmitted(rows, RankedTail(sim[q]), n, minReviews);
      && IsSubsequence(top, RankedTail(sim[q]))
      && (forall k :: 0 <= k < |top| ==>
            rows[top[k].index].course.numReviews >= minReviews && !rows[top[k].index].isSuspicious)
      && Ordered(top, RanksBefore)
  {
    var cands := RankedTail(sim[q]);
    RankedTailSpec(sim[q]);
    TopAdmittedSpec(rows, cands, n, minReviews);
    SubsequencePreservesOrder(TopAdmitted(rows, cands, n, minReviews), cands, RanksBefore);
  }

  // ---------------------------------------------------------------------
  // Dropping the first-ranked entry does not always drop the query course.

  function SampleCourse(id: int): EnrichedCourse {
    EnrichedCourse(Course(id, "Python Basics", "Web Development", 20.0, 1000, 50, 0.05, 0.5, None),
                   0.5, None, Medium, 0.05, false)
  }

  /** Two courses with the same title and subject are equally similar to the
      second one. The stable sort ranks the first of them first, `[1:]` drops
      it, and the query course is recommended to itself. */
  lemma QueryRecommendedToItself()
    ensures var rows := [SampleCourse(1), SampleCourse(2)];
      var sim := [[1.0, 1.0], [1.0, 1.0]];
      && FindCourse(rows, 2) == Some(1)
      && RankedTail(sim[1]) == [Candidate(1, 1.0)]
      && Project(rows, TopAdmitted(rows, RankedTail(sim[1]), 10, 5))
         == [ToRecommendation(SampleCourse(2), 1.0)]
  {
    var row := [1.0, 1.0];
    assert Enumerate(row) == [Candidate(0, 1.0), Candidate(1, 1.0)];
    assert SortDescending([Candidate(1, 1.0)], Similarity) == [Candidate(1, 1.0)];
    assert Ranked(row) == [Candidate(0, 1.0), Candidate(1, 1.0)];
  }

  /** The candidate is a row of the query course. */
  predicate IsQuery(rows: seq<EnrichedCourse>, courseId: int, c: Candidate) {
    c.index < |rows| && rows[c.index].course.courseId == courseId
  }

  /** The ranked entries of other courses than the query's. */
  function OtherCourses(rows: seq<EnrichedCourse>, cands: seq<Candidate>, courseId: int): (r: seq<Candidate>)
    ensures forall k :: 0 <= k < |r| ==> !IsQuery(rows, courseId, r[k])
    ensures forall c :: c in cands && !IsQuery(rows, courseId, c) ==> c in r
    ensures IsSubsequence(r, cands)
    decreases |cands|
  {
    if cands == [] then []
    else
      var rest := OtherCourses(rows, cands[1..], courseId);
      if !IsQuery(rows, courseId, cands[0]) then [cands[0]] + rest else rest
  }

  /** With the query course removed by id, the admitted entries are other
      courses, each with enough reviews and not suspicious, at most `n` of
      them (one when `n <= 0`), in ranked order. */
  lemma ExcludingQuerySpec(rows: seq<EnrichedCourse>, sim: seq<seq<real>>, q: nat, courseId: int, n: int, minReviews: int)
    requires IsSquare(sim, |rows|) && q < |rows|
    ensures var top := TopAdmitted(rows, OtherCourses(rows, Ranked(sim[q]), courseId), n, minReviews);
      && (forall k :: 0 <= k < |top| ==> Admissible(rows, minReviews, top[k]) && !IsQuery(rows, courseId, top[k]))
      && (n >= 1 ==> |top| <= n)
      && (n < 1 ==> |top| <= 1)
      && Ordered(top, RanksBefore)
  {
    RankedSpec(sim[q]);
    var cands := OtherCourses(rows, Ranked(sim[q]), courseId);
    TopAdmittedSpec(rows, cands, n, minReviews);
    var top := TopAdmitted(rows, cands, n, minReviews);
    SubsequencePreservesOrder(cands, Ranked(sim[q]), RanksBefore);
    SubsequencePreservesOrder(top, cands, RanksBefore);
    SubsequenceMembers(top, cands);
    forall k | 0 <= k < |top| ensures !IsQuery(rows, courseId, top[k]) {
      assert top[k] in cands;
    }
  }

  /** `get_recommendations` as intended: the query course is removed by its
      id rather than by its rank, so it never recommends itself. */
  method GetRecommendationsExcludingQuery(courseId: int, rows: seq<EnrichedCourse>, sim: seq<seq<real>>, n: int, minReviews: int)
    returns (recs: seq<Recommendation>)
    requires IsSquare(sim, |rows|)
    ensures FindCourse(rows, courseId).None? ==> recs == []
    ensures FindCourse(rows, courseId).Some? ==>
      recs == Project(rows, TopAdmitted(rows, OtherCourses(rows, Ranked(sim[FindCourse(rows, courseId).value]), courseId), n, minReviews))
    ensures forall k :: 0 <= k < |recs| ==> recs[k].courseId != courseId
    ensures n >= 1 ==> |recs| <= n
    ensures n < 1 ==> |recs| <= 1
    ensures forall k :: 0 <= k < |recs| ==> recs[k].numReviews >= minReviews
    ensures forall i, j :: 0 <= i < j < |recs| ==> recs[i].similarity >= recs[j].similarity
  {
    var found := FindCourse(rows, courseId);
    if found.None? {
      return [];
    }
    var row := sim[found.value];
    RankedSpec(row);
    var cands := OtherCourses(rows, Ranked(row), courseId);
    SubsequenceMembers(cands, Ranked(row));
    forall k | 0 <= k < |cands| ensures cands[k].index < |rows| {
      var p :| 0 <= p < |Ranked(row)| && Ranked(row)[p] == cands[k];
    }
    recs := AdmitTopN(rows, cands, n, minReviews);
    ExcludingQuerySpec(rows, sim, found.value, courseId, n, minReviews);
    var top := TopAdmitted(rows, cands, n, minReviews);
    forall i, j | 0 <= i < j < |recs| ensures recs[i].similarity >= recs[j].similarity {
      assert RanksBefore(top[i], top[j]);
    }
  }

  // ---------------------------------------------------------------------
  // The subject table.

  function BayesianPopularity(e: EnrichedCourse): real { e.bayesianPopularity }

  predicate InSubject(e: EnrichedCourse, subject: string, minReviews: int) {
    e.course.subject == subject && e.course.numReviews >= minReviews && !e.isSuspicious
  }

  /** The rows of the subject with enough reviews that are not suspicious. */
  function SubjectRows(rows: seq<EnrichedCourse>, subject: string, minReviews: int): (r: seq<EnrichedCourse>)
    ensures forall k :: 0 <= k < |r| ==> InSubject(r[k], subject, minReviews)
    ensures forall e :: e in rows && InSubject(e, subject, minReviews) ==> e in r
    ensures IsSubsequence(r, rows)
    decreases |rows|
  {
    if rows == [] then []
    else
      var rest := SubjectRows(rows[1..], subject, minReviews);
      if InSubject(rows[0], subject, minReviews) then [rows[0]] + rest else rest
  }

  /** The subject filter works row by row and keeps table order: the rows
      of a concatenation are those of each part, in turn. */
  lemma {:induction false} SubjectRowsConcat(a: seq<EnrichedCourse>, b: seq<EnrichedCourse>, subject: string, minReviews: int)
    ensures SubjectRows(a + b, subject, minReviews) == SubjectRows(a, subject, minReviews) + SubjectRows(b, subject, minReviews)
    decreases |a|
  {
    if a == [] {
      assert a + b == b;
    } else {
      assert (a + b)[0] == a[0] && (a + b)[1..] == a[1..] + b;
      SubjectRowsConcat(a[1..], b, subject, minReviews);
    }
  }

  /** A single row is kept exactly when it is eligible. */
  lemma SubjectRowsOne(e: EnrichedCourse, subject: string, minReviews: int)
    ensures SubjectRows([e], subject, minReviews) == if InSubject(e, subject, minReviews) then [e] else []
  {
    assert [e][1..] == [];
  }

  /** `filtered_subject.nlargest(10, 'bayesian_popularity')`. */
  function TopInSubject(rows: seq<EnrichedCourse>, subject: string, minReviews: int): seq<EnrichedCourse> {
    Take(SortDescending(SubjectRows(rows, subject, minReviews), BayesianPopularity), SubjectTableSize)
  }

  lemma TopInSubjectIsSortedPrefix(rows: seq<EnrichedCourse>, subject: string, minReviews: int)
    ensures var sorted := SortDescending(SubjectRows(rows, subject, minReviews), BayesianPopularity);
      && |sorted| == |SubjectRows(rows, subject, minReviews)|
      && multiset(sorted) == multiset(SubjectRows(rows, subject, minReviews))
      && Descending(sorted, BayesianPopularity)
      && TopInSubject(rows, subject, minReviews) == sorted[..|TopInSubject(rows, subject, minReviews)|]
  {
    var eligible := SubjectRows(rows, subject, minReviews);
    SortLength(eligible, BayesianPopularity);
    SortPermutes(eligible, BayesianPopularity);
    SortIsDescending(eligible, BayesianPopularity);
  }

  /** The subject table holds at most ten rows, each of the subject with
      enough reviews and not suspicious, by non-increasing adjusted
      popularity; with ten or fewer eligible rows it shows them all. */
  lemma TopInSubjectSpec(rows: seq<EnrichedCourse>, subject: string, minReviews: int)
    ensures var top := TopInSubject(rows, subject, minReviews);
      && |top| <= SubjectTableSize
      && (forall i :: 0 <= i < |top| ==> InSubject(top[i], subject, minReviews))
      && Descending(top, BayesianPopularity)
      && |top| == (if |SubjectRows(rows, subject, minReviews)| <= SubjectTableSize
                   then |SubjectRows(rows, subject, minReviews)| else SubjectTableSize)
      && (|SubjectRows(rows, subject, minReviews)| <= SubjectTableSize ==>
            multiset(top) == multiset(SubjectRows(rows, subject, minReviews)))
  {
    var eligible := SubjectRows(rows, subject, minReviews);
    var sorted := SortDescending(eligible, BayesianPopularity);
    var top := TopInSubject(rows, subject, minReviews);
    TopInSubjectIsSortedPrefix(rows, subject, minReviews);
    SortMembers(eligible, BayesianPopularity);
    forall i | 0 <= i < |top| ensures InSubject(top[i], subject, minReviews) {
      assert top[i] == sorted[i];
      assert sorted[i] in eligible;
    }
    if |eligible| <= SubjectTableSize {
      assert top == sorted;
    }
  }

  /** No eligible row left out of the subject table is more popular than a
      row shown in it. */
  lemma TopInSubjectIsLargest(rows: seq<EnrichedCourse>, subject: string, minReviews: int, e: EnrichedCourse)
    requires e in rows && InSubject(e, subject, minReviews)
    requires e !in TopInSubject(rows, subject, minReviews)
    ensures forall i :: 0 <= i < |TopInSubject(rows, subject, minReviews)| ==>
      TopInSubject(rows, subject, minReviews)[i].bayesianPopularity >= e.bayesianPopularity
  {
    var eligible := SubjectRows(rows, subject, minReviews);
    var sorted := SortDescending(eligible, BayesianPopularity);
    var top := TopInSubject(rows, subject, minReviews);
    TopInSubjectIsSortedPrefix(rows, subject, minReviews);
    SortMembers(eligible, BayesianPopularity);
    assert e in sorted;
    var p :| 0 <= p < |sorted| && sorted[p] == e;
    assert forall i :: 0 <= i < |top| ==> sorted[i] == top[i] && top[i] in top;
    assert p >= |top|;
    forall i | 0 <= i < |top| ensures top[i].bayesianPopularity >= e.bayesianPopularity {
      assert top[i] == sorted[i];
    }
  }

  /** Rows of equal adjusted popularity appear in table order, and the table
      keeps the earliest of them (`keep='first'`). */
  lemma TopInSubjectKeepsFirst(rows: seq<EnrichedCourse>, subject: string, minReviews: int, k: real)
    ensures IsPrefix(WithKey(TopInSubject(rows, subject, minReviews), BayesianPopularity, k),
                     WithKey(SubjectRows(rows, subject, minReviews), BayesianPopularity, k))
  {
    var eligible := SubjectRows(rows, subject, minReviews);
    var sorted := SortDescending(eligible, BayesianPopularity);
    var top := TopInSubject(rows, subject, minReviews);
    TopInSubjectIsSortedPrefix(rows, subject, minReviews);
    SortIsStable(eligible, BayesianPopularity, k);
    assert sorted == top + sorted[|top|..];
    WithKeyConcat(top, sorted[|top|..], BayesianPopularity, k);
  }
}
