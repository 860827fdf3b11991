/**
 * The course profile page (`src/pages/CourseProfilePage.tsx`): the course's
 * reviews grouped per professor, each group's averages and would-take-again
 * share, and the colour band of an average rating.
 */
module CourseProfilePage {
  import opened Base
  import opened Seqs
  import opened Types
  import opened Aggregates

  function ProfessorIdOf(r: Review): string { r.professorId }

  /** One professor's block: the professor embedded in its first review, its reviews and their statistics. */
  datatype ProfessorStats = ProfessorStats(
    professor: Option<Professor>,
    reviews: seq<Review>,
    avgRating: real,
    avgDifficulty: real,
    wouldTakeAgainPercent: real)

  /**
   * `professorStats`, filled by the `reduce`: a professor seen for the first
   * time opens an empty block, and the review is pushed onto its
   * professor's block.
   */
  method GroupReviews(reviews: seq<Review>) returns (groups: seq<Group<string, Review>>)
    ensures groups == GroupBy(reviews, ProfessorIdOf)
  {
    groups := [];
    for k := 0 to |reviews|
      invariant groups == GroupBy(reviews[..k], ProfessorIdOf)
    {
      var review := reviews[k];
      assert reviews[..k + 1] == reviews[..k] + [review];
      GroupBySnoc(reviews[..k], review, ProfessorIdOf);
      ghost var before := groups;
      var i := FindGroup(groups, review.professorId);
      if i == |groups| {
        groups := groups + [Group(review.professorId, [])];
      }
      groups := groups[i := Group(review.professorId, groups[i].members + [review])];
      if i == |before| {
        assert [] + [review] == [review];
        assert groups[i] == Group(review.professorId, [review]);
        assert groups == before + [Group(review.professorId, [review])];
      }
      assert groups == AddToGroup(before, ProfessorIdOf(review), review);
    }
    assert reviews[..|reviews|] == reviews;
  }

  /** A block's statistics: the averages are sum over count, the share is the yes-count over count, times 100. */
  function StatsOf(g: Group<string, Review>): (s: ProfessorStats)
    requires |g.members| > 0
    ensures s.reviews == g.members && s.professor == g.members[0].professor
  {
    var n := |g.members| as real;
    ProfessorStats(
      g.members[0].professor,
      g.members,
      SumOf(g.members, RatingOf) as real / n,
      SumOf(g.members, DifficultyOf) as real / n,
      (SumOf(g.members, YesOf) as real / n) * 100.0)
  }

  /** The `forEach` that fills in each block's statistics, in block order. */
  method ComputeStats(groups: seq<Group<string, Review>>) returns (stats: seq<ProfessorStats>)
    requires forall i | 0 <= i < |groups| :: |groups[i].members| > 0
    ensures |stats| == |groups|
    ensures forall i | 0 <= i < |groups| :: stats[i] == StatsOf(groups[i])
  {
    stats := [];
    for k := 0 to |groups|
      invariant |stats| == k
      invariant forall i | 0 <= i < k :: stats[i] == StatsOf(groups[i])
    {
      stats := stats + [StatsOf(groups[k])];
    }
  }

  /** The page's per-professor blocks for a course's reviews. */
  method ProfessorBlocks(reviews: seq<Review>) returns (stats: seq<ProfessorStats>)
    ensures |stats| == |GroupBy(reviews, ProfessorIdOf)|
    ensures forall i | 0 <= i < |stats| ::
      |GroupBy(reviews, ProfessorIdOf)[i].members| > 0 && stats[i] == StatsOf(GroupBy(reviews, ProfessorIdOf)[i])
  {
    var groups := GroupReviews(reviews);
    GroupByKeys(reviews, ProfessorIdOf);
    stats := ComputeStats(groups);
  }

  /**
   * The blocks partition the reviews: one block per professor, in
   * first-seen order, none empty, each holding exactly that professor's
   * reviews in their order; so the "Total Reviews" figure is the sum of the
   * block sizes.
   */
  lemma {:induction false} BlocksPartitionReviews(reviews: seq<Review>)
    ensures var gs := GroupBy(reviews, ProfessorIdOf);
      && TotalSize(gs) == |reviews|
      && (forall i | 0 <= i < |gs| :: |gs[i].members| > 0 && gs[i].members == FilterKey(reviews, ProfessorIdOf, gs[i].key))
      && (forall i, j | 0 <= i < j < |gs| :: gs[i].key != gs[j].key)
      && (forall r | r in reviews :: r.professorId in GroupKeys(gs))
  {
    GroupByTotal(reviews, ProfessorIdOf);
    GroupByKeys(reviews, ProfessorIdOf);
    GroupByMembers(reviews, ProfessorIdOf);
    GroupKeysDistinct(reviews, ProfessorIdOf);
    forall r | r in reviews ensures r.professorId in GroupKeys(GroupBy(reviews, ProfessorIdOf)) {
      var k :| 0 <= k < |reviews| && reviews[k] == r;
      assert ProfessorIdOf(reviews[k]) in KeysOf(reviews, ProfessorIdOf);
    }
  }

  /** With ratings and difficulties from 1 to 5, a block's averages lie in [1, 5] and its share in [0, 100]. */
  lemma {:induction false} StatsBounds(g: Group<string, Review>)
    requires |g.members| > 0
    requires AllBetween(g.members, RatingOf, 1, 5) && AllBetween(g.members, DifficultyOf, 1, 5)
    ensures var s := StatsOf(g);
      1.0 <= s.avgRating <= 5.0 && 1.0 <= s.avgDifficulty <= 5.0 && 0.0 <= s.wouldTakeAgainPercent <= 100.0
  {
    var n := |g.members|;
    SumOfBetween(g.members, RatingOf, 1, 5);
    SumOfBetween(g.members, DifficultyOf, 1, 5);
    SumOfBetween(g.members, YesOf, 0, 1);
    DivBetween(SumOf(g.members, RatingOf), n, 1, 5);
    DivBetween(SumOf(g.members, DifficultyOf), n, 1, 5);
    DivBetween(SumOf(g.members, YesOf), n, 0, 1);
  }

  lemma {:induction false} DivBetween(sum: int, n: int, lo: int, hi: int)
    requires n > 0 && n * lo <= sum <= n * hi
    ensures lo as real <= sum as real / n as real <= hi as real
  {
    assert (n * lo) as real == n as real * lo as real;
    assert (n * hi) as real == n as real * hi as real;
  }

  /** `Math.round` of a number. */
  function Round(x: real): (r: int)
    ensures x - 0.5 < r as real <= x + 0.5
  {
    (x + 0.5).Floor
  }

  /**
   * The whole-number share the page shows for a block is the one stored on
   * the professor row for the same reviews.
   */
  lemma {:induction false} DisplayedShareIsStored(g: Group<string, Review>)
    requires |g.members| > 0
    ensures Round(StatsOf(g).wouldTakeAgainPercent) == MeanAggregates(g.members).wouldTakeAgainPercent
  {
    var n := |g.members|;
    var yes := SumOf(g.members, YesOf);
    var r := RoundHalfUp(100 * yes, n);
    var x := (yes as real / n as real) * 100.0;
    assert x == (100 * yes) as real / n as real;
    RoundOfQuotient(100 * yes, n);
  }

  /** Rounding the exact quotient agrees with the integer rounding. */
  lemma {:induction false} RoundOfQuotient(num: int, den: int)
    requires den > 0
    ensures Round(num as real / den as real) == RoundHalfUp(num, den)
  {
    var r := RoundHalfUp(num, den);
    var d := den as real;
    var x := num as real / d;
    QuotientTimes(num as real, d);
    ScaledProduct(den, 2 * r - 1);
    ScaledProduct(den, 2 * r + 1);
    assert (2 * num) as real == (2.0 * x) * d;
    RealCancel((2 * r - 1) as real, 2.0 * x, d);
    RealCancelStrict(2.0 * x, (2 * r + 1) as real, d);
    assert r as real <= x + 0.5 < r as real + 1.0;
  }

  lemma {:induction false} QuotientTimes(a: real, d: real)
    requires d != 0.0
    ensures (a / d) * d == a
    ensures (2.0 * (a / d)) * d == 2.0 * a
  {
  }

  lemma {:induction false} ScaledProduct(den: int, k: int)
    ensures (den * k) as real == k as real * den as real
  {
  }

  lemma {:induction false} RealCancel(a: real, b: real, d: real)
    requires d > 0.0 && a * d <= b * d
    ensures a <= b
  {
  }

  lemma {:induction false} RealCancelStrict(a: real, b: real, d: real)
    requires d > 0.0 && a * d < b * d
    ensures a < b
  {
  }

  /** The colour band of an average rating. */
  datatype RatingColor = Green | Gold | Red

  function GetRatingColor(rating: real): (c: RatingColor)
    ensures c == Green <==> rating >= 4.5
    ensures c == Red <==> rating < 3.5
  {
    if rating >= 4.5 then Green else if rating >= 3.5 then Gold else Red
  }

  function Band(c: RatingColor): nat
  {
    match c
    case Red => 0
    case Gold => 1
    case Green => 2
  }

  /** A higher average never gets a lower band. */
  lemma {:induction false} RatingColorMonotone(a: real, b: real)
    requires a <= b
    ensures Band(GetRatingColor(a)) <= Band(GetRatingColor(b))
  {
  }

  /** The page's state: the course found (if any) and its reviews. */
  class CourseProfile {
    var course: Option<Course>
    var reviews: seq<Review>
    var loading: bool

    constructor()
      ensures course.None? && reviews == [] && loading
    {
      course, reviews, loading := None, [], true;
    }

    /**
     * Loads the course with the code and its reviews: a missing course
     * leaves the page as it was; a failed review query keeps the old list.
     */
    method LoadCourseAndReviews(courseAnswer: Option<Course>, reviewsAnswer: Option<seq<Review>>)
      modifies this
      ensures !loading
      ensures courseAnswer.None? ==> course == old(course) && reviews == old(reviews)
      ensures courseAnswer.Some? ==>
        course == courseAnswer && reviews == if reviewsAnswer.Some? then reviewsAnswer.value else old(reviews)
    {
      loading := true;
      if courseAnswer.Some? {
        course := courseAnswer;
        if reviewsAnswer.Some? {
          reviews := reviewsAnswer.value;
        }
      }
      loading := false;
    }
  }
}
