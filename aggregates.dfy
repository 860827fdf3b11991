/**
 * The professor aggregates recomputed from a professor's reviews after a
 * review is added or deleted: the average rating and difficulty (stored
 * rounded to one decimal, kept here in tenths), the would-take-again
 * percentage (rounded to a whole number) and the review count.
 */
module Aggregates {
  import opened Types

  /** The four aggregate fields written to a professor row. */
  datatype Aggregate = Aggregate(
    averageRatingTenths: int,
    difficultyRatingTenths: int,
    wouldTakeAgainPercent: int,
    totalReviews: nat)

  /** A professor with no reviews. */
  const NoReviews := Aggregate(0, 0, 0, 0)

  /** What a recomputation writes to the professor row. */
  datatype ProfessorUpdate =
    | NoUpdate
    | SetAggregates(aggregate: Aggregate)
      /** The two averages and the would-take-again share of an empty list are `NaN`, each stored as `null`; the count is 0. */
    | SetNullAverages

  /**
   * `Math.round(num / den)`: the nearest integer, halves rounded up, computed
   * exactly on integers.
   */
  function RoundHalfUp(num: int, den: int): (r: int)
    requires den > 0
    ensures den * (2 * r - 1) <= 2 * num < den * (2 * r + 1)
  {
    var q := (2 * num + den) / (2 * den);
    var m := (2 * num + den) % (2 * den);
    assert 2 * num + den == 2 * den * q + m && 0 <= m < 2 * den;
    assert den * (2 * q - 1) == 2 * den * q - den;
    assert den * (2 * q + 1) == 2 * den * q + den;
    q
  }

  lemma {:induction false} CancelFactor(a: int, b: int, d: int)
    requires d > 0 && a * d <= b * d
    ensures a <= b
  {
  }

  /** Rounding is monotone in its bounds: a value between `lo` and `hi` times `den` rounds into `[lo, hi]`. */
  lemma {:induction false} RoundHalfUpBetween(num: int, den: int, lo: int, hi: int)
    requires den > 0 && lo * den <= num <= hi * den
    ensures lo <= RoundHalfUp(num, den) <= hi
  {
    var r := RoundHalfUp(num, den);
    var below, above := den * (2 * r - 1), den * (2 * r + 1);
    assert below <= 2 * num < above;
    assert (2 * hi) * den == 2 * (hi * den) && (2 * lo) * den == 2 * (lo * den);
    assert (2 * r - 1) * den == below && (2 * r + 1) * den == above;
    CancelFactor(2 * r - 1, 2 * hi, den);
    CancelFactor(2 * lo, 2 * r + 1, den);
  }

  function RatingOf(r: Review): int { r.rating }
  function DifficultyOf(r: Review): int { r.difficulty }
  function YesOf(r: Review): int { if r.wouldTakeAgain then 1 else 0 }

  /** `reviews.reduce((sum, r) => sum + f(r), 0)`. */
  function SumOf(reviews: seq<Review>, f: Review -> int): int
  {
    if |reviews| == 0 then 0 else SumOf(reviews[..|reviews| - 1], f) + f(reviews[|reviews| - 1])
  }

  /**
   * The recomputation for a non-empty list of reviews: the averages times
   * ten and the yes-share times a hundred, each rounded half up, and the
   * number of reviews.
   */
  function MeanAggregates(reviews: seq<Review>): (a: Aggregate)
    requires |reviews| > 0
    ensures var n := |reviews|;
      && n * (2 * a.averageRatingTenths - 1) <= 20 * SumOf(reviews, RatingOf) < n * (2 * a.averageRatingTenths + 1)
      && n * (2 * a.difficultyRatingTenths - 1) <= 20 * SumOf(reviews, DifficultyOf) < n * (2 * a.difficultyRatingTenths + 1)
      && n * (2 * a.wouldTakeAgainPercent - 1) <= 200 * SumOf(reviews, YesOf) < n * (2 * a.wouldTakeAgainPercent + 1)
      && a.totalReviews == n
  {
    var n := |reviews|;
    Aggregate(
      RoundHalfUp(10 * SumOf(reviews, RatingOf), n),
      RoundHalfUp(10 * SumOf(reviews, DifficultyOf), n),
      RoundHalfUp(100 * SumOf(reviews, YesOf), n),
      n)
  }

  /** Every value `f` takes on the list lies in `[lo, hi]`. */
  ghost predicate AllBetween(reviews: seq<Review>, f: Review -> int, lo: int, hi: int)
  {
    forall i | 0 <= i < |reviews| :: lo <= f(reviews[i]) <= hi
  }

  lemma {:induction false} SumOfBetween(reviews: seq<Review>, f: Review -> int, lo: int, hi: int)
    requires AllBetween(reviews, f, lo, hi)
    ensures |reviews| * lo <= SumOf(reviews, f) <= |reviews| * hi
    decreases |reviews|
  {
    if |reviews| > 0 {
      var n := |reviews| - 1;
      SumOfBetween(reviews[..n], f, lo, hi);
      assert |reviews| * lo == n * lo + lo && |reviews| * hi == n * hi + hi;
    }
  }

  /**
   * With ratings and difficulties from 1 to 5, as the form's controls
   * allow, both averages lie between 1.0 and 5.0 and the percentage between
   * 0 and 100; the count is the number of reviews.
   */
  lemma {:induction false} AggregateBounds(reviews: seq<Review>)
    requires |reviews| > 0
    requires AllBetween(reviews, RatingOf, 1, 5) && AllBetween(reviews, DifficultyOf, 1, 5)
    ensures var a := MeanAggregates(reviews);
      && 10 <= a.averageRatingTenths <= 50
      && 10 <= a.difficultyRatingTenths <= 50
      && 0 <= a.wouldTakeAgainPercent <= 100
      && a.totalReviews == |reviews|
  {
    var n := |reviews|;
    SumOfBetween(reviews, RatingOf, 1, 5);
    SumOfBetween(reviews, DifficultyOf, 1, 5);
    SumOfBetween(reviews, YesOf, 0, 1);
    RoundHalfUpBetween(10 * SumOf(reviews, RatingOf), n, 10, 50);
    RoundHalfUpBetween(10 * SumOf(reviews, DifficultyOf), n, 10, 50);
    RoundHalfUpBetween(100 * SumOf(reviews, YesOf), n, 0, 100);
  }

  lemma {:induction false} SumOfAppend(s: seq<Review>, t: seq<Review>, f: Review -> int)
    ensures SumOf(s + t, f) == SumOf(s, f) + SumOf(t, f)
    decreases |t|
  {
    if |t| == 0 {
      assert s + t == s;
    } else {
      var n := |t| - 1;
      assert (s + t)[..|s + t| - 1] == s + t[..n];
      SumOfAppend(s, t[..n], f);
    }
  }

  lemma {:induction false} SumOfSingle(x: Review, f: Review -> int)
    ensures SumOf([x], f) == f(x)
  {
    assert [x][..0] == [];
  }

  lemma {:induction false} SumOfSplit(a: seq<Review>, x: Review, b: seq<Review>, f: Review -> int)
    ensures SumOf(a + [x] + b, f) == SumOf(a + b, f) + f(x)
  {
    SumOfAppend(a + [x], b, f);
    SumOfAppend(a, [x], f);
    SumOfAppend(a, b, f);
    SumOfSingle(x, f);
  }

  lemma {:induction false} SumOfRemove(s: seq<Review>, j: nat, f: Review -> int)
    requires j < |s|
    ensures SumOf(s, f) == SumOf(s[..j] + s[j + 1..], f) + f(s[j])
  {
    assert s == s[..j] + [s[j]] + s[j + 1..];
    SumOfSplit(s[..j], s[j], s[j + 1..], f);
  }

  /** A sum over reviews does not depend on the order the reviews arrive in. */
  lemma {:induction false} SumOfPermutation(a: seq<Review>, b: seq<Review>, f: Review -> int)
    requires multiset(a) == multiset(b)
    ensures SumOf(a, f) == SumOf(b, f)
    decreases |a|
  {
    if |a| > 0 {
      var n := |a| - 1;
      var x := a[n];
      assert a == a[..n] + [x];
      assert x in multiset(b);
      var j :| 0 <= j < |b| && b[j] == x;
      assert b == b[..j] + [x] + b[j + 1..];
      assert multiset(b) == multiset(b[..j] + b[j + 1..]) + multiset{x} by {
        assert multiset(b) == multiset(b[..j]) + multiset{x} + multiset(b[j + 1..]);
      }
      assert multiset(a) == multiset(a[..n]) + multiset{x};
      assert multiset(a[..n]) == multiset(a) - multiset{x};
      assert multiset(b[..j] + b[j + 1..]) == multiset(b) - multiset{x};
      SumOfPermutation(a[..n], b[..j] + b[j + 1..], f);
      SumOfRemove(b, j, f);
    } else {
      assert |b| == |multiset(b)| == 0;
    }
  }

  /** The recomputed aggregates depend only on which reviews there are, not on the order the query returns them in. */
  lemma {:induction false} MeanAggregatesOrderFree(a: seq<Review>, b: seq<Review>)
    requires |a| > 0 && multiset(a) == multiset(b)
    ensures |b| > 0 && MeanAggregates(a) == MeanAggregates(b)
  {
    assert |a| == |multiset(a)| == |multiset(b)| == |b|;
    SumOfPermutation(a, b, RatingOf);
    SumOfPermutation(a, b, DifficultyOf);
    SumOfPermutation(a, b, YesOf);
  }

  /** Ratings 4, 5, 3, difficulties 2, 3, 2 and two of three would take again give 4.0, 2.3, 67 % and 3 reviews. */
  lemma {:induction false} MeanAggregatesExample(reviews: seq<Review>)
    requires |reviews| == 3
    requires reviews[0].rating == 4 && reviews[1].rating == 5 && reviews[2].rating == 3
    requires reviews[0].difficulty == 2 && reviews[1].difficulty == 3 && reviews[2].difficulty == 2
    requires reviews[0].wouldTakeAgain && reviews[1].wouldTakeAgain && !reviews[2].wouldTakeAgain
    ensures MeanAggregates(reviews) == Aggregate(40, 23, 67, 3)
  {
    var r1, r2 := reviews[..1], reviews[..2];
    assert r1[..0] == [] && r2[..1] == r1 && reviews[..|reviews| - 1] == r2;
    assert SumOf(r1, RatingOf) == 4 && SumOf(r2, RatingOf) == 9;
    assert SumOf(r1, DifficultyOf) == 2 && SumOf(r2, DifficultyOf) == 5;
    assert SumOf(r1, YesOf) == 1 && SumOf(r2, YesOf) == 2;
    assert SumOf(reviews, RatingOf) == 12;
    assert SumOf(reviews, DifficultyOf) == 7;
    assert SumOf(reviews, YesOf) == 2;
  }
}
