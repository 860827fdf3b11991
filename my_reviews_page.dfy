/**
 * The "my reviews" page (`src/pages/MyReviewsPage.tsx`): the signed-in
 * user's reviews and their deletion, which recomputes the professor's
 * aggregates from the reviews that remain.
 */
module MyReviewsPage {
  import opened Base
  import opened Seqs
  import opened Types
  import opened Aggregates

  /** The test the list is filtered with: `r.id !== reviewId`. */
  function OtherThan(reviewId: string): Review -> bool
  {
    (r: Review) => r.id != reviewId
  }

  /** The reviews other than those with id `reviewId`, each once and in their order. */
  function WithoutReview(reviews: seq<Review>, reviewId: string): (r: seq<Review>)
    ensures forall x :: x in r <==> x in reviews && x.id != reviewId
    ensures |r| <= |reviews|
    ensures (forall i | 0 <= i < |reviews| :: reviews[i].id != reviewId) ==> r == reviews
    ensures exists idx :: IndexesKept(reviews, OtherThan(reviewId), Id, r, idx)
  {
    FilterMapSpec(reviews, OtherThan(reviewId), Id);
    OtherThanKept(reviews, reviewId);
    OtherThanNoneDropped(reviews, reviewId);
    FilterMap(reviews, OtherThan(reviewId), Id)
  }

  /** Filtering with `OtherThan` keeps exactly the reviews with another id. */
  lemma {:induction false} OtherThanKept(reviews: seq<Review>, reviewId: string)
    ensures forall x :: x in FilterMap(reviews, OtherThan(reviewId), Id) <==> x in reviews && x.id != reviewId
  {
    var keep := OtherThan(reviewId);
    var r := FilterMap(reviews, keep, Id);
    FilterMapSpec(reviews, keep, Id);
    forall x
      ensures x in r <==> x in reviews && x.id != reviewId
    {
      if x in r {
        var y :| y in reviews && keep(y) && Id(y) == x;
      }
      if x in reviews && x.id != reviewId {
        assert keep(x);
      }
    }
  }

  /** Filtering with `OtherThan` changes nothing when no review has that id. */
  lemma {:induction false} OtherThanNoneDropped(reviews: seq<Review>, reviewId: string)
    ensures (forall i | 0 <= i < |reviews| :: reviews[i].id != reviewId) ==> FilterMap(reviews, OtherThan(reviewId), Id) == reviews
  {
    var keep := OtherThan(reviewId);
    FilterMapAll(reviews, keep, Id);
    if forall i | 0 <= i < |reviews| :: reviews[i].id != reviewId {
      assert forall i | 0 <= i < |reviews| :: keep(reviews[i]);
    }
  }

  /**
   * The professor write after a delete: the recomputed aggregates when
   * reviews remain, all four fields zero otherwise, including when the
   * query for the remaining reviews answers `null`.
   */
  function AfterDeleteUpdate(remaining: Option<seq<Review>>): (u: ProfessorUpdate)
    ensures u.SetAggregates?
    ensures u.aggregate.totalReviews == 0 <==> remaining.None? || |remaining.value| == 0
    ensures u.aggregate.totalReviews == 0 ==> u.aggregate == NoReviews
    ensures remaining.Some? && |remaining.value| > 0 ==> u == SetAggregates(MeanAggregates(remaining.value))
  {
    if remaining.Some? && |remaining.value| > 0 then SetAggregates(MeanAggregates(remaining.value))
    else SetAggregates(NoReviews)
  }

  class ReviewsPage {
    var reviews: seq<Review>
    /** The id of the review being deleted, if any. */
    var deletingId: Option<string>

    constructor(loaded: seq<Review>)
      ensures reviews == loaded && deletingId.None?
    {
      reviews, deletingId := loaded, None;
    }

    /** The delete starts: the review is marked as being deleted. */
    method BeginDelete(reviewId: string)
      modifies this
      ensures deletingId == Some(reviewId) && reviews == old(reviews)
    {
      deletingId := Some(reviewId);
    }

    /**
     * The delete ends: a failed delete writes nothing and keeps the list;
     * otherwise the professor is recomputed and the review leaves the list.
     * Either way nothing is marked as being deleted any more.
     */
    method FinishDelete(reviewId: string, deleteFails: bool, remaining: Option<seq<Review>>)
      returns (update: ProfessorUpdate)
      modifies this
      ensures deletingId.None?
      ensures deleteFails ==> update.NoUpdate? && reviews == old(reviews)
      ensures !deleteFails ==> update == AfterDeleteUpdate(remaining) && reviews == WithoutReview(old(reviews), reviewId)
    {
      update := NoUpdate;
      if !deleteFails {
        update := AfterDeleteUpdate(remaining);
        reviews := WithoutReview(reviews, reviewId);
      }
      deletingId := None;
    }

    /** The delete handler: nothing happens unless the user confirms. */
    method HandleDelete(reviewId: string, confirmed: bool, deleteFails: bool, remaining: Option<seq<Review>>)
      returns (update: ProfessorUpdate)
      modifies this
      ensures !confirmed ==> update.NoUpdate? && reviews == old(reviews) && deletingId == old(deletingId)
      ensures confirmed ==> deletingId.None?
      ensures confirmed && deleteFails ==> update.NoUpdate? && reviews == old(reviews)
      ensures confirmed && !deleteFails ==>
        update == AfterDeleteUpdate(remaining) && reviews == WithoutReview(old(reviews), reviewId)
    {
      if !confirmed {
        return NoUpdate;
      }
      BeginDelete(reviewId);
      update := FinishDelete(reviewId, deleteFails, remaining);
    }
  }

  /** Removing a review twice removes nothing more. */
  lemma {:induction false} WithoutReviewIdempotent(reviews: seq<Review>, reviewId: string)
    ensures WithoutReview(WithoutReview(reviews, reviewId), reviewId) == WithoutReview(reviews, reviewId)
  {
    var r := WithoutReview(reviews, reviewId);
    assert forall i | 0 <= i < |r| :: r[i] in r;
  }

  /**
   * Deleting one review of a professor and recomputing over the rest gives
   * the same aggregates whichever order the remaining reviews come in.
   */
  lemma {:induction false} AfterDeleteOrderFree(a: seq<Review>, b: seq<Review>)
    requires multiset(a) == multiset(b)
    ensures AfterDeleteUpdate(Some(a)) == AfterDeleteUpdate(Some(b))
  {
    assert |a| == |multiset(a)| == |multiset(b)| == |b|;
    if |a| > 0 {
      MeanAggregatesOrderFree(a, b);
    }
  }
}
