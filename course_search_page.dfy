/**
 * The course search page (`src/pages/CourseSearchPage.tsx`): the search
 * result list with its single-result redirect, and the per-professor view of
 * a selected course's reviews, which the page never reaches because nothing
 * ever sets the selected course.
 */
module CourseSearchPage {
  import opened Base
  import opened Seqs
  import opened Types

  /** A professor together with the reviews of the selected course that name them. */
  datatype ProfessorWithReviews = ProfessorWithReviews(professor: Professor, reviews: seq<Review>)

  /** Whether a review embeds its professor (`review.professor` is set). */
  predicate HasProfessor(r: Review) { r.professor.Some? }

  /** The reviews that embed their professor, each once and in input order. */
  function WithProfessor(reviews: seq<Review>): (r: seq<Review>)
    ensures forall x :: x in r <==> x in reviews && x.professor.Some?
    ensures |r| <= |reviews|
    ensures |r| == |reviews| <==> forall i | 0 <= i < |reviews| :: reviews[i].professor.Some?
    ensures exists idx :: IndexesKept(reviews, HasProfessor, Id, r, idx)
  {
    FilterMapSpec(reviews, HasProfessor, Id);
    FilterMapAll(reviews, HasProfessor, Id);
    FilterMap(reviews, HasProfessor, Id)
  }

  lemma {:induction false} WithProfessorSnoc(s: seq<Review>, x: Review)
    ensures WithProfessor(s + [x]) == WithProfessor(s) + (if x.professor.Some? then [x] else [])
  {
    FilterMapSnoc(s, x, HasProfessor, Id);
  }

  /** One more review read: the kept reviews grow by it when it embeds a professor. */
  lemma {:induction false} WithProfessorStep(reviews: seq<Review>, k: nat)
    requires k < |reviews|
    ensures WithProfessor(reviews[..k + 1])
            == WithProfessor(reviews[..k]) + (if reviews[k].professor.Some? then [reviews[k]] else [])
  {
    assert reviews[..k + 1] == reviews[..k] + [reviews[k]];
    WithProfessorSnoc(reviews[..k], reviews[k]);
  }

  /** The key the view groups by: the embedded professor's id. */
  function EmbeddedProfessorId(r: Review): string
  {
    if r.professor.Some? then r.professor.value.id else ""
  }

  /**
   * The map's values as two aligned lists: entry `i` is keyed by the id of
   * professor `i`, and that professor is the one its first review embeds
   * (the copy made when the entry was opened).
   */
  predicate EntriesMatch(entries: seq<Group<string, Review>>, professors: seq<Professor>)
  {
    && |professors| == |entries|
    && forall i | 0 <= i < |entries| ::
      && |entries[i].members| > 0
      && entries[i].members[0].professor == Some(professors[i])
      && entries[i].key == professors[i].id
  }

  /**
   * One step of the `forEach`: the entry of the review's professor is
   * opened if missing (with a copy of the embedded professor), and the
   * review is pushed onto it.
   */
  method AddReview(entries: seq<Group<string, Review>>, professors: seq<Professor>, review: Review)
    returns (entries': seq<Group<string, Review>>, professors': seq<Professor>)
    requires review.professor.Some? && EntriesMatch(entries, professors)
    ensures entries' == AddToGroup(entries, EmbeddedProfessorId(review), review)
    ensures EntriesMatch(entries', professors')
    ensures professors'[..|professors|] == professors
  {
    var profId := review.professor.value.id;
    entries', professors' := entries, professors;
    var i := FindGroup(entries', profId);
    if i == |entries'| {
      entries' := entries' + [Group(profId, [])];
      professors' := professors' + [review.professor.value];
    }
    entries' := entries'[i := Group(profId, entries'[i].members + [review])];
    if i == |entries| {
      assert [] + [review] == [review];
      assert entries' == entries + [Group(profId, [review])];
    } else {
      assert entries'[i].members[0] == entries[i].members[0];
    }
  }

  /** `Array.from(professorMap.values())`: each professor with their reviews, in entry order. */
  function MapValues(entries: seq<Group<string, Review>>, professors: seq<Professor>): (r: seq<ProfessorWithReviews>)
    requires |professors| == |entries|
    ensures |r| == |entries|
    ensures forall i | 0 <= i < |entries| :: r[i] == ProfessorWithReviews(professors[i], entries[i].members)
  {
    seq(|entries|, i requires 0 <= i < |entries| => ProfessorWithReviews(professors[i], entries[i].members))
  }

  /**
   * `loadCourseProfessors` on a successful query: reviews without a
   * professor are passed over, and the others are grouped under their
   * professor in first-seen order.
   */
  method LoadCourseProfessors(reviews: seq<Review>) returns (professorData: seq<ProfessorWithReviews>)
    ensures var gs := GroupBy(WithProfessor(reviews), EmbeddedProfessorId);
      && |professorData| == |gs|
      && forall i | 0 <= i < |gs| ::
        && professorData[i].reviews == gs[i].members
        && |gs[i].members| > 0 && gs[i].members[0].professor == Some(professorData[i].professor)
        && professorData[i].professor.id == gs[i].key
  {
    var entries: seq<Group<string, Review>> := [];
    var professors: seq<Professor> := [];
    ghost var kept: seq<Review> := [];
    for k := 0 to |reviews|
      invariant kept == WithProfessor(reviews[..k])
      invariant entries == GroupBy(kept, EmbeddedProfessorId)
      invariant EntriesMatch(entries, professors)
    {
      var review := reviews[k];
      WithProfessorStep(reviews, k);
      if review.professor.Some? {
        GroupBySnoc(kept, review, EmbeddedProfessorId);
        entries, professors := AddReview(entries, professors, review);
        kept := kept + [review];
      } else {
        assert kept + [] == kept;
      }
    }
    assert reviews[..|reviews|] == reviews;
    professorData := MapValues(entries, professors);
  }

  /**
   * The view holds each review that embeds a professor exactly once, under
   * that professor, so it shows at most as many reviews as the query
   * returned, and all of them when every review embeds its professor.
   */
  lemma {:induction false} GroupedReviewCount(reviews: seq<Review>)
    ensures var gs := GroupBy(WithProfessor(reviews), EmbeddedProfessorId);
      && TotalSize(gs) <= |reviews|
      && (TotalSize(gs) == |reviews| <==> forall i | 0 <= i < |reviews| :: reviews[i].professor.Some?)
      && forall i | 0 <= i < |gs| :: gs[i].members == FilterKey(WithProfessor(reviews), EmbeddedProfessorId, gs[i].key)
  {
    GroupByTotal(WithProfessor(reviews), EmbeddedProfessorId);
    GroupByMembers(WithProfessor(reviews), EmbeddedProfessorId);
  }

  /** The word after a professor's review count. */
  function ReviewLabel(count: nat): (word: string)
    ensures word == "review" <==> count == 1
    ensures word == "reviews" <==> count != 1
  {
    if count == 1 then "review" else "reviews"
  }

  /** The page: the courses found, and the selected course, which nothing ever sets. */
  class CourseSearch {
    var courses: seq<Course>
    const selectedCourse: Option<Course>
    var loading: bool

    constructor()
      ensures courses == [] && selectedCourse.None? && loading
    {
      courses, selectedCourse, loading := [], None, true;
    }

    /**
     * Stores the search result and, when it holds exactly one course,
     * redirects to that course's profile (the redirect names its code); a
     * failed search changes nothing but the loading flag.
     */
    method SearchCourses(answer: Option<seq<Course>>) returns (redirect: Option<string>)
      modifies this
      ensures !loading
      ensures answer.None? ==> courses == old(courses) && redirect.None?
      ensures answer.Some? ==> courses == answer.value
      ensures redirect.Some? <==> answer.Some? && |answer.value| == 1
      ensures redirect.Some? ==> redirect.value == answer.value[0].code
    {
      loading := true;
      redirect := None;
      if answer.Some? {
        courses := answer.value;
        if |answer.value| == 1 {
          redirect := Some(answer.value[0].code);
        }
      }
      loading := false;
    }
  }
}
