/**
 * The review form (`src/components/ReviewFormModal.tsx`): the form record
 * and its controls, the course list offered for the professor, and the
 * submit handler, which checks the form, inserts the review and recomputes
 * the professor's aggregates.
 */
module ReviewFormModal {
  import opened Base
  import opened Text
  import opened Types
  import opened Aggregates

  const SignInMessage := "You must be signed in to submit a review"
  const RequiredMessage := "Please fill in all required fields. Comment must be at least 20 characters."
  const AlreadyReviewedMessage := "You have already reviewed this professor for this course"
  const FailedMessage := "Failed to submit review. Please try again."

  /** The database's unique-violation error code. */
  const UniqueViolation := "23505"

  /** The least comment length accepted, in UTF-16 code units. */
  const MinCommentLength: nat := 20

  /** The form as it opens: nothing chosen, both yes/no answers at their defaults. */
  function InitialForm(professorId: string): (f: NewReview)
    ensures f.professorId == professorId && !IsComplete(f)
  {
    NewReview(professorId, "", 0, 0, true, true, false, "", "")
  }

  /** The required fields are filled: a rating, a difficulty, a course and a long enough comment. */
  predicate IsComplete(form: NewReview)
  {
    form.rating != 0 && form.difficulty != 0 && form.courseId != "" && Utf16Length(form.comment) >= MinCommentLength
  }

  /** The message the submit guards show, or `None` when the submit goes ahead. */
  function SubmitError(signedIn: bool, form: NewReview): (r: Option<string>)
    ensures r.None? <==> signedIn && IsComplete(form)
    ensures !signedIn ==> r == Some(SignInMessage)
    ensures signedIn && !IsComplete(form) ==> r == Some(RequiredMessage)
  {
    if !signedIn then Some(SignInMessage)
    else if form.rating == 0 || form.difficulty == 0 || form.courseId == "" || Utf16Length(form.comment) < MinCommentLength
    then Some(RequiredMessage)
    else None
  }

  /** A form submitted untouched is refused: it has neither rating, difficulty, course nor comment. */
  lemma {:induction false} InitialFormRejected(professorId: string)
    ensures SubmitError(true, InitialForm(professorId)) == Some(RequiredMessage)
    ensures SubmitError(false, InitialForm(professorId)) == Some(SignInMessage)
  {
  }

  /** The courses of the table whose department is one of the professor's. */
  function CoursesIn(table: seq<Course>, departmentIds: seq<string>): (r: seq<Course>)
    ensures forall c :: c in r <==> c in table && c.departmentId in departmentIds
    ensures |r| <= |table|
  {
    if |table| == 0 then []
    else
      var c := table[|table| - 1];
      assert forall d :: d in table <==> d in table[..|table| - 1] || d == c;
      CoursesIn(table[..|table| - 1], departmentIds) + (if c.departmentId in departmentIds then [c] else [])
  }

  /** What the review insert answers: success, or an error with its code. */
  datatype InsertReply = InsertOk | InsertFailed(code: string)

  /** The row sent to the review table: the form plus the signed-in user. */
  datatype ReviewInsert = ReviewInsert(form: NewReview, userId: string)

  /**
   * The professor write after an insert: none when the review query answers
   * `null`, the recomputed aggregates otherwise (averages of no reviews are
   * `NaN`, stored as `null`).
   */
  function AfterInsertUpdate(reviews: Option<seq<Review>>): (u: ProfessorUpdate)
    ensures u.NoUpdate? <==> reviews.None?
    ensures u.SetAggregates? ==> u.aggregate.totalReviews == |reviews.value| > 0
    ensures reviews.Some? && |reviews.value| > 0 ==> u == SetAggregates(MeanAggregates(reviews.value))
    ensures reviews.Some? && |reviews.value| == 0 ==> u == SetNullAverages
  {
    match reviews
    case None => NoUpdate
    case Some(rs) => if |rs| == 0 then SetNullAverages else SetAggregates(MeanAggregates(rs))
  }

  class ReviewForm {
    const professorId: string
    var formData: NewReview
    var courses: seq<Course>
    var submitting: bool
    var error: string
    /** Whether the parent's `onSubmit` has been called. */
    var submitted: bool

    /** The form is about this professor and its two scales hold 0 (unset) to 5. */
    ghost predicate Valid()
      reads this
    {
      formData.professorId == professorId
      && 0 <= formData.rating <= 5 && 0 <= formData.difficulty <= 5
    }

    constructor(professorId: string)
      ensures Valid()
      ensures this.professorId == professorId && formData == InitialForm(professorId)
      ensures courses == [] && !submitting && error == "" && !submitted
    {
      this.professorId := professorId;
      formData := InitialForm(professorId);
      courses, submitting, error, submitted := [], false, "", false;
    }

    method SetCourse(courseId: string)
      requires Valid()
      modifies this
      ensures Valid() && formData == old(formData).(courseId := courseId)
      ensures courses == old(courses) && submitting == old(submitting) && error == old(error) && submitted == old(submitted)
    {
      formData := formData.(courseId := courseId);
    }

    /** A star button: one of 1 to 5. */
    method SetRating(star: int)
      requires Valid() && 1 <= star <= 5
      modifies this
      ensures Valid() && formData == old(formData).(rating := star)
      ensures courses == old(courses) && submitting == old(submitting) && error == old(error) && submitted == old(submitted)
    {
      formData := formData.(rating := star);
    }

    /** A difficulty button: one of 1 to 5. */
    method SetDifficulty(level: int)
      requires Valid() && 1 <= level <= 5
      modifies this
      ensures Valid() && formData == old(formData).(difficulty := level)
      ensures courses == old(courses) && submitting == old(submitting) && error == old(error) && submitted == old(submitted)
    {
      formData := formData.(difficulty := level);
    }

    method SetWouldTakeAgain(answer: bool)
      requires Valid()
      modifies this
      ensures Valid() && formData == old(formData).(wouldTakeAgain := answer)
      ensures courses == old(courses) && submitting == old(submitting) && error == old(error) && submitted == old(submitted)
    {
      formData := formData.(wouldTakeAgain := answer);
    }

    method SetGrade(grade: string)
      requires Valid()
      modifies this
      ensures Valid() && formData == old(formData).(gradeReceived := grade)
      ensures courses == old(courses) && submitting == old(submitting) && error == old(error) && submitted == old(submitted)
    {
      formData := formData.(gradeReceived := grade);
    }

    method SetForCredit(checked: bool)
      requires Valid()
      modifies this
      ensures Valid() && formData == old(formData).(forCredit := checked)
      ensures courses == old(courses) && submitting == old(submitting) && error == old(error) && submitted == old(submitted)
    {
      formData := formData.(forCredit := checked);
    }

    method SetAttendanceMandatory(checked: bool)
      requires Valid()
      modifies this
      ensures Valid() && formData == old(formData).(attendanceMandatory := checked)
      ensures courses == old(courses) && submitting == old(submitting) && error == old(error) && submitted == old(submitted)
    {
      formData := formData.(attendanceMandatory := checked);
    }

    method SetComment(comment: string)
      requires Valid()
      modifies this
      ensures Valid() && formData == old(formData).(comment := comment)
      ensures courses == old(courses) && submitting == old(submitting) && error == old(error) && submitted == old(submitted)
    {
      formData := formData.(comment := comment);
    }

    /**
     * Loads the courses offered: none when the professor has no department
     * links (or the link query answers `null`); otherwise the courses of
     * those departments, unless the course query fails, which leaves the
     * list as it was.
     */
    method LoadCourses(professorDepts: Option<seq<string>>, table: seq<Course>, queryFails: bool)
      requires Valid()
      modifies this
      ensures Valid() && formData == old(formData)
      ensures submitting == old(submitting) && error == old(error) && submitted == old(submitted)
      ensures professorDepts.None? || |professorDepts.value| == 0 ==> courses == []
      ensures professorDepts.Some? && |professorDepts.value| > 0 ==>
        courses == if queryFails then old(courses) else CoursesIn(table, professorDepts.value)
    {
      if professorDepts.None? || |professorDepts.value| == 0 {
        courses := [];
        return;
      }
      if !queryFails {
        courses := CoursesIn(table, professorDepts.value);
      }
    }

    /**
     * The submit handler. The guards refuse a signed-out user and an
     * incomplete form before anything is written; an insert error shows the
     * duplicate or the generic message; after a successful insert the
     * professor's reviews are read back, the aggregates written, and the
     * parent told.
     */
    method HandleSubmit(userId: Option<string>, reply: InsertReply, reviews: Option<seq<Review>>)
      returns (inserted: Option<ReviewInsert>, update: ProfessorUpdate)
      requires Valid()
      modifies this
      ensures Valid() && formData == old(formData) && courses == old(courses)
      ensures var refused := SubmitError(userId.Some?, old(formData));
        && (refused.Some? ==>
              inserted.None? && update.NoUpdate? && error == refused.value
              && submitting == old(submitting) && submitted == old(submitted))
        && (refused.None? ==> inserted == Some(ReviewInsert(old(formData), userId.value)) && !submitting)
        && (refused.None? && reply.InsertFailed? ==>
              update.NoUpdate? && submitted == old(submitted)
              && error == if reply.code == UniqueViolation then AlreadyReviewedMessage else FailedMessage)
        && (refused.None? && reply.InsertOk? ==>
              update == AfterInsertUpdate(reviews) && error == "" && submitted)
    {
      error := "";
      var refused := SubmitError(userId.Some?, formData);
      if refused.Some? {
        error := refused.value;
        return None, NoUpdate;
      }
      submitting := true;
      inserted := Some(ReviewInsert(formData, userId.value));
      if reply.InsertFailed? {
        if reply.code == UniqueViolation {
          error := AlreadyReviewedMessage;
        } else {
          error := FailedMessage;
        }
        submitting := false;
        return inserted, NoUpdate;
      }
      update := AfterInsertUpdate(reviews);
      submitting := false;
      submitted := true;
    }
  }

  /**
   * A form filled in through the controls and then submitted by a signed-in
   * user is inserted, with a rating and difficulty from 1 to 5.
   */
  method FillAndSubmit(professorId: string, userId: string, courseId: string, star: int, level: int, comment: string)
    returns (inserted: Option<ReviewInsert>)
    requires 1 <= star <= 5 && 1 <= level <= 5 && courseId != "" && |comment| >= MinCommentLength
    ensures inserted.Some? && inserted.value.userId == userId
    ensures inserted.value.form.professorId == professorId && inserted.value.form.courseId == courseId
    ensures inserted.value.form.rating == star && inserted.value.form.difficulty == level
  {
    var form := new ReviewForm(professorId);
    form.SetCourse(courseId);
    form.SetRating(star);
    form.SetDifficulty(level);
    form.SetComment(comment);
    var update;
    inserted, update := form.HandleSubmit(Some(userId), InsertOk, None);
  }
}
