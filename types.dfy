/**
 * The records the core reads and writes (departments, courses, professors,
 * reviews, and the review form). Identifiers are strings. The four professor
 * aggregates are integers: ratings in tenths, the percentage as a whole
 * number.
 */
module Types {
  import opened Base
  import opened Seqs

  datatype Department = Department(id: string, name: string, code: string)

  datatype Course = Course(id: string, code: string, name: string, departmentId: string)

  datatype Professor = Professor(
    id: string,
    name: string,
    departmentId: string,
    title: string,
    averageRatingTenths: int,
    totalReviews: int,
    wouldTakeAgainPercent: int,
    difficultyRatingTenths: int)

  /** A stored review, with the professor row a query may embed in it. */
  datatype Review = Review(
    id: string,
    professorId: string,
    userId: string,
    courseId: string,
    rating: int,
    difficulty: int,
    wouldTakeAgain: bool,
    forCredit: bool,
    attendanceMandatory: bool,
    gradeReceived: string,
    comment: string,
    professor: Option<Professor>)

  /** The review form's record, before it is stored. */
  datatype NewReview = NewReview(
    professorId: string,
    courseId: string,
    rating: int,
    difficulty: int,
    wouldTakeAgain: bool,
    forCredit: bool,
    attendanceMandatory: bool,
    gradeReceived: string,
    comment: string)

  function DeptName(d: Department): string
  {
    d.name
  }

  /**
   * `deptMap.get(name)` for the map `new Map(departments.map(d => [d.name, d.id]))`
   * (a later department with the same name overwrites an earlier one), where
   * an empty id counts as missing, as in `if (!departmentId)`.
   */
  function DepartmentId(depts: seq<Department>, name: string): (r: Option<string>)
    ensures r.Some? ==> r.value != "" && exists i | 0 <= i < |depts| ::
      && depts[i].name == name && depts[i].id == r.value
      && forall j | i < j < |depts| :: depts[j].name != name
    ensures (forall j | 0 <= j < |depts| :: depts[j].name != name) ==> r.None?
    ensures forall i | 0 <= i < |depts| && depts[i].name == name && (forall j | i < j < |depts| :: depts[j].name != name) ::
      r == (if depts[i].id == "" then None else Some(depts[i].id))
  {
    match LastIndexOfKey(depts, DeptName, name)
    case Some(i) => if depts[i].id == "" then None else Some(depts[i].id)
    case None => None
  }
}
