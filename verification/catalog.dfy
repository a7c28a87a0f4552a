/**
 The student-side course filter `filter_courses` of Siri.py: a course record is
 dropped as soon as one of the active criteria fails; the rest are returned in
 their original order.
 */
module Catalog {
  import opened Text
  import opened Seqs

  /** One row of the course catalogue. The rating is already numeric. */
  datatype Course = Course(
    courseId: string,
    title: string,
    category: string,
    difficulty: string,
    rating: real)

  /** The difficulty value that switches the difficulty criterion off. */
  const AnyDifficulty: string := "All"

  /** The arguments of `filter_courses` after the list of courses. An empty
      string or a zero minimum rating leaves its criterion inactive. */
  datatype Criteria = Criteria(
    courseId: string,
    title: string,
    category: string,
    difficulty: string,
    minRating: real)

  /** The criteria that let every course through. */
  const NoCriteria: Criteria := Criteria("", "", "", AnyDifficulty, 0.0)

  /** The course id criterion: a case-sensitive substring of the course's id. */
  predicate IdMatches(crit: Criteria, c: Course) {
    crit.courseId != "" ==> Contains(c.courseId, crit.courseId)
  }

  /** The title criterion: a case-insensitive substring of the course's title. */
  predicate TitleMatches(crit: Criteria, c: Course) {
    crit.title != "" ==> ContainsIgnoringCase(c.title, crit.title)
  }

  /** The category criterion: a case-insensitive substring of the course's category. */
  predicate CategoryMatches(crit: Criteria, c: Course) {
    crit.category != "" ==> ContainsIgnoringCase(c.category, crit.category)
  }

  /** The difficulty criterion: equality, unless the filter is "All". */
  predicate DifficultyMatches(crit: Criteria, c: Course) {
    crit.difficulty != AnyDifficulty ==> crit.difficulty == c.difficulty
  }

  /** The rating criterion: at least the minimum, unless the minimum is zero. */
  predicate RatingMatches(crit: Criteria, c: Course) {
    crit.minRating != 0.0 ==> c.rating >= crit.minRating
  }

  /** A course meets every active criterion. */
  predicate Admits(crit: Criteria, c: Course) {
    && IdMatches(crit, c)
    && TitleMatches(crit, c)
    && CategoryMatches(crit, c)
    && DifficultyMatches(crit, c)
    && RatingMatches(crit, c)
  }

  /** `filter_courses`: the courses that meet every active criterion, each
      occurrence kept, in input order. */
  function FilterCourses(courses: seq<Course>, crit: Criteria): (r: seq<Course>)
    ensures IsSubsequence(r, courses)
    ensures forall c :: c in r <==> c in courses && Admits(crit, c)
    ensures forall c :: multiset(r)[c] == if Admits(crit, c) then multiset(courses)[c] else 0
  {
    var admitted := c => Admits(crit, c);
    KeepIsSubsequence(courses, admitted);
    KeepCounts(courses, admitted);
    Keep(courses, admitted)
  }

  /** The loop of `filter_courses` as written: skip a course when one active
      criterion fails, otherwise append it. It computes `FilterCourses`. */
  method FilterCoursesLoop(courses: seq<Course>, crit: Criteria) returns (r: seq<Course>)
    ensures r == FilterCourses(courses, crit)
  {
    r := [];
    for i := 0 to |courses|
      invariant r == FilterCourses(courses[..i], crit)
    {
      var c := courses[i];
      assert courses[..i + 1][..i] == courses[..i];
      if || (crit.courseId != "" && !Contains(c.courseId, crit.courseId))
         || (crit.title != "" && !Contains(Lower(c.title), Lower(crit.title)))
         || (crit.category != "" && !Contains(Lower(c.category), Lower(crit.category)))
         || (crit.difficulty != AnyDifficulty && crit.difficulty != c.difficulty)
         || (crit.minRating != 0.0 && c.rating < crit.minRating)
      {
        continue;
      }
      r := r + [c];
    }
    assert courses[..|courses|] == courses;
  }

  /** With every criterion inactive the filter returns its input unchanged. */
  lemma FilterWithoutCriteria(courses: seq<Course>)
    ensures FilterCourses(courses, NoCriteria) == courses
  {
    KeepAll(courses, c => Admits(NoCriteria, c));
  }

  /** Filtering is idempotent: the filtered list already meets the criteria. */
  lemma FilterTwice(courses: seq<Course>, crit: Criteria)
    ensures FilterCourses(FilterCourses(courses, crit), crit) == FilterCourses(courses, crit)
  {
    var once := FilterCourses(courses, crit);
    KeepAll(once, c => Admits(crit, c));
  }
}
