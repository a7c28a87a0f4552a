/**
 The admin panel's course management in Siri.py, with the DataFrame read from
 the courses CSV taken as a sequence of course rows: deleting a course by id,
 and the chain of boolean masks that narrows the rows shown.
 */
module Admin {
  import opened Text
  import opened Seqs
  import opened Catalog

  /** The row mask `courses_df['course_id'] != course_id`. */
  predicate Survives(courseId: string, c: Course) {
    c.courseId != courseId
  }

  /** Deletes every row whose id is `courseId`; the other rows keep their order
      and multiplicity. */
  function DeleteCourse(rows: seq<Course>, courseId: string): (r: seq<Course>)
    ensures IsSubsequence(r, rows)
    ensures forall c: Course :: c in r ==> c.courseId != courseId
    ensures forall c: Course :: c.courseId != courseId ==> multiset(r)[c] == multiset(rows)[c]
  {
    var survives := (c: Course) => Survives(courseId, c);
    KeepIsSubsequence(rows, survives);
    KeepCounts(rows, survives);
    Keep(rows, survives)
  }

  /** Deleting an id no row carries leaves the table unchanged. */
  lemma DeleteAbsent(rows: seq<Course>, courseId: string)
    requires forall c: Course :: c in rows ==> c.courseId != courseId
    ensures DeleteCourse(rows, courseId) == rows
  {
    KeepAll(rows, (c: Course) => Survives(courseId, c));
  }

  /** Deleting the same id twice is deleting it once. */
  lemma DeleteTwice(rows: seq<Course>, courseId: string)
    ensures DeleteCourse(DeleteCourse(rows, courseId), courseId) == DeleteCourse(rows, courseId)
  {
    DeleteAbsent(DeleteCourse(rows, courseId), courseId);
  }

  /** The deletion removes exactly as many rows as carry the id. */
  lemma DeleteRemovesMatching(rows: seq<Course>, courseId: string)
    ensures |DeleteCourse(rows, courseId)| + |Keep(rows, (c: Course) => c.courseId == courseId)| == |rows|
  {
    KeepPartition(rows, (c: Course) => c.courseId == courseId, (c: Course) => Survives(courseId, c));
  }

  /** The category value that switches the admin category criterion off. */
  const AnyCategory: string := "All"

  /** The admin panel's filter inputs: an exact course id, a title pattern,
      a category and a difficulty chosen from fixed lists, and a minimum rating. */
  datatype AdminCriteria = AdminCriteria(
    courseId: string,
    title: string,
    category: string,
    difficulty: string,
    minRating: real)

  /** Applies a row mask when its input is active and keeps the rows otherwise. */
  function MaskIf(rows: seq<Course>, active: bool, mask: Course -> bool): seq<Course>
  {
    if active then Keep(rows, mask) else rows
  }

  /** The first `n` admin criteria, in the page's order, hold of a row. */
  predicate AdmitsUpTo(crit: AdminCriteria, n: nat, c: Course) {
    && (n >= 1 && crit.courseId != "" ==> c.courseId == crit.courseId)
    && (n >= 2 && crit.title != "" ==> ContainsIgnoringCase(c.title, crit.title))
    && (n >= 3 && crit.category != AnyCategory ==> c.category == crit.category)
    && (n >= 4 && crit.difficulty != AnyDifficulty ==> c.difficulty == crit.difficulty)
    && (n >= 5 && crit.minRating != 0.0 ==> c.rating >= crit.minRating)
  }

  /** A row meets every active admin criterion. */
  predicate AdminAdmits(crit: AdminCriteria, c: Course) {
    AdmitsUpTo(crit, 5, c)
  }


  /** The mask chain of the admin panel, one stage per input, in the page's order. */
  function AdminFilter(rows: seq<Course>, crit: AdminCriteria): (r: seq<Course>)
    ensures forall c: Course :: c in r <==> c in rows && AdminAdmits(crit, c)
  {
    var byId := MaskIf(rows, crit.courseId != "", (c: Course) => c.courseId == crit.courseId);
    var byTitle := MaskIf(byId, crit.title != "", (c: Course) => ContainsIgnoringCase(c.title, crit.title));
    var byCategory := MaskIf(byTitle, crit.category != AnyCategory, (c: Course) => c.category == crit.category);
    var byDifficulty := MaskIf(byCategory, crit.difficulty != AnyDifficulty, (c: Course) => c.difficulty == crit.difficulty);
    MaskIf(byDifficulty, crit.minRating != 0.0, (c: Course) => c.rating >= crit.minRating)
  }

  /** A guarded stage is one mask: `mask` when its input is active, a mask
      that keeps every row otherwise. */
  lemma MaskIfIsKeep(rows: seq<Course>, active: bool, mask: Course -> bool, stage: Course -> bool)
    requires forall c: Course :: stage(c) == (!active || mask(c))
    ensures MaskIf(rows, active, mask) == Keep(rows, stage)
  {
  }

  /** One more mask stage after a selection is a selection by the conjunction. */
  lemma MaskAfterKeep(rows: seq<Course>, acc: Course -> bool, active: bool, mask: Course -> bool,
                      acc': Course -> bool)
    requires forall c: Course :: acc'(c) == (acc(c) && (!active || mask(c)))
    ensures MaskIf(Keep(rows, acc), active, mask) == Keep(rows, acc')
  {
    var stage := (c: Course) => !active || mask(c);
    MaskIfIsKeep(Keep(rows, acc), active, mask, stage);
    KeepKeep(rows, acc, stage, acc');
  }

  /** The chain of masks is one mask by the conjunction of the active criteria:
      the rows shown are the admitted ones, each occurrence kept, in file order. */
  lemma AdminFilterIsOneMask(rows: seq<Course>, crit: AdminCriteria)
    ensures AdminFilter(rows, crit) == Keep(rows, (c: Course) => AdminAdmits(crit, c))
  {
    var u1 := (c: Course) => AdmitsUpTo(crit, 1, c);
    var u2 := (c: Course) => AdmitsUpTo(crit, 2, c);
    var u3 := (c: Course) => AdmitsUpTo(crit, 3, c);
    var u4 := (c: Course) => AdmitsUpTo(crit, 4, c);
    var u5 := (c: Course) => AdminAdmits(crit, c);

    var byId := MaskIf(rows, crit.courseId != "", (c: Course) => c.courseId == crit.courseId);
    assert byId == Keep(rows, u1) by {
      MaskIfIsKeep(rows, crit.courseId != "", (c: Course) => c.courseId == crit.courseId, u1);
    }
    var byTitle := MaskIf(byId, crit.title != "", (c: Course) => ContainsIgnoringCase(c.title, crit.title));
    assert byTitle == Keep(rows, u2) by {
      MaskAfterKeep(rows, u1, crit.title != "", (c: Course) => ContainsIgnoringCase(c.title, crit.title), u2);
    }
    var byCategory := MaskIf(byTitle, crit.category != AnyCategory, (c: Course) => c.category == crit.category);
    assert byCategory == Keep(rows, u3) by {
      MaskAfterKeep(rows, u2, crit.category != AnyCategory, (c: Course) => c.category == crit.category, u3);
    }
    var byDifficulty := MaskIf(byCategory, crit.difficulty != AnyDifficulty, (c: Course) => c.difficulty == crit.difficulty);
    assert byDifficulty == Keep(rows, u4) by {
      MaskAfterKeep(rows, u3, crit.difficulty != AnyDifficulty, (c: Course) => c.difficulty == crit.difficulty, u4);
    }
    MaskAfterKeep(rows, u4, crit.minRating != 0.0, (c: Course) => c.rating >= crit.minRating, u5);
  }

  /** With a course id entered, the admin view lists only rows that the delete
      button then removes. */
  lemma ShownRowsAreDeleted(rows: seq<Course>, crit: AdminCriteria, c: Course)
    requires crit.courseId != ""
    requires c in AdminFilter(rows, crit)
    ensures c in rows
    ensures c !in DeleteCourse(rows, crit.courseId)
  {
  }
}
