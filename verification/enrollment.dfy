/**
 The enrollment part of the student session in Siri.py: the set of enrolled
 course ids, the append-only enrollment history and the "recently enrolled"
 slot, changed only by `enroll_course`.
 */
module Enrollment {

  datatype Option<T> = None | Some(value: T)

  /** The rating stored with every history entry. */
  const NotRated: string := "N/A"

  /** One history entry. The price is drawn at random by the page, so it is
      whatever value the caller supplies. */
  datatype Entry = Entry(
    courseId: string,
    title: string,
    rating: string,
    price: real,
    paymentMethod: string)

  /** The "recently enrolled" slot. */
  datatype Recent = Recent(courseId: string, title: string)

  /** The session fields `enrolled_courses`, `enrollment_history` and `recent_enrolled`. */
  datatype Session = Session(
    enrolled: set<string>,
    history: seq<Entry>,
    recent: Option<Recent>)

  /** The title the page gives a course it enrolls by id alone. */
  function CourseTitle(courseId: string): string {
    "Course " + courseId
  }

  /** The ids appearing in a history. */
  function HistoryIds(h: seq<Entry>): set<string> {
    set i | 0 <= i < |h| :: h[i].courseId
  }

  /** No course id appears twice in a history. */
  predicate DistinctIds(h: seq<Entry>) {
    forall i, j :: 0 <= i < j < |h| ==> h[i].courseId != h[j].courseId
  }

  /** Every entry carries the title and rating the page writes for it. */
  predicate WellFormedEntries(h: seq<Entry>) {
    forall i :: 0 <= i < |h| ==> h[i].title == CourseTitle(h[i].courseId) && h[i].rating == NotRated
  }

  /** The recent slot is empty before the first enrollment and names the last one after. */
  predicate RecentIsLast(s: Session) {
    if |s.history| == 0 then s.recent == None
    else
      var last := s.history[|s.history| - 1];
      s.recent == Some(Recent(last.courseId, last.title))
  }

  /** The session invariant: the enrolled set is exactly the ids of the
      history, which has no duplicate, and the recent slot tracks its end. */
  predicate Valid(s: Session) {
    && s.enrolled == HistoryIds(s.history)
    && DistinctIds(s.history)
    && WellFormedEntries(s.history)
    && RecentIsLast(s)
  }

  /** The session as `init_session` and the module-level defaults leave it. */
  function Init(): (s: Session)
    ensures Valid(s)
    ensures |s.history| == 0
  {
    Session({}, [], None)
  }

  /** `enroll_course(course_id, payment_method)`, with the price it draws as a
      parameter. A new id gets one history entry, joins the set and becomes the
      recent course; an id already enrolled only produces a warning. */
  function Enroll(s: Session, courseId: string, paymentMethod: string, price: real): (s': Session)
    ensures courseId in s'.enrolled
    ensures courseId !in s.enrolled ==>
      && |s'.history| == |s.history| + 1
      && s'.history[..|s.history|] == s.history
      && s'.history[|s.history|] == Entry(courseId, CourseTitle(courseId), NotRated, price, paymentMethod)
      && s'.enrolled == s.enrolled + {courseId}
      && s'.recent == Some(Recent(courseId, CourseTitle(courseId)))
    ensures courseId in s.enrolled ==> s' == s
  {
    if courseId !in s.enrolled then
      var entry := Entry(courseId, CourseTitle(courseId), NotRated, price, paymentMethod);
      assert (s.history + [entry])[..|s.history|] == s.history;
      Session(s.enrolled + {courseId}, s.history + [entry], Some(Recent(courseId, CourseTitle(courseId))))
    else
      s
  }

  /** `enroll_course` preserves the session invariant. */
  lemma EnrollPreservesValid(s: Session, courseId: string, paymentMethod: string, price: real)
    requires Valid(s)
    ensures Valid(Enroll(s, courseId, paymentMethod, price))
  {
  }

  /** A second enrollment in the same course changes nothing. */
  lemma EnrollTwice(s: Session, courseId: string, p1: string, x1: real, p2: string, x2: real)
    ensures Enroll(Enroll(s, courseId, p1, x1), courseId, p2, x2) == Enroll(s, courseId, p1, x1)
  {
  }

  /** One click of the enroll button: the course id, the payment method chosen
      and the price drawn for it. */
  datatype Request = Request(courseId: string, paymentMethod: string, price: real)

  /** The session after a sequence of enroll requests, in order. */
  function Run(s: Session, reqs: seq<Request>): Session
    decreases |reqs|
  {
    if |reqs| == 0 then s
    else Run(Enroll(s, reqs[0].courseId, reqs[0].paymentMethod, reqs[0].price), reqs[1..])
  }

  /** The ids of a sequence of requests. */
  function RequestedIds(reqs: seq<Request>): set<string> {
    set i | 0 <= i < |reqs| :: reqs[i].courseId
  }

  /** Any sequence of enrollments preserves the session invariant. */
  lemma {:induction false} RunPreservesValid(s: Session, reqs: seq<Request>)
    requires Valid(s)
    ensures Valid(Run(s, reqs))
    decreases |reqs|
  {
    if |reqs| > 0 {
      var r := reqs[0];
      EnrollPreservesValid(s, r.courseId, r.paymentMethod, r.price);
      RunPreservesValid(Enroll(s, r.courseId, r.paymentMethod, r.price), reqs[1..]);
    }
  }

  /** The history is append-only: a run only extends it, and adds to the set
      exactly the ids requested. */
  lemma {:induction false} RunExtends(s: Session, reqs: seq<Request>)
    ensures s.history <= Run(s, reqs).history
    ensures Run(s, reqs).enrolled == s.enrolled + RequestedIds(reqs)
    decreases |reqs|
  {
    if |reqs| > 0 {
      var r := reqs[0];
      var s1 := Enroll(s, r.courseId, r.paymentMethod, r.price);
      RunExtends(s1, reqs[1..]);
      assert RequestedIds(reqs) == {r.courseId} + RequestedIds(reqs[1..]) by {
        forall x | x in RequestedIds(reqs)
          ensures x in {r.courseId} + RequestedIds(reqs[1..])
        {
          var i :| 0 <= i < |reqs| && reqs[i].courseId == x;
          if i > 0 {
            assert reqs[1..][i - 1].courseId == x;
          }
        }
        forall x | x in RequestedIds(reqs[1..])
          ensures x in RequestedIds(reqs)
        {
          var i :| 0 <= i < |reqs[1..]| && reqs[1..][i].courseId == x;
          assert reqs[i + 1].courseId == x;
        }
      }
    } else {
      assert RequestedIds(reqs) == {};
    }
  }

  /** From the initial session, after any sequence of enrollments the enrolled
      set is exactly the ids of the history and of the requests, and the history
      holds each id once. */
  lemma FromInit(reqs: seq<Request>)
    ensures Run(Init(), reqs).enrolled == HistoryIds(Run(Init(), reqs).history)
    ensures Run(Init(), reqs).enrolled == RequestedIds(reqs)
    ensures DistinctIds(Run(Init(), reqs).history)
  {
    RunPreservesValid(Init(), reqs);
    RunExtends(Init(), reqs);
  }
}
