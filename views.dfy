/** The derived, read-only views of the store: the per-course filters of
    `App()`, the dashboard counters and deadlines, the calendar's day events
    and the students-page permission. None of them changes a collection. */
module Views {
  import opened Domain
  import opened Seqs

  // ---------------------------------------------------------------- course-scoped views

  /** `selectedCourseId` is truthy: some course is selected and its id is not
      the empty string. */
  predicate IsSelected(selected: Option<string>) {
    selected.Some? && selected.value != ""
  }

  function IsStudent(): User -> bool {
    (u: User) => u.role == Student
  }

  function EnrolledIn(courseId: string): User -> bool {
    (u: User) => courseId in u.courseIds
  }

  function IsEnrolledStudent(courseId: string): User -> bool {
    (u: User) => u.role == Student && courseId in u.courseIds
  }

  function AssignmentInCourse(courseId: string): Assignment -> bool {
    (a: Assignment) => a.courseId == courseId
  }

  function QuizInCourse(courseId: string): Quiz -> bool {
    (q: Quiz) => q.courseId == courseId
  }

  function AnnouncementInCourse(courseId: string): Announcement -> bool {
    (a: Announcement) => a.courseId == courseId
  }

  /** `allStudents` (App.tsx:1220). */
  function AllStudents(users: seq<User>): (r: seq<User>)
    ensures forall u :: u in r <==> u in users && u.role == Student
  {
    Filter(users, IsStudent())
  }

  /** `studentsForSelectedCourse`. */
  function StudentsForCourse(users: seq<User>, selected: Option<string>): (r: seq<User>)
    ensures !IsSelected(selected) ==> r == []
    ensures IsSelected(selected) ==>
      forall u :: u in r <==> u in users && u.role == Student && selected.value in u.courseIds
  {
    if !IsSelected(selected) then [] else Filter(AllStudents(users), EnrolledIn(selected.value))
  }

  /** `assignmentsForSelectedCourse`. */
  function AssignmentsForCourse(assignments: seq<Assignment>, selected: Option<string>): (r: seq<Assignment>)
    ensures !IsSelected(selected) ==> r == []
    ensures IsSelected(selected) ==>
      forall a :: a in r <==> a in assignments && a.courseId == selected.value
  {
    if !IsSelected(selected) then [] else Filter(assignments, AssignmentInCourse(selected.value))
  }

  /** `quizzesForSelectedCourse`. */
  function QuizzesForCourse(quizzes: seq<Quiz>, selected: Option<string>): (r: seq<Quiz>)
    ensures !IsSelected(selected) ==> r == []
    ensures IsSelected(selected) ==>
      forall q :: q in r <==> q in quizzes && q.courseId == selected.value
  {
    if !IsSelected(selected) then [] else Filter(quizzes, QuizInCourse(selected.value))
  }

  /** `announcementsForSelectedCourse`. */
  function AnnouncementsForCourse(announcements: seq<Announcement>, selected: Option<string>): (r: seq<Announcement>)
    ensures !IsSelected(selected) ==> r == []
    ensures IsSelected(selected) ==>
      forall a :: a in r <==> a in announcements && a.courseId == selected.value
  {
    if !IsSelected(selected) then [] else Filter(announcements, AnnouncementInCourse(selected.value))
  }

  /** Filtering twice is filtering once by the conjunction. */
  lemma {:induction false} FilterFilter<T(!new)>(s: seq<T>, p: T -> bool, q: T -> bool, pq: T -> bool)
    requires forall x :: pq(x) == (p(x) && q(x))
    ensures Filter(Filter(s, p), q) == Filter(s, pq)
  {
    if s != [] {
      FilterFilter(s[1..], p, q, pq);
    }
  }

  /** The students of the selected course are the enrolled students of the
      whole user list, in their order there, each with its multiplicity. */
  lemma StudentsForCourseOrder(users: seq<User>, courseId: string)
    requires courseId != ""
    ensures StudentsForCourse(users, Some(courseId)) == Filter(users, IsEnrolledStudent(courseId))
    ensures SubsequenceOf(StudentsForCourse(users, Some(courseId)), users)
  {
    FilterFilter(users, IsStudent(), EnrolledIn(courseId), IsEnrolledStudent(courseId));
    FilterSubsequence(users, IsEnrolledStudent(courseId));
  }

  /** The three per-course collection views keep the order of the collection. */
  lemma CourseViewsKeepOrder(assignments: seq<Assignment>, quizzes: seq<Quiz>,
                             announcements: seq<Announcement>, selected: Option<string>)
    ensures SubsequenceOf(AssignmentsForCourse(assignments, selected), assignments)
    ensures SubsequenceOf(QuizzesForCourse(quizzes, selected), quizzes)
    ensures SubsequenceOf(AnnouncementsForCourse(announcements, selected), announcements)
  {
    if IsSelected(selected) {
      FilterSubsequence(assignments, AssignmentInCourse(selected.value));
      FilterSubsequence(quizzes, QuizInCourse(selected.value));
      FilterSubsequence(announcements, AnnouncementInCourse(selected.value));
    }
  }

  // ---------------------------------------------------------------- dashboard counters

  predicate HasSubmitted(a: Assignment, userId: string) {
    exists i :: 0 <= i < |a.submissions| && a.submissions[i].studentId == userId
  }

  function NotSubmittedBy(userId: string): Assignment -> bool {
    (a: Assignment) => !HasSubmitted(a, userId)
  }

  function SubmittedBy(userId: string): Assignment -> bool {
    (a: Assignment) => HasSubmitted(a, userId)
  }

  /** "Pending Assignments": assignments with no submission by the user. */
  function PendingCount(assignments: seq<Assignment>, userId: string): (n: nat)
    ensures n <= |assignments|
  {
    |Filter(assignments, NotSubmittedBy(userId))|
  }

  /** Every assignment is either pending for the user or submitted by them;
      none are pending exactly when the user has submitted to every one. */
  lemma PendingCountSpec(assignments: seq<Assignment>, userId: string)
    ensures PendingCount(assignments, userId) + Count(assignments, SubmittedBy(userId)) == |assignments|
    ensures PendingCount(assignments, userId) == 0 <==>
      forall a :: a in assignments ==> HasSubmitted(a, userId)
  {
    CountComplement(assignments, NotSubmittedBy(userId), SubmittedBy(userId));
    var pending := Filter(assignments, NotSubmittedBy(userId));
    if |pending| == 0 {
      forall a | a in assignments
        ensures HasSubmitted(a, userId)
      {
        assert a in pending <==> !HasSubmitted(a, userId);
      }
    } else {
      assert pending[0] in pending;
    }
  }

  /** A quiz is active strictly between its start and its end. */
  function ActiveAt(now: int): Quiz -> bool {
    (q: Quiz) => q.startTime < now && now < q.endTime
  }

  /** "Active Quizzes". */
  function ActiveQuizCount(quizzes: seq<Quiz>, now: int): (n: nat)
    ensures n == Count(quizzes, ActiveAt(now)) && n <= |quizzes|
    ensures n == 0 <==> forall q :: q in quizzes ==> !(q.startTime < now < q.endTime)
  {
    var active := Filter(quizzes, ActiveAt(now));
    assert active != [] ==> active[0] in active;
    |active|
  }

  /** `!s.grade`: no grade, or the empty string as grade. */
  predicate NeedsGrading(s: Submission) {
    s.grade.None? || s.grade.value == ""
  }

  predicate IsGraded(s: Submission) {
    s.grade.Some? && s.grade.value != ""
  }

  /** "Submissions to Grade": the `reduce` over assignments of the number of
      submissions that still need grading. */
  function SubmissionsToGrade(assignments: seq<Assignment>): nat {
    if assignments == [] then 0
    else |Filter(assignments[0].submissions, NeedsGrading)| + SubmissionsToGrade(assignments[1..])
  }

  function TotalSubmissions(assignments: seq<Assignment>): nat {
    if assignments == [] then 0
    else |assignments[0].submissions| + TotalSubmissions(assignments[1..])
  }

  function GradedSubmissions(assignments: seq<Assignment>): nat {
    if assignments == [] then 0
    else Count(assignments[0].submissions, IsGraded) + GradedSubmissions(assignments[1..])
  }

  /** With S submissions of which G carry a non-empty grade, the counter
      shows S - G. */
  lemma {:induction false} SubmissionsToGradeSpec(assignments: seq<Assignment>)
    ensures SubmissionsToGrade(assignments) == TotalSubmissions(assignments) - GradedSubmissions(assignments)
  {
    if assignments != [] {
      SubmissionsToGradeSpec(assignments[1..]);
      CountComplement(assignments[0].submissions, NeedsGrading, IsGraded);
    }
  }

  /** The stat cards of the dashboard, by acting role. */
  datatype StatCards =
    | StudentCards(pendingAssignments: nat, activeQuizzes: nat)
    | TeacherCards(totalStudents: nat, totalAssignments: nat, submissionsToGrade: nat)

  /** A student sees how many assignments they have not submitted to and how
      many quizzes are running; a teacher sees the course's students and
      assignments and the submissions without a non-empty grade. */
  function DashboardStats(viewAsRole: UserRole, user: User, assignments: seq<Assignment>,
                          quizzes: seq<Quiz>, students: seq<User>, now: int): (r: StatCards)
    ensures r.StudentCards? <==> viewAsRole == Student
    ensures r.StudentCards? ==>
      r.pendingAssignments == |assignments| - Count(assignments, SubmittedBy(user.id)) &&
      r.activeQuizzes == Count(quizzes, ActiveAt(now))
    ensures r.TeacherCards? ==>
      r.totalStudents == |students| && r.totalAssignments == |assignments| &&
      r.submissionsToGrade == TotalSubmissions(assignments) - GradedSubmissions(assignments)
  {
    if viewAsRole == Student then
      PendingCountSpec(assignments, user.id);
      StudentCards(PendingCount(assignments, user.id), ActiveQuizCount(quizzes, now))
    else
      SubmissionsToGradeSpec(assignments);
      TeacherCards(|students|, |assignments|, SubmissionsToGrade(assignments))
  }

  // ---------------------------------------------------------------- upcoming deadlines

  function DueDate(a: Assignment): int {
    a.dueDate
  }

  function DueAfter(now: int): Assignment -> bool {
    (a: Assignment) => a.dueDate > now
  }

  /** The dashboard's "Upcoming Deadlines": future assignments, soonest first,
      at most three. */
  function UpcomingDeadlines(assignments: seq<Assignment>, now: int): seq<Assignment> {
    var sorted := SortBy(Filter(assignments, DueAfter(now)), DueDate);
    if |sorted| <= 3 then sorted else sorted[..3]
  }

  /** In an ascending sequence, whatever lies beyond a prefix is due no
      earlier than anything in the prefix. */
  lemma SortedPrefixFirst(sorted: seq<Assignment>, k: nat, a: Assignment, b: Assignment)
    requires SortedBy(sorted, DueDate) && k <= |sorted|
    requires a in sorted && a !in sorted[..k] && b in sorted[..k]
    ensures b.dueDate <= a.dueDate
  {
    var i :| 0 <= i < |sorted| && sorted[i] == a;
    var j :| 0 <= j < k && sorted[..k][j] == b;
    assert forall m :: 0 <= m < k ==> sorted[m] in sorted[..k];
    assert k <= i;
    assert sorted[j] == b;
    assert DueDate(sorted[j]) <= DueDate(sorted[i]);
  }

  lemma UpcomingDeadlinesSpec(assignments: seq<Assignment>, now: int)
    ensures var r := UpcomingDeadlines(assignments, now);
      |r| <= 3 &&
      |r| == (if Count(assignments, DueAfter(now)) <= 3 then Count(assignments, DueAfter(now)) else 3)
    ensures forall a :: a in UpcomingDeadlines(assignments, now) ==> a in assignments && a.dueDate > now
    ensures var r := UpcomingDeadlines(assignments, now);
      forall i, j :: 0 <= i < j < |r| ==> r[i].dueDate <= r[j].dueDate
    ensures var r := UpcomingDeadlines(assignments, now);
      forall a, b :: a in assignments && a.dueDate > now && a !in r && b in r ==> b.dueDate <= a.dueDate
  {
    var future := Filter(assignments, DueAfter(now));
    var sorted := SortBy(future, DueDate);
    SortBySpec(future, DueDate);
    var r := UpcomingDeadlines(assignments, now);
    var k := |r|;
    assert |sorted| == |future| by {
      assert |multiset(sorted)| == |multiset(future)|;
    }
    assert r == sorted[..k];
    forall a | a in r
      ensures a in future
    {
      assert a in sorted;
      assert a in multiset(sorted);
    }
    forall i, j | 0 <= i < j < k
      ensures r[i].dueDate <= r[j].dueDate
    {
      assert r[i] == sorted[i] && r[j] == sorted[j];
      assert DueDate(sorted[i]) <= DueDate(sorted[j]);
    }
    forall a, b | a in assignments && a.dueDate > now && a !in r && b in r
      ensures b.dueDate <= a.dueDate
    {
      assert a in future;
      assert a in multiset(sorted);
      SortedPrefixFirst(sorted, k, a, b);
    }
  }
  const Day: int := 86_400_000

  function DueAt(id: string, dueDate: int): Assignment {
    Assignment(id, "course1", "title", "", dueDate, [])
  }

  lemma {:induction false} ExampleFilter(now: int)
    ensures Filter([DueAt("a1", now + Day), DueAt("a2", now - Day), DueAt("a3", now + 5 * Day), DueAt("a4", now + 2 * Day)],
                   DueAfter(now))
         == [DueAt("a1", now + Day), DueAt("a3", now + 5 * Day), DueAt("a4", now + 2 * Day)]
  {
    var a1, a2, a3, a4 := DueAt("a1", now + Day), DueAt("a2", now - Day), DueAt("a3", now + 5 * Day), DueAt("a4", now + 2 * Day);
    var s := [a1, a2, a3, a4];
    assert s[1..] == [a2, a3, a4] && s[1..][1..] == [a3, a4] && s[1..][1..][1..] == [a4];
    assert [a4][1..] == [];
    assert Filter([a4], DueAfter(now)) == [a4];
    assert Filter([a3, a4], DueAfter(now)) == [a3] + Filter([a4], DueAfter(now));
    assert Filter([a2, a3, a4], DueAfter(now)) == Filter([a3, a4], DueAfter(now));
  }

  lemma {:induction false} ExampleSort(now: int)
    ensures SortBy([DueAt("a1", now + Day), DueAt("a3", now + 5 * Day), DueAt("a4", now + 2 * Day)], DueDate)
         == [DueAt("a1", now + Day), DueAt("a4", now + 2 * Day), DueAt("a3", now + 5 * Day)]
  {
    var a1, a3, a4 := DueAt("a1", now + Day), DueAt("a3", now + 5 * Day), DueAt("a4", now + 2 * Day);
    var f := [a1, a3, a4];
    assert f[1..] == [a3, a4] && f[1..][1..] == [a4] && [a4][1..] == [];
    assert SortBy([a4], DueDate) == InsertBy(a4, [], DueDate) == [a4];
    assert [a4][1..] == [];
    assert InsertBy(a3, [a4], DueDate) == [a4] + InsertBy(a3, [], DueDate) == [a4, a3];
    assert SortBy([a3, a4], DueDate) == [a4, a3];
    assert InsertBy(a1, [a4, a3], DueDate) == [a1, a4, a3];
  }

  /** Due in one day, one day ago, in five days and in two days: the three
      future ones, nearest first. */
  lemma {:induction false} UpcomingDeadlinesExample(now: int)
    ensures UpcomingDeadlines([DueAt("a1", now + Day), DueAt("a2", now - Day), DueAt("a3", now + 5 * Day),
                               DueAt("a4", now + 2 * Day)], now)
         == [DueAt("a1", now + Day), DueAt("a4", now + 2 * Day), DueAt("a3", now + 5 * Day)]
  {
    ExampleFilter(now);
    ExampleSort(now);
  }



  // ---------------------------------------------------------------- calendar

  datatype CalendarEvent = AssignmentDue(assignment: Assignment) | QuizEnds(quiz: Quiz)

  function DueWithin(dayStart: int, dayEnd: int): Assignment -> bool {
    (a: Assignment) => dayStart <= a.dueDate <= dayEnd
  }

  function EndsWithin(dayStart: int, dayEnd: int): Quiz -> bool {
    (q: Quiz) => dayStart <= q.endTime <= dayEnd
  }

  /** `getEventsForDay`: the assignments due in `[dayStart, dayEnd]`, then the
      quizzes ending in it, each group in collection order. */
  function EventsForDay(assignments: seq<Assignment>, quizzes: seq<Quiz>, dayStart: int, dayEnd: int)
    : (r: seq<CalendarEvent>)
    ensures |r| == Count(assignments, DueWithin(dayStart, dayEnd)) + Count(quizzes, EndsWithin(dayStart, dayEnd))
    ensures forall a :: AssignmentDue(a) in r <==> a in assignments && dayStart <= a.dueDate <= dayEnd
    ensures forall q :: QuizEnds(q) in r <==> q in quizzes && dayStart <= q.endTime <= dayEnd
    ensures forall i, j :: 0 <= i < j < |r| && r[i].QuizEnds? ==> r[j].QuizEnds?
  {
    var dueToday := Filter(assignments, DueWithin(dayStart, dayEnd));
    var endingToday := Filter(quizzes, EndsWithin(dayStart, dayEnd));
    var first := seq(|dueToday|, i requires 0 <= i < |dueToday| => AssignmentDue(dueToday[i]));
    var second := seq(|endingToday|, i requires 0 <= i < |endingToday| => QuizEnds(endingToday[i]));
    assert forall a :: AssignmentDue(a) in first <==> a in dueToday by {
      forall a | a in dueToday ensures AssignmentDue(a) in first {
        var i :| 0 <= i < |dueToday| && dueToday[i] == a;
        assert first[i] == AssignmentDue(a);
      }
    }
    assert forall q :: QuizEnds(q) in second <==> q in endingToday by {
      forall q | q in endingToday ensures QuizEnds(q) in second {
        var i :| 0 <= i < |endingToday| && endingToday[i] == q;
        assert second[i] == QuizEnds(q);
      }
    }
    first + second
  }

  // ---------------------------------------------------------------- students page

  /** `canRegisterStudents` (App.tsx:788-791): decided by the real role and the
      student role of the logged-in user, not by the acting role. */
  predicate CanRegisterStudents(user: User) {
    user.role == Teacher || user.studentRole == Some(Governor) || user.studentRole == Some(AssistantGovernor)
  }

  /** The students page shows "Access Denied" (App.tsx:793). */
  predicate StudentsPageDenied(user: User) {
    !CanRegisterStudents(user) && user.role == Student
  }

  /** Exactly the students without a governing role are turned away, and every
      user who is not turned away may register students. */
  lemma StudentsPageAccess(user: User)
    ensures StudentsPageDenied(user) <==>
      user.role == Student && (user.studentRole == None || user.studentRole == Some(Regular))
    ensures !StudentsPageDenied(user) <==> CanRegisterStudents(user)
  {
    match user.studentRole
    case None =>
    case Some(Regular) =>
    case Some(Governor) =>
    case Some(AssistantGovernor) =>
  }
}
