/** The whole-collection values that the handlers of `App()` and of the pages
    compute before handing them to a state setter, and what they preserve. */
module Updates {
  import opened Domain
  import opened Seqs
  import opened Text
  import Views

  // ---------------------------------------------------------------- login

  predicate CredentialsMatch(u: User, username: string, password: string) {
    u.username == username && u.password == password
  }

  /** The position `allUsers.find` stops at: the first user whose username
      and password both equal the ones typed, compared exactly. */
  function FindCredentials(users: seq<User>, username: string, password: string): (r: Option<nat>)
    ensures r.None? <==> forall i :: 0 <= i < |users| ==> !CredentialsMatch(users[i], username, password)
    ensures r.Some? ==> r.value < |users| && CredentialsMatch(users[r.value], username, password)
    ensures r.Some? ==> forall j :: 0 <= j < r.value ==> !CredentialsMatch(users[j], username, password)
  {
    if users == [] then None
    else if CredentialsMatch(users[0], username, password) then Some(0)
    else
      match FindCredentials(users[1..], username, password)
      case None => None
      case Some(i) => Some(i + 1)
  }

  // ---------------------------------------------------------------- registration

  /** The fields the registration form hands to `handleRegisterStudent`. */
  datatype StudentForm = StudentForm(
    firstName: string,
    surname: string,
    email: string,
    studentNumber: string,
    phone: string,
    courseIds: seq<string>)

  /** `charAt(0)`: the first character, or the empty string. */
  function CharAt0(s: string): (r: string)
    ensures |r| <= 1
  {
    if s == [] then "" else [s[0]]
  }

  /** `slice(-8)`: the last eight characters, or all of a shorter string. */
  function LastEight(s: string): (r: string)
    ensures |r| == if |s| <= 8 then |s| else 8
    ensures s == s[..|s| - |r|] + r
  {
    if |s| <= 8 then s else s[|s| - 8..]
  }

  function GeneratedUsername(firstName: string, surname: string): string {
    Lower(firstName) + "." + CharAt0(Lower(surname))
  }

  /** The student record `handleRegisterStudent` builds. The two `Date.now()`
      readings (for the id and for the avatar) and the `Math.random` text are
      parameters. */
  function NewStudent(form: StudentForm, idStamp: string, avatarStamp: string, randomText: string): User {
    User(
      id := "student" + idStamp,
      name := form.firstName + " " + form.surname,
      role := Student,
      email := form.email,
      studentNumber := form.studentNumber,
      phone := form.phone,
      surname := form.surname,
      firstName := form.firstName,
      otherNames := None,
      profilePictureUrl := Some("https://i.pravatar.cc/150?u=student" + avatarStamp),
      bio := None,
      courseIds := form.courseIds,
      username := GeneratedUsername(form.firstName, form.surname),
      password := LastEight(randomText),
      studentRole := Some(Regular))
  }

  /** The username is the lower-cased first name, a dot, and the lower-cased
      first letter of the surname, or nothing after the dot for an empty
      surname. */
  lemma GeneratedUsernameShape(firstName: string, surname: string)
    ensures GeneratedUsername(firstName, surname) ==
      Lower(firstName) + "." + (if surname == [] then "" else [LowerChar(surname[0])])
    ensures |GeneratedUsername(firstName, surname)| == |firstName| + 1 + (if surname == [] then 0 else 1)
  {
    if surname != [] {
      LowerAt(surname, 0);
    }
  }

  lemma DanaLeeUsername()
    ensures GeneratedUsername("Dana", "Lee") == "dana.l"
  {
    GeneratedUsernameShape("Dana", "Lee");
    assert Lower("Dana") == "dana" by {
      LowerAt("Dana", 0);
      LowerAt("Dana", 1);
      LowerAt("Dana", 2);
      LowerAt("Dana", 3);
    }
  }

  /** No collision check: registering the same names twice gives two students
      with the same username, told apart only by their ids. */
  lemma RegisteringTwiceSharesUsername(form: StudentForm, stamp1: string, stamp2: string,
                                       avatar1: string, avatar2: string, random1: string, random2: string)
    requires stamp1 != stamp2
    ensures NewStudent(form, stamp1, avatar1, random1).username == NewStudent(form, stamp2, avatar2, random2).username
    ensures NewStudent(form, stamp1, avatar1, random1).id != NewStudent(form, stamp2, avatar2, random2).id
  {
    assert ("student" + stamp1)[7..] == stamp1;
    assert ("student" + stamp2)[7..] == stamp2;
  }

  // ---------------------------------------------------------------- student role and picture

  /** `handleUpdateStudentRole`: every user with the id gets the new student role. */
  function SetStudentRole(users: seq<User>, studentId: string, role: StudentRole): (r: seq<User>)
    ensures |r| == |users|
    ensures forall i :: 0 <= i < |r| && users[i].id != studentId ==> r[i] == users[i]
    ensures forall i :: 0 <= i < |r| && users[i].id == studentId ==>
      r[i].studentRole == Some(role) && r[i] == users[i].(studentRole := r[i].studentRole)
  {
    seq(|users|, i requires 0 <= i < |users| =>
      if users[i].id == studentId then users[i].(studentRole := Some(role)) else users[i])
  }

  /** Making a student a Governor or an Assistant Governor gives them the
      right to register students; making them Regular takes it away. */
  lemma SetStudentRoleGrantsRegistration(users: seq<User>, studentId: string, role: StudentRole, i: nat)
    requires i < |users| && users[i].id == studentId && users[i].role == Student
    ensures Views.CanRegisterStudents(SetStudentRole(users, studentId, role)[i]) <==> role != Regular
  {
  }

  /** `handleProfilePictureChange` once the file is read: every user with the
      id gets the new picture. */
  function SetPicture(users: seq<User>, userId: string, url: string): (r: seq<User>)
    ensures |r| == |users|
    ensures forall i :: 0 <= i < |r| && users[i].id != userId ==> r[i] == users[i]
    ensures forall i :: 0 <= i < |r| && users[i].id == userId ==>
      r[i].profilePictureUrl == Some(url) && r[i] == users[i].(profilePictureUrl := r[i].profilePictureUrl)
  {
    seq(|users|, i requires 0 <= i < |users| =>
      if users[i].id == userId then users[i].(profilePictureUrl := Some(url)) else users[i])
  }

  /** Some stored user has the id. */
  ghost predicate Listed(users: seq<User>, id: string) {
    exists u :: u in users && u.id == id
  }

  /** A transform that keeps every position's id keeps every id listed. */
  lemma SameIdsKeepListed(users: seq<User>, r: seq<User>, id: string)
    requires |r| == |users| && forall i :: 0 <= i < |r| ==> r[i].id == users[i].id
    requires Listed(users, id)
    ensures Listed(r, id)
  {
    var u :| u in users && u.id == id;
    var i :| 0 <= i < |users| && users[i] == u;
    assert r[i] in r;
  }

  /** Replaces every user with the id by `updated`, as the course handlers do
      with the session's copy of the logged-in user. */
  function ReplaceUser(users: seq<User>, userId: string, updated: User): (r: seq<User>)
    ensures |r| == |users|
    ensures forall i :: 0 <= i < |r| ==> r[i] == if users[i].id == userId then updated else users[i]
  {
    seq(|users|, i requires 0 <= i < |users| => if users[i].id == userId then updated else users[i])
  }

  // ---------------------------------------------------------------- course catalogue

  /** The outcome of the duplicate checks: the `alert` that is shown, if any. */
  datatype CourseVerdict = Accepted | NameTaken | CodeTaken

  /** `course.id !== id` in the update check; the create check excludes nothing. */
  predicate Counted(c: Course, except: Option<string>) {
    except.None? || c.id != except.value
  }

  /** `c` is counted and its lower-cased name equals the lower-cased trimmed input. */
  predicate NameClash(c: Course, except: Option<string>, name: string) {
    Counted(c, except) && Lower(c.name) == Lower(Trim(name))
  }

  predicate CodeClash(c: Course, except: Option<string>, code: string) {
    Counted(c, except) && Lower(c.code) == Lower(Trim(code))
  }

  /** The checks of `handleCreateCourse` (with `except` = None) and of
      `handleUpdateCourse` (with `except` = the edited id): a course other
      than the excluded one whose lower-cased name, then code, equals the
      lower-cased trimmed input. The name is checked first. */
  function CheckCourse(courses: seq<Course>, name: string, code: string, except: Option<string>): CourseVerdict
  {
    if exists i :: 0 <= i < |courses| && NameClash(courses[i], except, name) then
      NameTaken
    else if exists i :: 0 <= i < |courses| && CodeClash(courses[i], except, code) then
      CodeTaken
    else
      Accepted
  }

  /** The name clash wins over the code clash; a course is accepted exactly
      when no counted course clashes on either. */
  lemma CheckCourseSpec(courses: seq<Course>, name: string, code: string, except: Option<string>)
    ensures CheckCourse(courses, name, code, except) == NameTaken <==>
      exists c :: c in courses && NameClash(c, except, name)
    ensures CheckCourse(courses, name, code, except) == CodeTaken <==>
      (forall c :: c in courses ==> !NameClash(c, except, name)) &&
      (exists c :: c in courses && CodeClash(c, except, code))
    ensures CheckCourse(courses, name, code, except) == Accepted <==>
      forall c :: c in courses ==> !NameClash(c, except, name) && !CodeClash(c, except, code)
  {
  }

  /** No two courses share an id, a lower-cased name or a lower-cased code. */
  ghost predicate CatalogueValid(courses: seq<Course>) {
    forall i, j :: 0 <= i < j < |courses| ==> Distinct(courses[i], courses[j])
  }

  /** Two courses differ in id, in lower-cased name and in lower-cased code. */
  predicate Distinct(a: Course, b: Course) {
    a.id != b.id && Lower(a.name) != Lower(b.name) && Lower(a.code) != Lower(b.code)
  }

  /** The course `handleCreateCourse` appends. */
  function NewCourse(name: string, code: string, teacherId: string, stamp: string): Course {
    Course("course" + stamp, Trim(name), Trim(code), teacherId)
  }

  /** No stored course has the id a course created with `stamp` would get. */
  predicate FreshCourseId(courses: seq<Course>, stamp: string) {
    forall c :: c in courses ==> c.id != "course" + stamp
  }

  /** Appending an accepted course with a fresh id keeps a valid catalogue valid. */
  lemma AddCourseKeepsCatalogue(courses: seq<Course>, name: string, code: string, teacherId: string, stamp: string)
    requires CheckCourse(courses, name, code, None) == Accepted
    ensures CatalogueValid(courses) && FreshCourseId(courses, stamp) ==>
      CatalogueValid(courses + [NewCourse(name, code, teacherId, stamp)])
  {
    if CatalogueValid(courses) && FreshCourseId(courses, stamp) {
      CheckCourseSpec(courses, name, code, None);
      var added := NewCourse(name, code, teacherId, stamp);
      var r := courses + [added];
      forall i, j | 0 <= i < j < |r|
        ensures Distinct(r[i], r[j])
      {
        if j == |courses| {
          assert r[i] in courses && r[j] == added;
        } else {
          assert r[i] == courses[i] && r[j] == courses[j];
        }
      }
    }
  }

  /** `handleUpdateCourse`'s new course list: the courses with the id get the
      trimmed name and code. */
  function RenameCourse(courses: seq<Course>, id: string, name: string, code: string): (r: seq<Course>)
    ensures |r| == |courses|
  {
    seq(|courses|, i requires 0 <= i < |courses| =>
      if courses[i].id == id then courses[i].(name := Trim(name), code := Trim(code)) else courses[i])
  }

  /** Renaming touches only the course with the id, and only its name and
      code; an unknown id changes nothing. */
  lemma RenameCourseFrame(courses: seq<Course>, id: string, name: string, code: string)
    ensures var r := RenameCourse(courses, id, name, code);
      forall i :: 0 <= i < |r| ==>
        r[i].id == courses[i].id && r[i].teacherId == courses[i].teacherId &&
        (courses[i].id != id ==> r[i] == courses[i]) &&
        (courses[i].id == id ==> r[i].name == Trim(name) && r[i].code == Trim(code))
    ensures (forall c :: c in courses ==> c.id != id) ==> RenameCourse(courses, id, name, code) == courses
  {
  }

  /** An accepted rename keeps the catalogue valid. */
  lemma RenameCourseKeepsCatalogue(courses: seq<Course>, id: string, name: string, code: string)
    requires CatalogueValid(courses)
    requires CheckCourse(courses, name, code, Some(id)) == Accepted
    ensures CatalogueValid(RenameCourse(courses, id, name, code))
  {
    CheckCourseSpec(courses, name, code, Some(id));
    var r := RenameCourse(courses, id, name, code);
    forall i, j | 0 <= i < j < |r|
      ensures Distinct(r[i], r[j])
    {
      if courses[i].id == id {
        assert courses[j] in courses && Counted(courses[j], Some(id));
      } else if courses[j].id == id {
        assert courses[i] in courses && Counted(courses[i], Some(id));
      }
    }
  }

  function NotCourse(id: string): Course -> bool {
    (c: Course) => c.id != id
  }

  function NotId(id: string): string -> bool {
    (x: string) => x != id
  }

  /** `handleDeleteCourse`'s new course list. */
  function RemoveCourse(courses: seq<Course>, id: string): (r: seq<Course>)
    ensures forall c :: c in r <==> c in courses && c.id != id
  {
    Filter(courses, NotCourse(id))
  }

  /** Deleting keeps the other courses in order and keeps the catalogue valid. */
  lemma {:induction false} RemoveCourseKeepsCatalogue(courses: seq<Course>, id: string)
    requires CatalogueValid(courses)
    ensures CatalogueValid(RemoveCourse(courses, id))
    ensures SubsequenceOf(RemoveCourse(courses, id), courses)
  {
    FilterSubsequence(courses, NotCourse(id));
    if courses != [] {
      var tail := courses[1..];
      assert CatalogueValid(tail) by {
        forall i, j | 0 <= i < j < |tail|
          ensures Distinct(tail[i], tail[j])
        {
          assert tail[i] == courses[i + 1] && tail[j] == courses[j + 1];
        }
      }
      RemoveCourseKeepsCatalogue(tail, id);
      var rest := RemoveCourse(tail, id);
      if courses[0].id != id {
        var r := [courses[0]] + rest;
        forall i, j | 0 <= i < j < |r|
          ensures Distinct(r[i], r[j])
        {
          if i == 0 {
            assert r[j] in tail;
            var k :| 0 <= k < |tail| && tail[k] == r[j];
            assert courses[k + 1] == r[j];
          } else {
            assert r[i] == rest[i - 1] && r[j] == rest[j - 1];
          }
        }
      }
    }
  }

  /** A user's course ids without the deleted one, in their order. */
  function WithoutCourseId(courseIds: seq<string>, id: string): (r: seq<string>)
    ensures id !in r
    ensures forall x :: x in r <==> x in courseIds && x != id
  {
    Filter(courseIds, NotId(id))
  }

  /** The first `setAllUsers` of `handleDeleteCourse`: every user loses the id. */
  function UnenrolAll(users: seq<User>, id: string): (r: seq<User>)
    ensures |r| == |users|
    ensures forall i :: 0 <= i < |r| ==> r[i] == users[i].(courseIds := WithoutCourseId(users[i].courseIds, id))
  {
    seq(|users|, i requires 0 <= i < |users| => users[i].(courseIds := WithoutCourseId(users[i].courseIds, id)))
  }

  /** After both user updates of `handleDeleteCourse` no user is enrolled in the
      deleted course; the logged-in user's entries take the session copy with
      the id removed, every other user keeps its other ids in order. */
  lemma DeleteCourseUnenrols(users: seq<User>, id: string, session: User)
    ensures var updated := session.(courseIds := WithoutCourseId(session.courseIds, id));
      var r := ReplaceUser(UnenrolAll(users, id), session.id, updated);
      |r| == |users| &&
      (forall i :: 0 <= i < |r| ==> id !in r[i].courseIds) &&
      (forall i :: 0 <= i < |r| && users[i].id != session.id ==>
         r[i] == users[i].(courseIds := WithoutCourseId(users[i].courseIds, id)) &&
         SubsequenceOf(r[i].courseIds, users[i].courseIds)) &&
      (forall i :: 0 <= i < |r| && users[i].id == session.id ==> r[i] == updated)
  {
    forall i | 0 <= i < |users|
      ensures SubsequenceOf(WithoutCourseId(users[i].courseIds, id), users[i].courseIds)
    {
      FilterSubsequence(users[i].courseIds, NotId(id));
    }
  }

  // ---------------------------------------------------------------- grading

  function GradeSubmissions(submissions: seq<Submission>, studentId: string, grade: string, feedback: string)
    : (r: seq<Submission>)
    ensures |r| == |submissions|
  {
    seq(|submissions|, i requires 0 <= i < |submissions| =>
      if submissions[i].studentId == studentId
      then submissions[i].(grade := Some(grade), feedback := Some(feedback))
      else submissions[i])
  }

  /** `handleGradeSubmission`'s new assignment list. */
  function GradeAssignments(assignments: seq<Assignment>, assignmentId: string, studentId: string,
                            grade: string, feedback: string): (r: seq<Assignment>)
    ensures |r| == |assignments|
  {
    seq(|assignments|, i requires 0 <= i < |assignments| =>
      if assignments[i].id == assignmentId
      then assignments[i].(submissions := GradeSubmissions(assignments[i].submissions, studentId, grade, feedback))
      else assignments[i])
  }

  /** Grading overwrites grade and feedback of the matching submissions of the
      matching assignment, keeps who submitted and when, and changes nothing
      else; with no match nothing changes. */
  lemma GradeAssignmentsSpec(assignments: seq<Assignment>, assignmentId: string, studentId: string,
                             grade: string, feedback: string)
    ensures var r := GradeAssignments(assignments, assignmentId, studentId, grade, feedback);
      forall i :: 0 <= i < |r| ==>
        r[i] == assignments[i].(submissions := r[i].submissions) &&
        |r[i].submissions| == |assignments[i].submissions| &&
        (assignments[i].id != assignmentId ==> r[i] == assignments[i])
    ensures var r := GradeAssignments(assignments, assignmentId, studentId, grade, feedback);
      forall i, j :: 0 <= i < |r| && assignments[i].id == assignmentId && 0 <= j < |r[i].submissions| ==>
        var old_ := assignments[i].submissions[j];
        var new_ := r[i].submissions[j];
        new_.studentId == old_.studentId && new_.studentName == old_.studentName &&
        new_.submittedAt == old_.submittedAt &&
        (old_.studentId == studentId ==> new_.grade == Some(grade) && new_.feedback == Some(feedback)) &&
        (old_.studentId != studentId ==> new_ == old_)
    ensures (forall a :: a in assignments ==> a.id != assignmentId) ==>
      GradeAssignments(assignments, assignmentId, studentId, grade, feedback) == assignments
  {
  }

  /** Grading again overwrites the first grade instead of adding to it. */
  lemma {:induction false} RegradeOverwrites(assignments: seq<Assignment>, assignmentId: string, studentId: string,
                                            grade1: string, feedback1: string, grade2: string, feedback2: string)
    ensures GradeAssignments(GradeAssignments(assignments, assignmentId, studentId, grade1, feedback1),
                             assignmentId, studentId, grade2, feedback2)
         == GradeAssignments(assignments, assignmentId, studentId, grade2, feedback2)
  {
    var once := GradeAssignments(assignments, assignmentId, studentId, grade1, feedback1);
    var twice := GradeAssignments(once, assignmentId, studentId, grade2, feedback2);
    var direct := GradeAssignments(assignments, assignmentId, studentId, grade2, feedback2);
    forall i | 0 <= i < |assignments|
      ensures twice[i] == direct[i]
    {
      if assignments[i].id == assignmentId {
        var s := assignments[i].submissions;
        assert GradeSubmissions(GradeSubmissions(s, studentId, grade1, feedback1), studentId, grade2, feedback2)
            == GradeSubmissions(s, studentId, grade2, feedback2);
      }
    }
  }

  /** Of two equally long sequences, the one whose every position satisfies
      `p` whenever the other does has no more elements satisfying `p`. */
  lemma {:induction false} CountPointwise<T>(s: seq<T>, t: seq<T>, p: T -> bool)
    requires |s| == |t|
    requires forall i :: 0 <= i < |t| && p(t[i]) ==> p(s[i])
    ensures Count(t, p) <= Count(s, p)
  {
    if s != [] {
      CountPointwise(s[1..], t[1..], p);
    }
  }

  /** Grading with a non-empty grade never adds to "Submissions to Grade". */
  lemma {:induction false} GradingShrinksBacklog(assignments: seq<Assignment>, assignmentId: string, studentId: string,
                                                grade: string, feedback: string)
    requires grade != ""
    ensures Views.SubmissionsToGrade(GradeAssignments(assignments, assignmentId, studentId, grade, feedback))
         <= Views.SubmissionsToGrade(assignments)
  {
    if assignments != [] {
      var r := GradeAssignments(assignments, assignmentId, studentId, grade, feedback);
      assert r[1..] == GradeAssignments(assignments[1..], assignmentId, studentId, grade, feedback);
      GradingShrinksBacklog(assignments[1..], assignmentId, studentId, grade, feedback);
      CountPointwise(assignments[0].submissions, r[0].submissions, Views.NeedsGrading);
    }
  }

  // ---------------------------------------------------------------- templates

  function NotTemplate(id: string): AssignmentTemplate -> bool {
    (t: AssignmentTemplate) => t.id != id
  }

  /** `handleDeleteTemplate`'s new template list. */
  function RemoveTemplate(templates: seq<AssignmentTemplate>, id: string): (r: seq<AssignmentTemplate>)
    ensures forall t :: t in r <==> t in templates && t.id != id
    ensures |r| == |templates| - Count(templates, (t: AssignmentTemplate) => t.id == id)
  {
    CountComplement(templates, NotTemplate(id), (t: AssignmentTemplate) => t.id == id);
    Filter(templates, NotTemplate(id))
  }
}
