/** The state `App()` keeps (the persisted collections and the session) and
    the handlers that replace it. Each field is one `useState` or
    `usePersistentState` slot; each method is one handler, with the state
    setters it calls applied in order. */
module Store {
  import opened Domain
  import opened Updates
  import Views

  /** What the credentials modal shows after a registration. */
  datatype Credentials = Credentials(name: string, username: string, password: string)

  class SchoolStore {
    var allUsers: seq<User>
    var courses: seq<Course>
    var assignments: seq<Assignment>
    var quizzes: seq<Quiz>
    var videos: seq<VideoUpload>
    var announcements: seq<Announcement>
    var assignmentTemplates: seq<AssignmentTemplate>

    var loggedInUser: Option<User>
    var isAuthenticated: bool
    var viewAsRole: Option<UserRole>
    var selectedCourseId: Option<string>
    var courseToDelete: Option<Course>
    var newStudentCredentials: Option<Credentials>

    /** The session is either empty or has a user, the authenticated flag and
        a view role together, and its user's id is one of the stored users. */
    ghost predicate Valid()
      reads this
    {
      (isAuthenticated <==> loggedInUser.Some?) &&
      (viewAsRole.Some? <==> loggedInUser.Some?) &&
      (loggedInUser.Some? ==> Listed(allUsers, loggedInUser.value.id))
    }

    /** The collections as loaded from storage, with no one logged in. */
    constructor(users: seq<User>, courseList: seq<Course>, assignmentList: seq<Assignment>, quizList: seq<Quiz>,
                videoList: seq<VideoUpload>, announcementList: seq<Announcement>, templates: seq<AssignmentTemplate>)
      ensures Valid()
      ensures allUsers == users && courses == courseList && assignments == assignmentList && quizzes == quizList
      ensures videos == videoList && announcements == announcementList && assignmentTemplates == templates
      ensures loggedInUser == None && !isAuthenticated && viewAsRole == None
      ensures selectedCourseId == None && courseToDelete == None && newStudentCredentials == None
    {
      allUsers := users;
      courses := courseList;
      assignments := assignmentList;
      quizzes := quizList;
      videos := videoList;
      announcements := announcementList;
      assignmentTemplates := templates;
      loggedInUser := None;
      isAuthenticated := false;
      viewAsRole := None;
      selectedCourseId := None;
      courseToDelete := None;
      newStudentCredentials := None;
    }

    // ------------------------------------------------------------ session

    /** `handleLogin`: succeeds exactly when some stored user has this
        username and password; the session then holds the first such user
        and views the app in that user's role. A failure changes nothing. */
    method Login(username: string, password: string) returns (ok: bool)
      requires Valid()
      modifies this`loggedInUser, this`isAuthenticated, this`viewAsRole
      ensures Valid()
      ensures ok <==> exists i :: 0 <= i < |allUsers| && CredentialsMatch(allUsers[i], username, password)
      ensures ok ==> exists i :: (0 <= i < |allUsers| && CredentialsMatch(allUsers[i], username, password) &&
        (forall j :: 0 <= j < i ==> !CredentialsMatch(allUsers[j], username, password)) &&
        loggedInUser == Some(allUsers[i]) && isAuthenticated && viewAsRole == Some(allUsers[i].role))
      ensures !ok ==> loggedInUser == old(loggedInUser) && isAuthenticated == old(isAuthenticated) &&
                      viewAsRole == old(viewAsRole)
    {
      var found := FindCredentials(allUsers, username, password);
      match found {
        case None =>
          ok := false;
        case Some(i) =>
          var user := allUsers[i];
          loggedInUser := Some(user);
          isAuthenticated := true;
          viewAsRole := Some(user.role);
          ok := true;
      }
    }

    /** `handleLogout`: clears the session user, the flag and the view role;
        the selected course is kept. */
    method Logout()
      modifies this`loggedInUser, this`isAuthenticated, this`viewAsRole
      ensures Valid()
      ensures loggedInUser == None && !isAuthenticated && viewAsRole == None
    {
      loggedInUser := None;
      isAuthenticated := false;
      viewAsRole := None;
    }

    /** The header's role toggle, which only a logged-in teacher is shown. */
    method SetViewAsRole(role: UserRole)
      requires Valid() && loggedInUser.Some? && loggedInUser.value.role == Teacher
      modifies this`viewAsRole
      ensures Valid()
      ensures viewAsRole == Some(role)
    {
      viewAsRole := Some(role);
    }

    /** `handleCourseChange`: the header's course selector. */
    method SelectCourse(courseId: string)
      modifies this`selectedCourseId
      ensures selectedCourseId == Some(courseId)
    {
      selectedCourseId := Some(courseId);
    }

    // ------------------------------------------------------------ students

    /** `handleRegisterStudent`: appends the new student and shows its
        credentials; no other user changes and no collision is checked. */
    method RegisterStudent(form: StudentForm, idStamp: string, avatarStamp: string, randomText: string)
      requires Valid()
      modifies this`allUsers, this`newStudentCredentials
      ensures Valid()
      ensures allUsers == old(allUsers) + [NewStudent(form, idStamp, avatarStamp, randomText)]
      ensures var s := NewStudent(form, idStamp, avatarStamp, randomText);
        newStudentCredentials == Some(Credentials(s.name, s.username, s.password))
    {
      var student := NewStudent(form, idStamp, avatarStamp, randomText);
      allUsers := allUsers + [student];
      newStudentCredentials := Some(Credentials(student.name, student.username, student.password));
    }

    /** The credentials modal's close button. */
    method DismissCredentials()
      modifies this`newStudentCredentials
      ensures newStudentCredentials == None
    {
      newStudentCredentials := None;
    }

    /** `handleUpdateStudentRole`: the stored users with the id get the role;
        the session's copy of the logged-in user is not touched. */
    method UpdateStudentRole(studentId: string, role: StudentRole)
      requires Valid()
      modifies this`allUsers
      ensures Valid()
      ensures allUsers == SetStudentRole(old(allUsers), studentId, role)
    {
      var updated := SetStudentRole(allUsers, studentId, role);
      if loggedInUser.Some? {
        SameIdsKeepListed(allUsers, updated, loggedInUser.value.id);
      }
      allUsers := updated;
    }

    /** `handleProfilePictureChange` once the file has been read as `url`:
        with a user logged in, that user's stored entries and the session
        copy get the new picture; otherwise nothing changes. */
    method ChangeProfilePicture(url: string)
      requires Valid()
      modifies this`allUsers, this`loggedInUser
      ensures Valid()
      ensures old(loggedInUser).None? ==> allUsers == old(allUsers) && loggedInUser == None
      ensures old(loggedInUser).Some? ==>
        allUsers == SetPicture(old(allUsers), old(loggedInUser).value.id, url) &&
        loggedInUser == Some(old(loggedInUser).value.(profilePictureUrl := Some(url)))
    {
      if loggedInUser.Some? {
        var user := loggedInUser.value;
        var updated := SetPicture(allUsers, user.id, url);
        SameIdsKeepListed(allUsers, updated, user.id);
        allUsers := updated;
        loggedInUser := Some(user.(profilePictureUrl := Some(url)));
      }
    }

    // ------------------------------------------------------------ courses

    /** `handleCreateCourse`. The verdict is `None` when the session user is
        not a teacher (nothing happens), `Some(NameTaken)` or
        `Some(CodeTaken)` when an alert is shown (nothing changes), and
        `Some(Accepted)` when the course is appended, owned by the teacher,
        and its id added to the teacher's session copy, which replaces the
        teacher's stored entries. A valid catalogue stays valid when the new
        id is fresh. */
    method CreateCourse(name: string, code: string, stamp: string) returns (verdict: Option<CourseVerdict>)
      requires Valid()
      modifies this`courses, this`allUsers, this`loggedInUser
      ensures Valid()
      ensures old(loggedInUser).None? || old(loggedInUser).value.role != Teacher ==> verdict == None
      ensures old(loggedInUser).Some? && old(loggedInUser).value.role == Teacher ==>
        verdict == Some(CheckCourse(old(courses), name, code, None))
      ensures verdict != Some(Accepted) ==>
        courses == old(courses) && allUsers == old(allUsers) && loggedInUser == old(loggedInUser)
      ensures verdict == Some(Accepted) ==>
        var teacher := old(loggedInUser).value;
        var course := NewCourse(name, code, teacher.id, stamp);
        var updated := teacher.(courseIds := teacher.courseIds + [course.id]);
        courses == old(courses) + [course] &&
        loggedInUser == Some(updated) &&
        allUsers == ReplaceUser(old(allUsers), teacher.id, updated)
      ensures old(Updates.CatalogueValid(courses)) && FreshCourseId(old(courses), stamp) ==>
        Updates.CatalogueValid(courses)
    {
      if loggedInUser.None? || loggedInUser.value.role != Teacher {
        return None;
      }
      var teacher := loggedInUser.value;
      var check := CheckCourse(courses, name, code, None);
      verdict := Some(check);
      if check != Accepted {
        return;
      }
      var course := NewCourse(name, code, teacher.id, stamp);
      var updated := teacher.(courseIds := teacher.courseIds + [course.id]);
      ReplaceSessionUser(updated);
      AddCourseKeepsCatalogue(courses, name, code, teacher.id, stamp);
      courses := courses + [course];
    }

    /** The step `handleCreateCourse` and `handleDeleteCourse` share: the
        session takes the updated copy of its user, which also replaces every
        stored user with that id. */
    method ReplaceSessionUser(updated: User)
      requires Valid() && loggedInUser.Some? && updated.id == loggedInUser.value.id
      modifies this`allUsers, this`loggedInUser
      ensures Valid()
      ensures loggedInUser == Some(updated)
      ensures allUsers == ReplaceUser(old(allUsers), updated.id, updated)
    {
      SameIdsKeepListed(allUsers, ReplaceUser(allUsers, updated.id, updated), updated.id);
      loggedInUser := Some(updated);
      allUsers := ReplaceUser(allUsers, updated.id, updated);
    }

    /** `handleUpdateCourse`: the same checks, not counting the edited course;
        when accepted the course with the id takes the trimmed name and code.
        A valid catalogue stays valid. */
    method UpdateCourse(id: string, name: string, code: string) returns (verdict: CourseVerdict)
      modifies this`courses
      ensures verdict == CheckCourse(old(courses), name, code, Some(id))
      ensures verdict == Accepted ==> courses == RenameCourse(old(courses), id, name, code)
      ensures verdict != Accepted ==> courses == old(courses)
      ensures old(Updates.CatalogueValid(courses)) ==> Updates.CatalogueValid(courses)
    {
      verdict := CheckCourse(courses, name, code, Some(id));
      if verdict == Accepted {
        if Updates.CatalogueValid(courses) {
          RenameCourseKeepsCatalogue(courses, id, name, code);
        }
        courses := RenameCourse(courses, id, name, code);
      }
    }

    /** The delete button of the course manager: remembers the course until
        the confirmation is answered. */
    method RequestCourseDelete(course: Course)
      modifies this`courseToDelete
      ensures courseToDelete == Some(course)
    {
      courseToDelete := Some(course);
    }

    /** The confirmation's cancel button. */
    method CancelCourseDelete()
      modifies this`courseToDelete
      ensures courseToDelete == None
    {
      courseToDelete := None;
    }

    /** `handleDeleteCourse`: with a course pending, removes it, removes its
        id from every stored user and from the session user (whose copy then
        replaces its stored entries), and clears the pending course.
        Assignments, quizzes and announcements of the course are kept. With
        nothing pending, nothing changes. */
    method DeleteCourse()
      requires Valid()
      modifies this`courses, this`allUsers, this`loggedInUser, this`courseToDelete
      ensures Valid()
      ensures old(courseToDelete).None? ==>
        courses == old(courses) && allUsers == old(allUsers) && loggedInUser == old(loggedInUser) &&
        courseToDelete == None
      ensures old(courseToDelete).Some? ==>
        var id := old(courseToDelete).value.id;
        courses == RemoveCourse(old(courses), id) &&
        courseToDelete == None &&
        (old(loggedInUser).None? ==> loggedInUser == None && allUsers == UnenrolAll(old(allUsers), id)) &&
        (old(loggedInUser).Some? ==>
           var updated := old(loggedInUser).value.(courseIds := WithoutCourseId(old(loggedInUser).value.courseIds, id));
           loggedInUser == Some(updated) &&
           allUsers == ReplaceUser(UnenrolAll(old(allUsers), id), updated.id, updated))
      ensures old(courseToDelete).Some? ==>
        var id := old(courseToDelete).value.id;
        (forall c :: c in courses ==> c.id != id) &&
        (forall i :: 0 <= i < |allUsers| ==> id !in allUsers[i].courseIds) &&
        (loggedInUser.Some? ==> id !in loggedInUser.value.courseIds)
      ensures old(Updates.CatalogueValid(courses)) ==> Updates.CatalogueValid(courses)
    {
      if courseToDelete.None? {
        return;
      }
      var id := courseToDelete.value.id;
      if Updates.CatalogueValid(courses) {
        RemoveCourseKeepsCatalogue(courses, id);
      }
      courses := RemoveCourse(courses, id);
      var unenrolled := UnenrolAll(allUsers, id);
      if loggedInUser.Some? {
        SameIdsKeepListed(allUsers, unenrolled, loggedInUser.value.id);
      }
      allUsers := unenrolled;
      if loggedInUser.Some? {
        var user := loggedInUser.value;
        DeleteCourseUnenrols(old(allUsers), id, user);
        ReplaceSessionUser(user.(courseIds := WithoutCourseId(user.courseIds, id)));
      }
      courseToDelete := None;
    }

    // ------------------------------------------------------------ assignments

    /** `handleCreateAssignment`, on a page shown only with a course selected:
        the new assignment, with no submissions, goes first. */
    method CreateAssignment(title: string, description: string, dueDate: int, stamp: string)
      requires Views.IsSelected(selectedCourseId)
      modifies this`assignments
      ensures assignments ==
        [Assignment("assign" + stamp, selectedCourseId.value, title, description, dueDate, [])] + old(assignments)
    {
      var assignment := Assignment("assign" + stamp, selectedCourseId.value, title, description, dueDate, []);
      assignments := [assignment] + assignments;
    }

    /** `handleGradeSubmission`: overwrites grade and feedback in place. */
    method GradeSubmission(assignmentId: string, studentId: string, grade: string, feedback: string)
      modifies this`assignments
      ensures assignments == GradeAssignments(old(assignments), assignmentId, studentId, grade, feedback)
      ensures |assignments| == |old(assignments)|
      ensures grade != "" ==> Views.SubmissionsToGrade(assignments) <= Views.SubmissionsToGrade(old(assignments))
    {
      if grade != "" {
        GradingShrinksBacklog(assignments, assignmentId, studentId, grade, feedback);
      }
      assignments := GradeAssignments(assignments, assignmentId, studentId, grade, feedback);
    }

    // ------------------------------------------------------------ announcements, videos, templates

    /** `handlePost`: with a title and content, the announcement, signed with
        the session user's name, goes first; otherwise nothing changes. */
    method PostAnnouncement(title: string, content: string, stamp: string, createdAt: int)
      requires loggedInUser.Some? && Views.IsSelected(selectedCourseId)
      modifies this`announcements
      ensures title == "" || content == "" ==> announcements == old(announcements)
      ensures title != "" && content != "" ==>
        announcements == [Announcement("anno" + stamp, selectedCourseId.value, title, content,
                                       loggedInUser.value.name, createdAt)] + old(announcements)
    {
      if title == "" || content == "" {
        return;
      }
      var announcement := Announcement("anno" + stamp, selectedCourseId.value, title, content,
                                       loggedInUser.value.name, createdAt);
      announcements := [announcement] + announcements;
    }

    /** `handleUpload`: with a title and a chosen file, the upload, credited to
        the session user, goes first; otherwise nothing changes. */
    method UploadVideo(title: string, hasFile: bool, stamp: string, uploadedAt: int)
      requires loggedInUser.Some?
      modifies this`videos
      ensures title == "" || !hasFile ==> videos == old(videos)
      ensures title != "" && hasFile ==>
        videos == [VideoUpload("vid-" + stamp, loggedInUser.value.id, loggedInUser.value.name, title, uploadedAt)]
                  + old(videos)
    {
      if title == "" || !hasFile {
        return;
      }
      var video := VideoUpload("vid-" + stamp, loggedInUser.value.id, loggedInUser.value.name, title, uploadedAt);
      videos := [video] + videos;
    }

    /** `handleCreateTemplate`: the new template goes first. */
    method CreateTemplate(name: string, title: string, description: string, stamp: string)
      modifies this`assignmentTemplates
      ensures assignmentTemplates == [AssignmentTemplate("template-" + stamp, name, title, description)]
                                     + old(assignmentTemplates)
    {
      assignmentTemplates := [AssignmentTemplate("template-" + stamp, name, title, description)] + assignmentTemplates;
    }

    /** `handleDeleteTemplate` with the template awaiting confirmation, if any:
        removes every template with its id and nothing else. */
    method DeleteTemplate(pending: Option<AssignmentTemplate>)
      modifies this`assignmentTemplates
      ensures pending.None? ==> assignmentTemplates == old(assignmentTemplates)
      ensures pending.Some? ==> assignmentTemplates == RemoveTemplate(old(assignmentTemplates), pending.value.id)
      ensures pending.Some? ==> forall t :: t in assignmentTemplates <==> t in old(assignmentTemplates) && t.id != pending.value.id
    {
      if pending.Some? {
        assignmentTemplates := RemoveTemplate(assignmentTemplates, pending.value.id);
      }
    }
  }
}
