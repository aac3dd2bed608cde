# School data store of the EduSphere app, in Dafny

EduSphere is a single-page school portal. Its `App()` component holds all of
its data in memory: users, courses, assignments (with their submissions),
quizzes, video uploads, announcements and assignment templates. It also holds
a session: the logged-in user, the authenticated flag, the role the app is
viewed as, the selected course and the course awaiting deletion. Every
handler reads a collection, builds a new collection value and replaces the
old one. Read-only views (per-course filters, dashboard counters, upcoming
deadlines, the calendar's day events) are derived from the collections.

This project models that store and proves what its handlers and views
promise.

- `domain.dfy` (`Domain`): the records of `types.ts`. Dates are integer
  millisecond timestamps.
- `seqs.dfy` (`Seqs`): `filter`, counting and the stable ascending sort, with
  their order and permutation properties.
- `text.dfy` (`Text`): ASCII `toLowerCase` and JavaScript `trim`. It also has
  the date-reviver's recogniser for `toISOString` text, with the writer and
  reader of that text.
- `views.dfy` (`Views`): the derived views, as functions with lemmas.
- `updates.dfy` (`Updates`): the new collection values that the handlers
  compute, and the invariants those values keep. The main invariant is the
  course catalogue: no two courses share an id, a lower-cased name or a
  lower-cased code.
- `store.dfy` (`Store`): class `SchoolStore`, one field per state slot of
  `App()`. Each handler is a method whose `modifies` clause names the slots
  its setters replace. Its `ensures` give the new state in terms of the
  `Updates` functions.

The clock (`Date.now()`, `new Date()`), `Math.random()` and the data URL
produced by the file reader are method parameters. These are the stamps that
ids are built from, the creation times, the random password text and the
picture URL.

The model follows the code; in particular:

- `handleCreateTemplate` puts the new template first, not last.
- "Active Quizzes" counts quizzes with `start < now < end`; a quiz whose
  start equals now is not active.
- `handleCreateCourse` does not itself reject an empty trimmed name or code.
  The course manager's form checks for that before it calls the handler.
- `handleUpdateStudentRole` has no role check. Only the students page
  restricts who can call it.

## Model

| member | source | states |
|---|---|---|
| Seqs.Filter | App.tsx:1220 | the result holds exactly the elements of the input that satisfy the predicate, and its length is their count |
| Seqs.FilterSubsequence | App.tsx:1361-1379 | filtering keeps the relative order of the elements it keeps |
| Seqs.SortBySpec | App.tsx:376 | the sort by due date is ascending and is a permutation of its input |
| Text.Lower | App.tsx:1295-1296 | `toLowerCase` (ASCII) keeps the length and leaves no upper-case ASCII letter |
| Text.LowerIdempotent | App.tsx:1295-1296 | lower-casing an already lower-cased text changes nothing |
| Text.TrimStartSpec | App.tsx:1292-1293 | the start of `trim` drops only a trimmable prefix and stops at a non-trimmable character |
| Text.TrimEndSpec | App.tsx:1292-1293 | the end of `trim` drops only a trimmable suffix and stops at a non-trimmable character |
| Text.TrimSpec | App.tsx:1292-1293 | the trimmed text is a slice of the input with only trimmable characters cut at both ends, and no trimmable character at either end of the result |
| Text.TrimIdempotent | App.tsx:1292-1293 | trimming twice equals trimming once |
| Text.FormatIsoRoundTrip | App.tsx:25-31 | every date of a year from 0 to 9999, written as `toISOString` text, is recognised by the reviver's pattern and reads back to the same fields |
| Text.ParseIsoRoundTrip | App.tsx:25-31 | a recognised string with a real dot at position 19 is exactly the text written for the fields read from it |
| Text.SeparatorIsUnchecked | App.tsx:26 | the pattern as written accepts `2024-01-01T00:00:00X000Z`, which no date is written as |
| Text.IsoTimestampExactlyWritten | App.tsx:26 | with the dot escaped, the pattern accepts exactly the texts written for digit fields within their widths (both directions) |
| Text.EscapedPatternAcceptsMonth13 | App.tsx:26 | even with the dot escaped, the pattern accepts `2024-13-01T00:00:00.000Z`, which no calendar date (month 1 to 12) is written as |
| Views.AllStudents | App.tsx:1220 | the result holds exactly the users whose role is Student |
| Views.StudentsForCourse | App.tsx:1361-1364 | empty when no course is selected (null or empty id); otherwise exactly the students enrolled in the selected course |
| Views.StudentsForCourseOrder | App.tsx:1361-1364 | the course's students are the filter of all users by "student and enrolled", in their order among the users |
| Views.AssignmentsForCourse | App.tsx:1366-1369 | empty without a selection; otherwise exactly the assignments of the selected course |
| Views.QuizzesForCourse | App.tsx:1371-1374 | empty without a selection; otherwise exactly the quizzes of the selected course |
| Views.AnnouncementsForCourse | App.tsx:1376-1379 | empty without a selection; otherwise exactly the announcements of the selected course |
| Views.CourseViewsKeepOrder | App.tsx:1366-1379 | the per-course assignment, quiz and announcement views keep collection order |
| Views.PendingCountSpec | App.tsx:352 | pending plus submitted assignments make up all assignments; none is pending exactly when the user has submitted to every one |
| Views.ActiveQuizCount | App.tsx:353 | the count is the number of quizzes with `start < now < end`, and zero exactly when there is none |
| Views.SubmissionsToGradeSpec | App.tsx:358 | "Submissions to Grade" equals the number of submissions minus those with a non-empty grade |
| Views.DashboardStats | App.tsx:351-360 | student cards exactly when viewed as Student: the assignments not submitted to by the user and the active quizzes; teacher cards otherwise: the course's students and assignments, and the submissions minus those with a non-empty grade |
| Views.UpcomingDeadlinesSpec | App.tsx:374-377 | at most three assignments, as many as are due after now up to three, all due after now, in ascending order, and no omitted future assignment is due before an included one |
| Views.UpcomingDeadlinesExample | App.tsx:374-377 | due dates of +1, −1, +5 and +2 days give the +1, +2 and +5 day assignments, in that order |
| Views.EventsForDay | App.tsx:407-421 | the assignments due within the day, then the quizzes ending within it; its size is the sum of the two counts |
| Views.StudentsPageAccess | App.tsx:788-800 | the students page is denied exactly to students without a governing role; everyone else may register students |
| Updates.FindCredentials | App.tsx:1234 | none found exactly when no user matches both username and password; otherwise the position of the first match |
| Updates.LastEight | App.tsx:1253 | `slice(-8)` keeps the last eight characters, or all of a shorter text |
| Updates.GeneratedUsernameShape | App.tsx:1252 | the username is the lower-cased first name, a dot, and the lower-cased first letter of the surname (nothing for an empty surname) |
| Updates.DanaLeeUsername | App.tsx:1252 | "Dana" "Lee" gives the username "dana.l" |
| Updates.RegisteringTwiceSharesUsername | App.tsx:1251-1264 | two registrations with the same names and different stamps give two ids sharing one username (no collision check) |
| Updates.SetStudentRole | App.tsx:1269-1271 | the users with the id get the new student role and nothing else changes |
| Updates.SetStudentRoleGrantsRegistration | App.tsx:1269-1271 | after the update, a student may register students exactly when the new role is not Regular |
| Updates.SetPicture | App.tsx:1278 | the users with the id get the new picture and nothing else changes |
| Updates.ReplaceUser | App.tsx:1316 | the users with the id become the session copy; the others stay as they were |
| Updates.CheckCourseSpec | App.tsx:1292-1305 | the name clash is reported first; a course is accepted exactly when no counted course clashes on name or code |
| Updates.AddCourseKeepsCatalogue | App.tsx:1307-1313 | appending an accepted course with a fresh id keeps the catalogue valid |
| Updates.RenameCourseFrame | App.tsx:1335 | renaming changes only the name and code of the course with the id; an unknown id changes nothing |
| Updates.RenameCourseKeepsCatalogue | App.tsx:1319-1335 | an accepted rename keeps the catalogue valid |
| Updates.RemoveCourse | App.tsx:1341 | exactly the courses with another id remain |
| Updates.RemoveCourseKeepsCatalogue | App.tsx:1341 | removal keeps the order of the other courses and keeps the catalogue valid |
| Updates.WithoutCourseId | App.tsx:1343-1346 | the deleted id is gone and every other id remains |
| Updates.UnenrolAll | App.tsx:1343-1346 | every user loses the deleted id and nothing else |
| Updates.DeleteCourseUnenrols | App.tsx:1338-1355 | after both user updates no user has the id; the logged-in user's entries become the session copy; every other user keeps its other ids in order |
| Updates.GradeAssignmentsSpec | App.tsx:703-713 | only the matching submissions of the matching assignment get the grade and feedback; every other field of every assignment is kept, and so are who submitted and when; no match changes nothing |
| Updates.RegradeOverwrites | App.tsx:703-713 | grading twice equals grading once with the second values |
| Updates.GradingShrinksBacklog | App.tsx:703-713 | grading with a non-empty grade never raises "Submissions to Grade" |
| Updates.RemoveTemplate | App.tsx:986 | exactly the templates with another id remain, and the size drops by the number with that id |
| Store.SchoolStore.constructor | App.tsx:1200-1217 | the collections as loaded; no session, no selection, no pending deletion |
| Store.SchoolStore.Login | App.tsx:1233-1242 | succeeds exactly when some user matches; the session then holds the first match and views as its role; failure changes nothing |
| Store.SchoolStore.Logout | App.tsx:1244-1248 | clears the session user, the flag and the view role |
| Store.SchoolStore.SetViewAsRole | App.tsx:267-271 | a teacher's toggle sets the acting role only |
| Store.SchoolStore.SelectCourse | App.tsx:1285-1287 | the selected course becomes the chosen id |
| Store.SchoolStore.RegisterStudent | App.tsx:1251-1267 | the new student is appended, and the credentials shown are its name, username and password |
| Store.SchoolStore.DismissCredentials | App.tsx:1394 | the credentials modal is cleared |
| Store.SchoolStore.UpdateStudentRole | App.tsx:1269-1271 | the stored users become `SetStudentRole` of the old ones; the session stays valid |
| Store.SchoolStore.ChangeProfilePicture | App.tsx:1273-1282 | with a user logged in, that user's stored entries and the session copy get the picture; otherwise nothing changes |
| Store.SchoolStore.CreateCourse | App.tsx:1289-1317 | ignored for non-teachers; on a clash nothing changes and the clash is reported; otherwise the course is appended, owned by the teacher, and its id is added to the session copy, which replaces the teacher's stored entries; a valid catalogue stays valid when the id is fresh |
| Store.SchoolStore.ReplaceSessionUser | App.tsx:1314-1316 | the session and every stored user with its id become the updated copy |
| Store.SchoolStore.UpdateCourse | App.tsx:1319-1336 | the same checks with the edited course not counted; accepted means renamed, otherwise unchanged; a valid catalogue stays valid |
| Store.SchoolStore.RequestCourseDelete | App.tsx:1409 | remembers the course awaiting confirmation |
| Store.SchoolStore.CancelCourseDelete | App.tsx:1398 | forgets the course awaiting confirmation |
| Store.SchoolStore.DeleteCourse | App.tsx:1338-1358 | with nothing pending nothing changes; otherwise the course is gone, no user or session user keeps its id, assignments, quizzes and announcements are kept, and a valid catalogue stays valid |
| Store.SchoolStore.CreateAssignment | App.tsx:692-701 | the new assignment, in the selected course and with no submissions, goes first |
| Store.SchoolStore.GradeSubmission | App.tsx:703-714 | assignments become `GradeAssignments` of the old ones, with the same length and no larger grading backlog for a non-empty grade |
| Store.SchoolStore.PostAnnouncement | App.tsx:298-309 | with an empty title or content nothing changes; otherwise the announcement, signed by the session user, goes first |
| Store.SchoolStore.UploadVideo | App.tsx:878-890 | with no title or no file nothing changes; otherwise the upload, credited to the session user, goes first |
| Store.SchoolStore.CreateTemplate | App.tsx:978-982 | the new template goes first |
| Store.SchoolStore.DeleteTemplate | App.tsx:984-989 | with nothing pending nothing changes; otherwise exactly the templates with another id remain |

## Findings

| source | as written | input that shows it | evidently intended | confidence | as-written member | corrected member |
|---|---|---|---|---|---|---|
| App.tsx:26 | the `.` before the milliseconds is unescaped, so any character other than a line terminator matches there | a stored string field `2024-01-01T00:00:00X000Z` is revived into an invalid date on reload | `\.`: position 19 must be a real dot, so only text of the shape `FormatIso` writes is revived; month, day and time ranges stay unchecked even then (Text.EscapedPatternAcceptsMonth13) | medium, not executed | Text.SeparatorIsUnchecked | Text.IsoTimestampExactlyWritten |

## Left out

- Persistence: the local-storage adapter, JSON encoding, the reviver's
  `new Date(...)` call and the fallback to seed data are not modelled. The
  model starts from the loaded collections and gives no constructor for the
  seed data.
- The conversion between a millisecond timestamp and the calendar fields of
  `toISOString` is not modelled. The round trips are stated on the fields and
  their text.
- Text.FormatIsoRoundTrip: holds for years 0 to 9999 only. For other years
  `toISOString` writes a signed six-digit year (`+010000-01-01T00:00:00.000Z`),
  which the reviver's pattern rejects, so such a date comes back as a string
  after a reload. `Text.FormatIso` writes only four year digits and does not
  model that form.
- Text.LooksLikeIsoDate and Updates.CharAt0: a Dafny string is a sequence of
  Unicode scalar values, while JavaScript strings are UTF-16 code units. The
  reviver's pattern (no `u` flag) counts a character outside the Basic
  Multilingual Plane as two positions and `charAt(0)` of a surname starting
  with such a character gives a lone surrogate; the model treats it as one
  character in both places.
- Text.Lower: models `toLowerCase` on ASCII letters only. The Unicode case
  mapping of JavaScript is not modelled.
- Views.ActiveQuizCount and Views.UpcomingDeadlinesSpec take one `now`. The
  source reads the clock again for every element.
- Views.EventsForDay takes the day's bounds as parameters. Building them from
  the displayed month with `setHours` in local time is not modelled.
- Seqs.SortBySpec: the sort is a stable insertion sort, but its stability is
  not stated as a property.
- Store.SchoolStore.ChangeProfilePicture: the asynchronous file reading is not
  modelled. The method is the completion callback, given the data URL. It
  uses the session user at the time of the call.
- Store.SchoolStore.GradeSubmission: the assignments page's modal copy of the
  assignment (`selectedAssignment`) is view state and is not modelled.
- Store.SchoolStore.DeleteTemplate: the pending template is the templates
  page's own state and is passed in.
- File payloads (`Submission.file`, `VideoUpload.videoFile`) are not modelled.
  A video upload is given as a flag saying whether a file was chosen.
- Theme switching, routing, page titles, the sidebar, the header's course
  drop-down and the modals' open flags are display state and are not
  modelled. So are the quiz-taking page and the students page's
  view-credentials button.
- Store.SchoolStore.CreateCourse: the course catalogue is shown to stay valid
  only when the generated id is fresh. `course` plus the millisecond clock is
  assumed to differ from every existing id.
