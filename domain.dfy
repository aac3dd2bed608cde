/** The records of the school data store (types.ts). Dates are integer
    millisecond timestamps; optional properties are `Option`s; file payloads
    (`Submission.file`, `VideoUpload.videoFile`) are not part of this model. */
module Domain {

  datatype Option<+T> = None | Some(value: T)

  datatype UserRole = Student | Teacher

  datatype StudentRole = Regular | Governor | AssistantGovernor

  datatype Course = Course(id: string, name: string, code: string, teacherId: string)

  datatype User = User(
    id: string,
    name: string,
    role: UserRole,
    email: string,
    studentNumber: string,
    phone: string,
    surname: string,
    firstName: string,
    otherNames: Option<string>,
    profilePictureUrl: Option<string>,
    bio: Option<string>,
    courseIds: seq<string>,
    username: string,
    password: string,
    studentRole: Option<StudentRole>)

  datatype Submission = Submission(
    studentId: string,
    studentName: string,
    submittedAt: int,
    grade: Option<string>,
    feedback: Option<string>)

  datatype Assignment = Assignment(
    id: string,
    courseId: string,
    title: string,
    description: string,
    dueDate: int,
    submissions: seq<Submission>)

  datatype AssignmentTemplate = AssignmentTemplate(id: string, name: string, title: string, description: string)

  datatype QuizQuestion = QuizQuestion(question: string, options: seq<string>, correctAnswerIndex: int)

  datatype Quiz = Quiz(
    id: string,
    courseId: string,
    title: string,
    startTime: int,
    endTime: int,
    durationMinutes: int,
    questions: seq<QuizQuestion>)

  datatype VideoUpload = VideoUpload(id: string, studentId: string, studentName: string, title: string, uploadedAt: int)

  datatype Announcement = Announcement(
    id: string,
    courseId: string,
    title: string,
    content: string,
    author: string,
    createdAt: int)
}
