/**
 * The request handlers of the portal. The signed-in user is passed to every
 * handler explicitly; the tables are read as values by the read-only views
 * and updated in place by the three views that write.
 */
module Views {
  import opened Wrappers
  import opened Query
  import opened Models

  // ----------------------------------------------------------- Responses

  /** The named routes a handler redirects to. */
  datatype Route =
    | Login
    | TeacherDashboard
    | StudentDashboard
    | AdminIndex
    | TeacherAnnouncements
    | TeacherStudentDetail(studentId: UserId)

  /** The pages the handlers render, with the records each shows. */
  datatype Page =
    | LoginPage
    | TeacherHome(students: seq<User>)
    | StudentDetailPage(student: User, results: seq<Result>)
    | AnnouncementFormPage
    | StudentAnnouncementFormPage(student: User)
    | ResultFormPage(student: User)
    | StudentHome
    | AnnouncementsPage(announcements: seq<Announcement>)
    | ResultsPage(results: seq<Result>)
    | ProfilePage
    | TeacherAnnouncementsPage(all: seq<Announcement>, global: seq<Announcement>, specific: seq<Announcement>)
    | TeacherResultsPage(students: seq<User>, results: seq<Result>)
    | StudentsPage(students: seq<User>)

  /** What a handler answers: a redirect, a rendered page, not found, or an error page for an uncaught exception. */
  datatype Response = Redirect(to: Route) | Render(page: Page) | NotFound | ServerError

  /** An outgoing email: subject line, recipients and, for a result, the percentage it reports. */
  datatype Mail = Mail(subject: string, recipients: seq<string>, percentage: Option<real>)

  // --------------------------------------------------------- Record sets

  /** The accounts whose role is student, in table order. */
  function StudentsOf(users: seq<User>): (students: seq<User>)
    ensures forall u :: u in students <==> u in users && u.IsStudent()
  {
    var isStudent := (u: User) => u.IsStudent();
    assert forall u :: u in Filter(users, isStudent) <==> u in users && u.IsStudent() by {
      forall u { FilterExact(users, isStudent, u); }
    }
    Filter(users, isStudent)
  }

  /** The emails of all student accounts, in table order. */
  function StudentEmails(users: seq<User>): (emails: seq<string>)
    ensures |emails| <= |users|
    ensures forall e :: e in emails <==> exists u :: u in users && u.IsStudent() && u.email == e
  {
    if users == [] then []
    else (if users[0].IsStudent() then [users[0].email] else []) + StudentEmails(users[1..])
  }

  /** The student with this id, or none: a lookup that answers not found otherwise. */
  function FindStudent(users: seq<User>, id: UserId): (found: Option<User>)
    ensures found.Some? ==> found.value in users && found.value.id == id && found.value.IsStudent()
    ensures found.None? ==> forall u :: u in users ==> !(u.id == id && u.IsStudent())
  {
    if users == [] then None
    else if users[0].id == id && users[0].IsStudent() then Some(users[0])
    else FindStudent(users[1..], id)
  }

  /** Whether a student sees an announcement: it is active, and global or aimed at that student. */
  predicate CanView(viewer: User, a: Announcement)
    ensures CanView(viewer, a) ==> a.isActive
    ensures a.isActive && !a.IsStudentSpecific() ==> CanView(viewer, a)
    ensures a.IsStudentSpecific() ==> (CanView(viewer, a) <==> a.isActive && a.student.value == viewer.id)
  {
    a.isActive && (a.student.None? || a.student.value == viewer.id)
  }

  /** The announcements a student sees, in table order. */
  function VisibleTo(viewer: User, anns: seq<Announcement>): seq<Announcement> {
    Filter(anns, (a: Announcement) => CanView(viewer, a))
  }

  /** The results a student owns, in table order. */
  function OwnResults(viewer: User, rows: seq<Result>): seq<Result> {
    Filter(rows, (r: Result) => r.student == viewer.id)
  }

  /** The global announcements (aimed at no student), in table order. */
  function GlobalOnes(anns: seq<Announcement>): seq<Announcement> {
    Filter(anns, (a: Announcement) => !a.IsStudentSpecific())
  }

  /** The announcements aimed at one student, in table order. */
  function SpecificOnes(anns: seq<Announcement>): seq<Announcement> {
    Filter(anns, (a: Announcement) => a.IsStudentSpecific())
  }

  // ------------------------------------------------------------- Sign-in

  /** The dashboard a signed-in user lands on, decided by the role tag alone. */
  function LandingRoute(u: User): (to: Route)
    ensures to == TeacherDashboard <==> u.IsTeacher()
    ensures to == StudentDashboard <==> u.IsStudent()
    ensures to == AdminIndex <==> !u.IsTeacher() && !u.IsStudent()
  {
    match RoleOf(u.role)
    case Teacher => TeacherDashboard
    case Student => StudentDashboard
    case _ => AdminIndex
  }

  /**
   * The sign-in handler. `authenticated` is what the credential check
   * returned for the posted email and password: the user, or none.
   */
  function LoginView(isPost: bool, authenticated: Option<User>): (resp: Response)
    ensures resp.Redirect? <==> isPost && authenticated.Some?
    ensures resp.Redirect? ==> resp.to == LandingRoute(authenticated.value)
    ensures !resp.Redirect? ==> resp == Render(LoginPage)
  {
    if isPost && authenticated.Some? then Redirect(LandingRoute(authenticated.value))
    else Render(LoginPage)
  }

  /** Two users with the same role tag are sent to the same place after signing in. */
  lemma LoginRoutesByRoleOnly(u: User, v: User)
    requires u.role == v.role
    ensures LoginView(true, Some(u)) == LoginView(true, Some(v))
  {
  }

  // ---------------------------------------------------------- Read views

  /** teacher_dashboard: the student accounts, for teachers only. */
  function TeacherDashboardView(viewer: User, users: seq<User>): (resp: Response)
    ensures !viewer.IsTeacher() ==> resp == Redirect(Login)
    ensures viewer.IsTeacher() ==> resp.Render? && resp.page.TeacherHome?
    ensures resp.Render? ==> forall u :: u in resp.page.students <==> u in users && u.IsStudent()
  {
    if !viewer.IsTeacher() then Redirect(Login) else Render(TeacherHome(StudentsOf(users)))
  }

  /** teacher_students: the student accounts, for teachers only. */
  function TeacherStudentsView(viewer: User, users: seq<User>): (resp: Response)
    ensures !viewer.IsTeacher() ==> resp == Redirect(Login)
    ensures viewer.IsTeacher() ==> resp.Render? && resp.page.StudentsPage?
    ensures resp.Render? ==> forall u :: u in resp.page.students <==> u in users && u.IsStudent()
  {
    if !viewer.IsTeacher() then Redirect(Login) else Render(StudentsPage(StudentsOf(users)))
  }

  /** teacher_student_detail: one student and all of that student's results. */
  function TeacherStudentDetailView(viewer: User, users: seq<User>, rows: seq<Result>, studentId: UserId)
    : (resp: Response)
    ensures !viewer.IsTeacher() ==> resp == Redirect(Login)
    ensures resp == NotFound <==> viewer.IsTeacher() && FindStudent(users, studentId).None?
    ensures viewer.IsTeacher() && FindStudent(users, studentId).Some? ==> resp.Render? && resp.page.StudentDetailPage?
    ensures resp.Render? ==> resp.page.student in users && resp.page.student.id == studentId
                             && resp.page.student.IsStudent()
    ensures resp.Render? ==> forall r :: r in resp.page.results <==> r in rows && r.student == studentId
  {
    if !viewer.IsTeacher() then Redirect(Login)
    else match FindStudent(users, studentId)
      case None => NotFound
      case Some(s) =>
        var own := (r: Result) => r.student == s.id;
        assert forall r :: r in Filter(rows, own) <==> r in rows && r.student == studentId by {
          forall r { FilterExact(rows, own, r); }
        }
        Render(StudentDetailPage(s, Filter(rows, own)))
  }

  /**
   * teacher_announcements: every announcement, and the same list split into
   * the global ones and the ones aimed at a student.
   */
  function TeacherAnnouncementsView(viewer: User, anns: seq<Announcement>): (resp: Response)
    ensures !viewer.IsTeacher() ==> resp == Redirect(Login)
    ensures viewer.IsTeacher() ==> resp.Render? && resp.page.TeacherAnnouncementsPage? && resp.page.all == anns
    ensures resp.Render? ==> forall a :: a in resp.page.global ==> a in anns && !a.IsStudentSpecific()
    ensures resp.Render? ==> forall a :: a in resp.page.specific ==> a in anns && a.IsStudentSpecific()
    ensures resp.Render? ==> multiset(resp.page.global) + multiset(resp.page.specific) == multiset(anns)
  {
    if !viewer.IsTeacher() then Redirect(Login)
    else
      FilterPartition(anns, (a: Announcement) => a.IsStudentSpecific(), (a: Announcement) => !a.IsStudentSpecific());
      Render(TeacherAnnouncementsPage(anns, GlobalOnes(anns), SpecificOnes(anns)))
  }

  /** teacher_results: the student accounts and every result. */
  function TeacherResultsView(viewer: User, users: seq<User>, rows: seq<Result>): (resp: Response)
    ensures !viewer.IsTeacher() ==> resp == Redirect(Login)
    ensures viewer.IsTeacher() ==> resp.Render? && resp.page.TeacherResultsPage? && resp.page.results == rows
    ensures resp.Render? ==> forall u :: u in resp.page.students <==> u in users && u.IsStudent()
  {
    if !viewer.IsTeacher() then Redirect(Login) else Render(TeacherResultsPage(StudentsOf(users), rows))
  }

  /** student_dashboard: for students only. */
  function StudentDashboardView(viewer: User): (resp: Response)
    ensures resp == Redirect(Login) <==> !viewer.IsStudent()
    ensures viewer.IsStudent() ==> resp == Render(StudentHome)
  {
    if viewer.role != "student" then Redirect(Login) else Render(StudentHome)
  }

  /** profile: for students only. */
  function ProfileView(viewer: User): (resp: Response)
    ensures resp == Redirect(Login) <==> !viewer.IsStudent()
    ensures viewer.IsStudent() ==> resp == Render(ProfilePage)
  {
    if viewer.role != "student" then Redirect(Login) else Render(ProfilePage)
  }

  /** student_announcements: the announcements the signed-in student may see. */
  function StudentAnnouncementsView(viewer: User, anns: seq<Announcement>): (resp: Response)
    ensures !viewer.IsStudent() ==> resp == Redirect(Login)
    ensures viewer.IsStudent() ==> resp.Render? && resp.page.AnnouncementsPage?
    ensures resp.Render? ==> forall a :: a in resp.page.announcements <==>
                               a in anns && a.isActive && (a.student.None? || a.student == Some(viewer.id))
  {
    if !viewer.IsStudent() then Redirect(Login)
    else
      assert forall a :: a in VisibleTo(viewer, anns) <==> a in anns && CanView(viewer, a) by {
        forall a { FilterExact(anns, (a: Announcement) => CanView(viewer, a), a); }
      }
      Render(AnnouncementsPage(VisibleTo(viewer, anns)))
  }

  /** student_results: the results of the signed-in student. */
  function StudentResultsView(viewer: User, rows: seq<Result>): (resp: Response)
    ensures !viewer.IsStudent() ==> resp == Redirect(Login)
    ensures viewer.IsStudent() ==> resp.Render? && resp.page.ResultsPage?
    ensures resp.Render? ==> forall r :: r in resp.page.results <==> r in rows && r.student == viewer.id
  {
    if !viewer.IsStudent() then Redirect(Login)
    else
      assert forall r :: r in OwnResults(viewer, rows) <==> r in rows && r.student == viewer.id by {
        forall r { FilterExact(rows, (r: Result) => r.student == viewer.id, r); }
      }
      Render(ResultsPage(OwnResults(viewer, rows)))
  }

  /** The dashboard a user lands on after signing in lets that user in. */
  lemma LandingPassesGuard(u: User, users: seq<User>)
    ensures LandingRoute(u) == TeacherDashboard ==> TeacherDashboardView(u, users).Render?
    ensures LandingRoute(u) == StudentDashboard ==> StudentDashboardView(u).Render?
  {
  }

  // ---------------------------------------------------------- Visibility

  /**
   * A student's announcement list holds each announcement the student may
   * see exactly as often as the table does, and nothing else.
   */
  lemma StudentAnnouncementsExact(viewer: User, anns: seq<Announcement>, a: Announcement)
    ensures multiset(VisibleTo(viewer, anns))[a] == if CanView(viewer, a) then multiset(anns)[a] else 0
  {
    FilterCount(anns, (a: Announcement) => CanView(viewer, a), a);
  }

  /** Every student sees every active global announcement. */
  lemma GlobalAnnouncementReachesEveryStudent(viewer: User, anns: seq<Announcement>, a: Announcement)
    requires a in anns && a.isActive && !a.IsStudentSpecific()
    ensures a in VisibleTo(viewer, anns)
  {
    FilterExact(anns, (a: Announcement) => CanView(viewer, a), a);
  }

  /** No student sees an announcement aimed at a different student, nor an inactive one. */
  lemma NoForeignAnnouncement(viewer: User, anns: seq<Announcement>, a: Announcement)
    requires (a.student.Some? && a.student.value != viewer.id) || !a.isActive
    ensures a !in VisibleTo(viewer, anns)
  {
  }

  /** A student's result list holds each of the student's results exactly as often as the table does. */
  lemma OwnResultsExact(viewer: User, rows: seq<Result>, r: Result)
    ensures multiset(OwnResults(viewer, rows))[r] == if r.student == viewer.id then multiset(rows)[r] else 0
  {
    FilterCount(rows, (r: Result) => r.student == viewer.id, r);
  }

  /** Selecting rows of a table with distinct keys keeps the keys distinct. */
  lemma {:induction false} FilterKeepsKeysDistinct(rows: seq<Result>, p: Result -> bool)
    requires KeysDistinct(rows)
    ensures KeysDistinct(Filter(rows, p))
  {
    if rows != [] {
      FilterKeepsKeysDistinct(rows[1..], p);
      var rest := Filter(rows[1..], p);
      forall j | 0 <= j < |rest| ensures rest[j].Key() != rows[0].Key() {
        assert rest[j] in rows[1..];
        var k :| 0 <= k < |rows[1..]| && rows[1..][k] == rest[j];
        assert rows[k + 1] == rest[j];
      }
    }
  }

  /** With one result per (student, subject), a student's result list names each subject at most once. */
  lemma OwnResultsOnePerSubject(viewer: User, rows: seq<Result>)
    requires KeysDistinct(rows)
    ensures forall i, j :: 0 <= i < j < |OwnResults(viewer, rows)| ==>
              OwnResults(viewer, rows)[i].subject != OwnResults(viewer, rows)[j].subject
  {
    var own := OwnResults(viewer, rows);
    FilterKeepsKeysDistinct(rows, (r: Result) => r.student == viewer.id);
    forall i, j | 0 <= i < j < |own| ensures own[i].subject != own[j].subject {
      assert own[i] in own && own[j] in own;
      assert own[i].Key() != own[j].Key();
    }
  }

  // ----------------------------------------------------------- The upsert

  /**
   * The result table after a teacher submits `g` for (student, subject):
   * the row for that pair gets the four submitted fields and a new update
   * time, or a new row created by `teacher` is appended when there is none.
   */
  function Upserted(rows: seq<Result>, student: UserId, subject: string, g: Grading, teacher: UserId, now: nat)
    : (after: seq<Result>)
    ensures |after| == if FindResult(rows, (student, subject)).Some? then |rows| else |rows| + 1
    ensures forall j :: 0 <= j < |rows| && rows[j].Key() != (student, subject) ==> after[j] == rows[j]
    ensures exists j :: 0 <= j < |after| && after[j].Key() == (student, subject) && after[j].Submitted() == g
  {
    match FindResult(rows, (student, subject))
    case Some(i) =>
      var updated := rows[i := rows[i].(marksObtained := g.marksObtained, totalMarks := g.totalMarks, grade := g.grade,
                                        remarks := g.remarks, updatedAt := now)];
      assert updated[i].Key() == (student, subject) && updated[i].Submitted() == g;
      updated
    case None =>
      var grown := rows + [Result(student, subject, g.marksObtained, g.totalMarks, g.grade, g.remarks, teacher, now, now)];
      assert grown[|rows|].Key() == (student, subject);
      grown
  }

  /** The upsert keeps at most one row per (student, subject). */
  lemma UpsertKeepsKeysDistinct(rows: seq<Result>, student: UserId, subject: string, g: Grading, teacher: UserId,
                                now: nat)
    requires KeysDistinct(rows)
    ensures KeysDistinct(Upserted(rows, student, subject, g, teacher, now))
  {
    var after := Upserted(rows, student, subject, g, teacher, now);
    forall i, j | 0 <= i < j < |after| ensures after[i].Key() != after[j].Key() {
      if j == |rows| {
        assert after[i] == rows[i];
      }
    }
  }

  /**
   * After the upsert exactly one row holds (student, subject), and it holds
   * the submitted fields and the clock reading of the submission.
   */
  lemma {:induction false} UpsertStoresSubmission(rows: seq<Result>, student: UserId, subject: string, g: Grading,
                                                  teacher: UserId, now: nat)
    requires KeysDistinct(rows)
    ensures var held := ResultsFor(Upserted(rows, student, subject, g, teacher, now), (student, subject));
            |held| == 1 && held[0].Submitted() == g && held[0].updatedAt == now
  {
    var after := Upserted(rows, student, subject, g, teacher, now);
    UpsertKeepsKeysDistinct(rows, student, subject, g, teacher, now);
    ResultsForDistinct(after, (student, subject));
    match FindResult(rows, (student, subject))
    case Some(i) =>
      assert after[i].Key() == (student, subject);
    case None =>
      assert after[|rows|].Key() == (student, subject);
  }

  /**
   * Resubmitting for a pair that already has a row changes that row's four
   * submitted fields and update time only: its creator and creation time
   * stay, the table keeps its size and every other row is as it was.
   */
  lemma UpsertKeepsProvenance(rows: seq<Result>, student: UserId, subject: string, g: Grading, teacher: UserId,
                              now: nat, i: nat)
    requires FindResult(rows, (student, subject)) == Some(i)
    ensures var after := Upserted(rows, student, subject, g, teacher, now);
            && |after| == |rows|
            && after[i].Key() == rows[i].Key()
            && after[i].createdBy == rows[i].createdBy && after[i].createdAt == rows[i].createdAt
            && after[i].Submitted() == g && after[i].updatedAt == now
            && forall j :: 0 <= j < |rows| && j != i ==> after[j] == rows[j]
  {
  }

  /**
   * Submitting for a pair without a row grows the table by exactly one row,
   * created by the submitting teacher at the clock reading of the submission.
   */
  lemma UpsertInsertsOne(rows: seq<Result>, student: UserId, subject: string, g: Grading, teacher: UserId, now: nat)
    requires FindResult(rows, (student, subject)).None?
    ensures var after := Upserted(rows, student, subject, g, teacher, now);
            && |after| == |rows| + 1
            && after[..|rows|] == rows
            && after[|rows|].Key() == (student, subject)
            && after[|rows|].Submitted() == g
            && after[|rows|].createdBy == teacher
            && after[|rows|].createdAt == now && after[|rows|].updatedAt == now
            && ResultsFor(after, (student, subject)) == ResultsFor(rows, (student, subject)) + [after[|rows|]]
  {
    var created := Result(student, subject, g.marksObtained, g.totalMarks, g.grade, g.remarks, teacher, now, now);
    FilterAppendAccepted(rows, (r: Result) => r.Key() == (student, subject), created);
  }

  /** The rows of every other (student, subject) pair are untouched by the upsert. */
  lemma UpsertLeavesOtherPairs(rows: seq<Result>, student: UserId, subject: string, g: Grading, teacher: UserId,
                               now: nat, other: (UserId, string))
    requires other != (student, subject)
    ensures ResultsFor(Upserted(rows, student, subject, g, teacher, now), other) == ResultsFor(rows, other)
  {
    var p := (r: Result) => r.Key() == other;
    match FindResult(rows, (student, subject))
    case Some(i) =>
      var v := rows[i].(marksObtained := g.marksObtained, totalMarks := g.totalMarks, grade := g.grade,
                        remarks := g.remarks, updatedAt := now);
      FilterUpdateRejected(rows, p, i, v);
    case None =>
      FilterAppendRejected(rows, p,
        Result(student, subject, g.marksObtained, g.totalMarks, g.grade, g.remarks, teacher, now, now));
  }

  /** One submission: the grading, the submitting teacher and the clock reading. */
  datatype Submission = Submission(g: Grading, teacher: UserId, now: nat)

  /** The result table after the submissions `subs` for one pair, in order. */
  function UpsertedAll(rows: seq<Result>, student: UserId, subject: string, subs: seq<Submission>): seq<Result>
    decreases |subs|
  {
    if subs == [] then rows
    else UpsertedAll(Upserted(rows, student, subject, subs[0].g, subs[0].teacher, subs[0].now), student, subject, subs[1..])
  }

  /**
   * Once a pair has a row at position i, any further submissions for it keep
   * it at i, keep its creator and creation time, and leave it holding the
   * last submission's fields and clock reading.
   */
  lemma {:induction false} ResubmissionsUpdateInPlace(rows: seq<Result>, student: UserId, subject: string,
                                                      subs: seq<Submission>, i: nat)
    requires KeysDistinct(rows) && FindResult(rows, (student, subject)) == Some(i) && subs != []
    ensures var after := UpsertedAll(rows, student, subject, subs);
            && KeysDistinct(after)
            && FindResult(after, (student, subject)) == Some(i)
            && after[i] == rows[i].(marksObtained := subs[|subs| - 1].g.marksObtained,
                                    totalMarks := subs[|subs| - 1].g.totalMarks,
                                    grade := subs[|subs| - 1].g.grade,
                                    remarks := subs[|subs| - 1].g.remarks,
                                    updatedAt := subs[|subs| - 1].now)
    decreases |subs|
  {
    var s := subs[0];
    var next := Upserted(rows, student, subject, s.g, s.teacher, s.now);
    UpsertKeepsKeysDistinct(rows, student, subject, s.g, s.teacher, s.now);
    UpsertKeepsProvenance(rows, student, subject, s.g, s.teacher, s.now, i);
    var found := FindResult(next, (student, subject));
    assert found == Some(i);
    if |subs| > 1 {
      ResubmissionsUpdateInPlace(next, student, subject, subs[1..], i);
      assert subs[1..][|subs[1..]| - 1] == subs[|subs| - 1];
    }
  }

  /** A first submission for a pair without a row appends the row it is found at from then on. */
  lemma FirstPublishAppends(rows: seq<Result>, student: UserId, subject: string, s: Submission)
    requires KeysDistinct(rows) && FindResult(rows, (student, subject)).None?
    ensures var first := Upserted(rows, student, subject, s.g, s.teacher, s.now);
            && KeysDistinct(first)
            && FindResult(first, (student, subject)) == Some(|rows|)
            && first[|rows|] == Result(student, subject, s.g.marksObtained, s.g.totalMarks, s.g.grade, s.g.remarks,
                                       s.teacher, s.now, s.now)
  {
    var created := Result(student, subject, s.g.marksObtained, s.g.totalMarks, s.g.grade, s.g.remarks,
                          s.teacher, s.now, s.now);
    UpsertKeepsKeysDistinct(rows, student, subject, s.g, s.teacher, s.now);
    FindAppended(rows, (student, subject), created);
  }

  /**
   * Any number of submissions for a pair that had no row leave exactly one
   * row for it: created by the first submitter at the first clock reading,
   * holding the last submission's fields and clock reading.
   */
  lemma RepeatedPublishConverges(rows: seq<Result>, student: UserId, subject: string, subs: seq<Submission>)
    requires KeysDistinct(rows) && FindResult(rows, (student, subject)).None? && subs != []
    ensures var last := subs[|subs| - 1];
            ResultsFor(UpsertedAll(rows, student, subject, subs), (student, subject))
              == [Result(student, subject, last.g.marksObtained, last.g.totalMarks, last.g.grade, last.g.remarks,
                         subs[0].teacher, subs[0].now, last.now)]
  {
    var key := (student, subject);
    var s, last := subs[0], subs[|subs| - 1];
    var first := Upserted(rows, student, subject, s.g, s.teacher, s.now);
    FirstPublishAppends(rows, student, subject, s);
    var after := UpsertedAll(first, student, subject, subs[1..]);
    if |subs| == 1 {
      assert subs[1..] == [];
    } else {
      ResubmissionsUpdateInPlace(first, student, subject, subs[1..], |rows|);
      assert subs[1..][|subs[1..]| - 1] == last;
    }
    ResultsForDistinct(after, key);
  }

  // ---------------------------------------------------------- Write views

  /** The announcement form: title, content, priority and whether to email it. */
  datatype AnnouncementForm = AnnouncementForm(title: string, content: string, priority: string, sendEmail: bool)

  /** The result form: subject, the four graded fields and whether to email the student. */
  datatype ResultForm = ResultForm(subject: string, grading: Grading, sendEmail: bool)

  /**
   * The email announcing a saved result to its student, reporting the
   * stored row's percentage; none can be built for a zero total, whose
   * decimal division raises while the message is formatted.
   */
  function ResultMail(student: User, saved: Result): (m: Option<Mail>)
    ensures m.Some? <==> saved.totalMarks != 0.0
    ensures m.Some? ==> m.value.subject == "New Result Published: " + saved.subject
    ensures m.Some? ==> m.value.recipients == [student.email]
    ensures m.Some? ==> m.value.percentage.Some?
                        && m.value.percentage.value * saved.totalMarks == saved.marksObtained * 100.0
  {
    match saved.Percentage()
    case None => None
    case Some(p) => Some(Mail("New Result Published: " + saved.subject, [student.email], Some(p)))
  }

  /**
   * teacher_create_announcement: a teacher posts a global announcement,
   * optionally emailed to every student account.
   */
  method TeacherCreateAnnouncement(viewer: User, users: seq<User>, table: AnnouncementTable, isPost: bool,
                                   form: AnnouncementForm, now: nat)
    returns (resp: Response, mail: Option<Mail>)
    modifies table
    ensures !viewer.IsTeacher() ==> resp == Redirect(Login) && mail.None? && table.rows == old(table.rows)
    ensures viewer.IsTeacher() && !isPost ==>
              resp == Render(AnnouncementFormPage) && mail.None? && table.rows == old(table.rows)
    ensures viewer.IsTeacher() && isPost ==>
              && table.rows == old(table.rows) + [Announcement(form.title, form.content, viewer.id, now,
                                                               form.priority, true, None)]
              && resp == Redirect(TeacherAnnouncements)
              && mail == if form.sendEmail then Some(Mail("New Announcement: " + form.title, StudentEmails(users), None))
                         else None
  {
    if !viewer.IsTeacher() {
      return Redirect(Login), None;
    }
    if !isPost {
      return Render(AnnouncementFormPage), None;
    }
    var _ := table.Create(form.title, form.content, form.priority, viewer.id, None, now);
    mail := if form.sendEmail then Some(Mail("New Announcement: " + form.title, StudentEmails(users), None)) else None;
    resp := Redirect(TeacherAnnouncements);
  }

  /**
   * teacher_create_student_announcement: a teacher posts an announcement
   * aimed at one student, optionally emailed to that student alone.
   */
  method TeacherCreateStudentAnnouncement(viewer: User, users: seq<User>, table: AnnouncementTable, studentId: UserId,
                                          isPost: bool, form: AnnouncementForm, now: nat)
    returns (resp: Response, mail: Option<Mail>)
    modifies table
    ensures !viewer.IsTeacher() ==> resp == Redirect(Login) && mail.None? && table.rows == old(table.rows)
    ensures viewer.IsTeacher() && FindStudent(users, studentId).None? ==>
              resp == NotFound && mail.None? && table.rows == old(table.rows)
    ensures viewer.IsTeacher() && FindStudent(users, studentId).Some? && !isPost ==>
              resp == Render(StudentAnnouncementFormPage(FindStudent(users, studentId).value))
              && mail.None? && table.rows == old(table.rows)
    ensures viewer.IsTeacher() && FindStudent(users, studentId).Some? && isPost ==>
              var s := FindStudent(users, studentId).value;
              && table.rows == old(table.rows) + [Announcement(form.title, form.content, viewer.id, now,
                                                               form.priority, true, Some(s.id))]
              && resp == Redirect(TeacherStudentDetail(s.id))
              && mail == if form.sendEmail then Some(Mail("New Personal Announcement: " + form.title, [s.email], None))
                         else None
  {
    if !viewer.IsTeacher() {
      return Redirect(Login), None;
    }
    var found := FindStudent(users, studentId);
    if found.None? {
      return NotFound, None;
    }
    var s := found.value;
    if !isPost {
      return Render(StudentAnnouncementFormPage(s)), None;
    }
    var _ := table.Create(form.title, form.content, form.priority, viewer.id, Some(s.id), now);
    mail := if form.sendEmail then Some(Mail("New Personal Announcement: " + form.title, [s.email], None)) else None;
    resp := Redirect(TeacherStudentDetail(s.id));
  }

  /**
   * teacher_add_result: a teacher submits a result for one student; the
   * row for (student, subject) is updated in place, or created with the
   * teacher as its creator, and optionally the student is emailed.
   */
  method TeacherAddResult(viewer: User, users: seq<User>, table: ResultTable, studentId: UserId, isPost: bool,
                          form: ResultForm, now: nat)
    returns (resp: Response, mail: Option<Mail>)
    requires table.Valid()
    modifies table
    ensures table.Valid()
    ensures !viewer.IsTeacher() ==> resp == Redirect(Login) && mail.None? && table.rows == old(table.rows)
    ensures viewer.IsTeacher() && FindStudent(users, studentId).None? ==>
              resp == NotFound && mail.None? && table.rows == old(table.rows)
    ensures viewer.IsTeacher() && FindStudent(users, studentId).Some? && !isPost ==>
              resp == Render(ResultFormPage(FindStudent(users, studentId).value))
              && mail.None? && table.rows == old(table.rows)
    ensures viewer.IsTeacher() && FindStudent(users, studentId).Some? && isPost ==>
              var s := FindStudent(users, studentId).value;
              && table.rows == Upserted(old(table.rows), s.id, form.subject, form.grading, viewer.id, now)
              && resp == (if form.sendEmail && form.grading.totalMarks == 0.0 then ServerError
                          else Redirect(TeacherStudentDetail(s.id)))
              && (mail.Some? <==> form.sendEmail && form.grading.totalMarks != 0.0)
              && (mail.Some? ==> mail.value.subject == "New Result Published: " + form.subject
                                 && mail.value.recipients == [s.email]
                                 && mail.value.percentage == PercentageOf(form.grading.marksObtained,
                                                                          form.grading.totalMarks))
  {
    if !viewer.IsTeacher() {
      return Redirect(Login), None;
    }
    var found := FindStudent(users, studentId);
    if found.None? {
      return NotFound, None;
    }
    var s := found.value;
    if !isPost {
      return Render(ResultFormPage(s)), None;
    }
    var saved := SaveSubmission(table, s.id, form, viewer.id, now);
    mail := if form.sendEmail then ResultMail(s, saved) else None;
    resp := if form.sendEmail && mail.None? then ServerError else Redirect(TeacherStudentDetail(s.id));
  }

  /**
   * The write of teacher_add_result: update the row for (student, subject)
   * in place, or create it with `teacher` as creator; `saved` is that row.
   */
  method SaveSubmission(table: ResultTable, student: UserId, form: ResultForm, teacher: UserId, now: nat)
    returns (saved: Result)
    requires table.Valid()
    modifies table
    ensures table.Valid()
    ensures table.rows == Upserted(old(table.rows), student, form.subject, form.grading, teacher, now)
    ensures saved in table.rows && saved.Key() == (student, form.subject) && saved.Submitted() == form.grading
  {
    match FindResult(table.rows, (student, form.subject)) {
      case Some(i) =>
        table.Save(i, form.grading, now);
        saved := table.rows[i];
      case None =>
        var _ := table.Create(student, form.subject, form.grading, teacher, now);
        saved := table.rows[|table.rows| - 1];
    }
  }

  // ------------------------------------------- The emailed percentage, as written

  /**
   * A value as Python holds it in a model attribute: text as posted, a
   * decimal as loaded from the database, or None.
   */
  datatype PyValue = PyStr(text: string) | PyDecimal(d: real) | PyNone

  /** What looking up a field of the posted form yields: its text, or None when it is missing. */
  function Posted(field: Option<string>): PyValue {
    if field.Some? then PyStr(field.value) else PyNone
  }

  /**
   * `marks_obtained / total_marks * 100` evaluated on attribute values:
   * only two decimals divide, and a zero divisor raises; none stands for
   * the raised exception.
   */
  function PercentageAsWritten(marks: PyValue, total: PyValue): (p: Option<real>)
    ensures p.Some? <==> marks.PyDecimal? && total.PyDecimal? && total.d != 0.0
    ensures p.Some? ==> p == PercentageOf(marks.d, total.d)
  {
    if marks.PyDecimal? && total.PyDecimal? && total.d != 0.0 then Some(marks.d / total.d * 100.0) else None
  }

  /**
   * When the result email is requested, the percentage is read from the
   * instance the view just assigned the posted text to, so it always raises;
   * for 45 out of 50 the intended figure is 90.
   */
  lemma PostedPercentageRaises(marks: Option<string>, total: Option<string>)
    ensures PercentageAsWritten(Posted(marks), Posted(total)).None?
    ensures PercentageAsWritten(Posted(Some("45")), Posted(Some("50"))).None? && PercentageOf(45.0, 50.0) == Some(90.0)
  {
  }

  /**
   * teacher_add_result as written: the same guard, lookup and write, but
   * with the email requested the percentage is computed from the instance
   * attributes, which hold the posted text `rawMarks` and `rawTotal`; the
   * exception it raises turns the answer into an error page after the row
   * is saved, and no email is sent.
   */
  method TeacherAddResultAsWritten(viewer: User, users: seq<User>, table: ResultTable, studentId: UserId,
                                   isPost: bool, form: ResultForm, rawMarks: Option<string>,
                                   rawTotal: Option<string>, now: nat)
    returns (resp: Response, mail: Option<Mail>)
    requires table.Valid()
    modifies table
    ensures table.Valid()
    ensures !viewer.IsTeacher() ==> resp == Redirect(Login) && mail.None? && table.rows == old(table.rows)
    ensures viewer.IsTeacher() && FindStudent(users, studentId).None? ==>
              resp == NotFound && mail.None? && table.rows == old(table.rows)
    ensures viewer.IsTeacher() && FindStudent(users, studentId).Some? && !isPost ==>
              resp == Render(ResultFormPage(FindStudent(users, studentId).value))
              && mail.None? && table.rows == old(table.rows)
    ensures viewer.IsTeacher() && FindStudent(users, studentId).Some? && isPost ==>
              var s := FindStudent(users, studentId).value;
              && table.rows == Upserted(old(table.rows), s.id, form.subject, form.grading, viewer.id, now)
              && mail.None?
              && resp == if form.sendEmail then ServerError else Redirect(TeacherStudentDetail(s.id))
  {
    if !viewer.IsTeacher() {
      return Redirect(Login), None;
    }
    var found := FindStudent(users, studentId);
    if found.None? {
      return NotFound, None;
    }
    var s := found.value;
    if !isPost {
      return Render(ResultFormPage(s)), None;
    }
    var _ := SaveSubmission(table, s.id, form, viewer.id, now);
    if form.sendEmail {
      var pct := PercentageAsWritten(Posted(rawMarks), Posted(rawTotal));
      resp := if pct.None? then ServerError else Redirect(TeacherStudentDetail(s.id));
      mail := if pct.None? then None else Some(Mail("New Result Published: " + form.subject, [s.email], pct));
    } else {
      resp, mail := Redirect(TeacherStudentDetail(s.id)), None;
    }
  }
}
