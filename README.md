# Academic records portal — Dafny model

This project models the core of a small academic records portal built on
Django. Teachers publish announcements and results. Students see their own
results and the announcements meant for them. Every page checks the role of
the signed-in user.

The model covers two things:

- **The result upsert.** `teacher_add_result` looks up the result for a
  (student, subject) pair. If one exists, it overwrites the four submitted
  fields in place. Otherwise it creates a new row with the submitting teacher
  as creator. The result table (`Models.ResultTable`) is a class over a
  `seq<Result>`. Its invariant is that no two rows share a (student, subject)
  pair. Clock readings (`now: nat`) stand for the `created_at` and
  `updated_at` timestamps. The function `Views.Upserted` specifies the upsert,
  and `Views.TeacherAddResult` is proved against it. Lemmas prove what it
  promises:
  - exactly one row per pair after the upsert, holding the submitted values;
  - the creator and creation time are kept on resubmission;
  - the table grows by exactly one on a first submission;
  - the rows of every other pair are untouched;
  - after any number of submissions for a pair that had no row, one row
    remains, with the first submitter as creator and the last submission's
    values; for a pair that had one, the original creator and creation time
    stay.
- **Roles and visibility.** Each handler is modelled with the signed-in user
  passed in explicitly:
  - the role guard (the wrong role is redirected to login and no record
    changes);
  - sign-in routing by role;
  - the student announcement filter (active, and global or aimed at the
    viewer);
  - the student results filter (owned by the viewer);
  - the teacher's split of announcements into global and student-specific
    ones (disjoint, and together every announcement);
  - the recipients of the notification emails.

  The user-model helpers are modelled too: `is_teacher`, `is_student`,
  `get_full_name`, `get_role_display`, `is_student_specific`, `percentage`,
  and the checks in
  `create_user` and `create_superuser`.

Files:

- `wrappers.dfy`: `Option` and `Outcome`.
- `query.dfy`: row selection as a queryset `filter` performs it, with lemmas
  on counts, partition, and updates of rejected rows.
- `models.dfy`: `users/models.py`.
- `views.dfy`: `users/views.py`.

The recipients of a global announcement include inactive student accounts:
users/views.py:74 selects accounts by role only. `Views.StudentEmails`
states exactly that set.

## Model

| member | source | states |
|---|---|---|
| `Models.RoleOf` | users/models.py:31-37 | `teacher`, `student` and `admin` denote the teacher, student and admin roles; every other tag is kept as it is, unlisted |
| `Models.RoleTagRoundTrip` | users/models.py:31-37 | reading a stored tag as a role and writing it back gives the same tag |
| `Models.RoleOfRoundTrip` | users/models.py:31-37 | writing a role as its tag and reading it back gives the same role |
| `Models.ChoiceLabel` | users/models.py:64 | `dict(choices).get(key, default)`: when some pair has the key, the label returned is the one of the last such pair, as a dictionary built from the pairs keeps it; when none does, the default comes back |
| `Models.User.RoleDisplay` | users/models.py:63-64 | `teacher`/`student`/`admin` map to `Teacher`/`Student`/`Admin`; any other role tag is returned unchanged |
| `Models.EmailLocalPart` | users/models.py:61 | `email.split('@')[0]`: a prefix of the email with no `@`, ending at the first `@` or at the end of the email |
| `Models.User.FullName` | users/models.py:60-61 | the full name when it is set and non-empty; otherwise the part of the email before its first `@` |
| `Models.TeacherStudentExclusive` | users/models.py:52-58 | `is_teacher` holds iff the role is teacher and `is_student` iff it is student, so never both |
| `Models.NewUser` | users/models.py:12-21 | a missing or empty email fails first, then a missing or empty role; otherwise the user carries the normalised email, the role and the extra fields or their defaults |
| `Models.SuperuserExtra` | users/models.py:24-25 | `is_staff` and `is_superuser` default to true and keep any value the caller gave |
| `Models.NewSuperuser` | users/models.py:23-28 | always an admin, staff and superuser unless told otherwise; fails only for a missing email |
| `Models.SuperuserIgnoresRole` | users/models.py:26-28 | the role passed to `create_superuser` does not affect the account created |
| `Models.UserTable.Insert` | users/models.py:36 | saving a user whose email is already stored fails with an integrity error and stores nothing; otherwise the user is appended under a fresh id |
| `Models.UserTable.CreateUser` | users/models.py:12-21 | the outcome is that of `NewUser`, or an integrity error for a taken email; the table grows only on success; ids and emails stay distinct |
| `Models.UserTable.CreateSuperuser` | users/models.py:23-28 | the outcome is that of `NewSuperuser` (or a taken email), whatever role was passed |
| `Models.AnnouncementTable.Create` | users/models.py:73-80 | a new announcement is active, stamped with the current clock and appended to the table |
| `Models.PercentageOf` | users/models.py:127-128 | defined exactly when the total is non-zero; the percentage times the total equals the marks times 100 |
| `Models.Result.Percentage` | users/models.py:127-128 | a result's percentage: defined iff `total_marks` is non-zero, and `p * total_marks == marks_obtained * 100` |
| `Models.PercentageExample` | users/models.py:127-128 | 45 marks out of 50 is 90 percent |
| `Models.FindResult` | users/views.py:156 | finds the first row for a (student, subject) pair, or reports that no row has it |
| `Models.ResultsForDistinct` | users/models.py:122 | when keys are distinct, the rows for a pair are the found row alone, or none |
| `Models.ResultTable.Save` | users/views.py:160-164 | only the four submitted fields and the update time of row i change; keys stay distinct |
| `Models.ResultTable.Create` | users/views.py:168-176 | a row whose pair is new is appended, stamped with the clock for both times; a taken pair is refused, so keys stay distinct |
| `Views.StudentsOf` | users/views.py:37 | the accounts listed are exactly those whose role is student |
| `Views.StudentEmails` | users/views.py:74 | the recipients of a global announcement are exactly the emails of accounts whose role is student |
| `Views.CanView` | users/views.py:217-219 | a student sees only active announcements; an active global one (not `is_student_specific`, users/models.py:90-92) is seen by every student, a student-specific one only by its target |
| `Views.FindStudent` | users/views.py:45 | finds a user with the given id and role student, or reports that no user has both |
| `Views.LandingRoute` | users/views.py:19-24 | teacher goes to `teacher_dashboard`, student to `student_dashboard`, and every other role to `admin:index` |
| `Views.LoginView` | users/views.py:12-25 | a redirect happens iff the request is a POST whose credentials authenticate, and it goes to the role's landing route; otherwise the login form is shown |
| `Views.LoginRoutesByRoleOnly` | users/views.py:17-24 | two users with the same role are routed to the same place |
| `Views.LandingPassesGuard` | users/views.py:19-22 | the dashboard a teacher or student lands on accepts that user |
| `Views.TeacherDashboardView` | users/views.py:33-38 | a non-teacher is redirected to login; a teacher sees exactly the student accounts |
| `Views.TeacherStudentsView` | users/views.py:273-278 | a non-teacher is redirected to login; a teacher sees exactly the student accounts |
| `Views.TeacherStudentDetailView` | users/views.py:40-52 | a non-teacher is redirected to login; an unknown student id gives not found; otherwise the page shows that student and exactly that student's results |
| `Views.TeacherAnnouncementsView` | users/views.py:251-260 | a non-teacher is redirected to login; a teacher sees every announcement, split into global and student-specific lists that are disjoint and together hold every announcement |
| `Views.TeacherResultsView` | users/views.py:262-271 | a non-teacher is redirected to login; a teacher sees every result and exactly the student accounts |
| `Views.StudentDashboardView` | users/views.py:205-209 | redirected to login iff the user is not a student |
| `Views.ProfileView` | users/views.py:230-234 | redirected to login iff the user is not a student |
| `Views.StudentAnnouncementsView` | users/views.py:211-220 | a non-student is redirected to login; a student sees exactly the announcements that are active and either global or aimed at that student |
| `Views.StudentResultsView` | users/views.py:222-228 | a non-student is redirected to login; a student sees exactly the results they own |
| `Views.StudentAnnouncementsExact` | users/views.py:217-219 | each visible announcement appears as often as in the table; every other announcement appears zero times |
| `Views.GlobalAnnouncementReachesEveryStudent` | users/views.py:217-219 | every student sees every active global announcement |
| `Views.NoForeignAnnouncement` | users/views.py:217-219 | no student sees an inactive announcement or one aimed at a different student |
| `Views.OwnResultsExact` | users/views.py:227 | a student's list holds each of their results as often as the table does, and nothing else |
| `Views.OwnResultsOnePerSubject` | users/views.py:227 | when the table holds one result per pair, a student's list names each subject at most once |
| `Views.Upserted` | users/views.py:156-176 | the table keeps its size when the pair already has a row and grows by one otherwise; rows of other pairs keep their positions and values; some row then holds the pair with the submitted values |
| `Views.UpsertKeepsKeysDistinct` | users/views.py:156-176 | the upsert keeps at most one result per (student, subject) |
| `Views.UpsertStoresSubmission` | users/views.py:156-176 | afterwards exactly one row holds the pair; it carries the submitted marks, total, grade and remarks and the submission's clock |
| `Views.UpsertKeepsProvenance` | users/views.py:158-165 | resubmitting changes only the four fields and the update time of the existing row; its creator and creation time stay, as does every other row and the table size |
| `Views.UpsertInsertsOne` | users/views.py:166-176 | a first submission grows the table by exactly one row, created by the submitting teacher at the current clock, and that row joins the pair's rows |
| `Views.UpsertLeavesOtherPairs` | users/views.py:156-176 | the rows of every other (student, subject) pair are unchanged |
| `Views.ResubmissionsUpdateInPlace` | users/views.py:158-165 | once a pair has a row, further submissions keep it at the same position with the same creator and creation time, holding the last submission |
| `Views.FirstPublishAppends` | users/views.py:166-176 | a first submission appends the row that later lookups find |
| `Views.RepeatedPublishConverges` | users/views.py:156-176 | after N submissions for a new pair there is exactly one row: creator and creation time from the first, values and update time from the last |
| `Views.ResultMail` | users/views.py:178-197 | the result email, subject `New Result Published: <subject>`, goes to the student alone and reports the stored row's percentage; for a zero total none can be built, as the decimal division raises |
| `Views.TeacherCreateAnnouncement` | users/views.py:54-94 | a non-teacher is redirected and nothing changes; a POST appends one global announcement by the teacher and mails all student emails when asked |
| `Views.TeacherCreateStudentAnnouncement` | users/views.py:96-138 | a non-teacher is redirected and nothing changes; an unknown student gives not found; a POST appends one announcement aimed at that student and mails only that student when asked |
| `Views.TeacherAddResult` | users/views.py:140-203 | a non-teacher is redirected and nothing changes; an unknown student gives not found; a POST turns the table into `Upserted` of the old one and keeps keys distinct; when the email is asked for with a zero total the answer is an error page and no mail, otherwise a redirect to the student detail, with the student mailed the subject line and the percentage when asked |
| `Views.SaveSubmission` | users/views.py:156-176 | the write of the handler: the table becomes `Upserted` of the old one, keys stay distinct, and the saved row holds the pair and the submitted values |
| `Views.TeacherAddResultAsWritten` | users/views.py:140-203 | the handler as written: same guard, lookup and write; with the email requested the row is saved but the request ends in an error page and no email is sent; without it, a redirect to the student detail |
| `Views.PercentageAsWritten` | users/views.py:189 | the percentage expression on attribute values: defined only when both are decimals and the total is non-zero |
| `Views.PostedPercentageRaises` | users/views.py:160-189 | with posted text in the attributes, the percentage in the result email always raises; for 45/50 the intended value is 90 |

## Findings

| source | as written | input that shows it | evidently intended | confidence | as-written member | corrected member |
|---|---|---|---|---|---|---|
| users/views.py:160-189 | both branches leave the posted text in `marks_obtained` and `total_marks` of the instance `result`. Django converts field values only when writing to the database, not on the instance. So `result.percentage()` evaluates `str / str` and raises `TypeError`. The row is already saved, but the mail is not sent and the request fails | POST with `marks=45`, `total_marks=50`, `send_email=on` | the email reports 90% (the stored decimals' percentage) | high, not executed; rests on Django leaving assigned attribute values unconverted on save | `Views.TeacherAddResultAsWritten` (with `Views.PercentageAsWritten` and `Views.PostedPercentageRaises`) | `Views.ResultMail` (used by `Views.TeacherAddResult`) |

## Left out

- Authentication, sessions and passwords are not modelled: `authenticate`, `login`, `logout`, `logout_view`, `set_password` and the `login_required` redirect of anonymous users. `LoginView` takes the outcome of the credential check as a parameter, and the model stores no credential.
- `normalize_email` is Django library code. `NewUser` and `UserTable.CreateUser` take it as a function parameter.
- `edit_profile` and the profile-image upload path (users/models.py:7-9, users/views.py:236-249) are plain field assignment plus file storage. They are not modelled, and neither is the student role guard of `edit_profile`.
- Email delivery is not modelled; notifications are fire-and-forget with `fail_silently`. A `Mail` value records only the subject line, the recipients and the reported percentage. Message bodies, `priority.upper()` and the `:.2f` formatting are left out.
- Template rendering and `messages.success` are left out. A `Page` value carries only the records a template receives.
- Query ordering (`-created_at`) is not modelled. Every list is in table order.
- `Models.FindResult` takes the first matching row in table order, where `.first()` takes the newest. The table invariant allows at most one matching row, so the two agree.
- Marks and totals are exact reals that are assumed already parsed. Not modelled:
  - `DecimalField` rounding to two places and its five-digit limit;
  - errors raised when saving unparsable text;
  - missing form fields.
- Primary keys of announcements and results are not modelled. Results are identified by their (student, subject) pair.
- `Views.TeacherAddResult` models the corrected email described under "## Findings": the stored decimals' percentage, so a zero total still raises (Python's `DivisionByZero`, or `InvalidOperation` for 0/0) and gives an error page after the row is saved. The as-written handler is `Views.TeacherAddResultAsWritten`; its error page stands for the uncaught exception, and the `messages.success` call it skips is not modelled.
- The race between lookup and create in the upsert is a concurrency concern and is outside this sequential model.
- These contain no logic and are not part of this model:
  - `users/urls.py`: a route table;
  - `users/admin.py`: admin-site configuration;
  - `academics/models.py`: an unused schema;
  - the `__str__` methods.
