/**
 * The records of the academic portal and the tables that hold them:
 * user accounts with a role tag, announcements (global or aimed at one
 * student) and results (one per student and subject).
 */
module Models {
  import opened Wrappers
  import opened Query

  /** A user's primary key. */
  type UserId = nat

  // ---------------------------------------------------------------- Roles

  /** The role a tag stands for; a tag outside the three choices is kept as it is. */
  datatype Role = Teacher | Student | Admin | Unlisted(tag: string)

  /** The role a stored role tag denotes. */
  function RoleOf(tag: string): (r: Role)
    ensures tag == "teacher" ==> r == Teacher
    ensures tag == "student" ==> r == Student
    ensures tag == "admin" ==> r == Admin
    ensures r.Unlisted? <==> tag != "teacher" && tag != "student" && tag != "admin"
    ensures r.Unlisted? ==> r.tag == tag
  {
    if tag == "teacher" then Teacher
    else if tag == "student" then Student
    else if tag == "admin" then Admin
    else Unlisted(tag)
  }

  /** The tag stored for a role. */
  function RoleTag(r: Role): string {
    match r
    case Teacher => "teacher"
    case Student => "student"
    case Admin => "admin"
    case Unlisted(tag) => tag
  }

  /** Reading a tag as a role and writing it back gives the same tag. */
  lemma RoleTagRoundTrip(tag: string)
    ensures RoleTag(RoleOf(tag)) == tag
  {
  }

  /** Writing a role as a tag and reading it back gives the same role, unless an unlisted tag spells a listed one. */
  lemma RoleOfRoundTrip(r: Role)
    requires r.Unlisted? ==> r.tag != "teacher" && r.tag != "student" && r.tag != "admin"
    ensures RoleOf(RoleTag(r)) == r
  {
  }

  /** The choices of the role field: (stored tag, label shown). */
  const RoleChoices: seq<(string, string)> := [("teacher", "Teacher"), ("student", "Student"), ("admin", "Admin")]

  /** No pair after position `i` has `key`. */
  predicate NoKeyAfter(choices: seq<(string, string)>, key: string, i: nat) {
    forall j :: i < j < |choices| ==> choices[j].0 != key
  }

  /**
   * The label a list of choices gives to `key`, or `default` when no pair has
   * that key; as for a dictionary built from the pairs, a later pair with the
   * key overrides an earlier one.
   */
  function ChoiceLabel(choices: seq<(string, string)>, key: string, default: string): (shown: string)
    ensures (forall i :: 0 <= i < |choices| ==> choices[i].0 != key) ==> shown == default
    ensures (exists i :: 0 <= i < |choices| && choices[i].0 == key) ==> (key, shown) in choices
    ensures forall i :: 0 <= i < |choices| && choices[i].0 == key && NoKeyAfter(choices, key, i) ==> shown == choices[i].1
    decreases |choices|
  {
    if choices == [] then default
    else
      var last := |choices| - 1;
      if choices[last].0 == key then choices[last].1
      else
        assert forall i :: 0 <= i < last ==> choices[..last][i] == choices[i];
        ChoiceLabel(choices[..last], key, default)
  }

  // ---------------------------------------------------------------- Users

  /**
   * The part of an email address before its first '@': the whole address
   * when it has none.
   */
  function EmailLocalPart(email: string): (local: string)
    ensures local <= email
    ensures '@' !in local
    ensures |local| < |email| ==> email[|local|] == '@'
  {
    if email == [] || email[0] == '@' then []
    else [email[0]] + EmailLocalPart(email[1..])
  }

  /** A user account. `role` is the stored tag, which the field does not restrict to the choices. */
  datatype User = User(
    id: UserId,
    email: string,
    role: string,
    isActive: bool,
    isStaff: bool,
    isSuperuser: bool,
    fullName: Option<string>,
    bio: Option<string>)
  {
    predicate IsTeacher() {
      role == "teacher"
    }

    predicate IsStudent() {
      role == "student"
    }

    /** The name to show: the full name when one is set and non-empty, else the local part of the email. */
    function FullName(): (name: string)
      ensures fullName.Some? && fullName.value != "" ==> name == fullName.value
      ensures fullName.None? || fullName.value == "" ==>
                name <= email && '@' !in name && (|name| < |email| ==> email[|name|] == '@')
    {
      if fullName.Some? && fullName.value != "" then fullName.value else EmailLocalPart(email)
    }

    /** The label of the user's role, or the role tag itself when it is not one of the choices. */
    function RoleDisplay(): (shown: string)
      ensures role == "teacher" ==> shown == "Teacher"
      ensures role == "student" ==> shown == "Student"
      ensures role == "admin" ==> shown == "Admin"
      ensures role != "teacher" && role != "student" && role != "admin" ==> shown == role
    {
      assert RoleChoices[0].0 == "teacher" && RoleChoices[1].0 == "student" && RoleChoices[2].0 == "admin";
      ChoiceLabel(RoleChoices, role, role)
    }
  }

  /** A user is never both teacher and student, and each flag is the corresponding role. */
  lemma TeacherStudentExclusive(u: User)
    ensures !(u.IsTeacher() && u.IsStudent())
    ensures u.IsTeacher() <==> RoleOf(u.role) == Teacher
    ensures u.IsStudent() <==> RoleOf(u.role) == Student
  {
  }

  /** Why creating an account fails. */
  datatype UserError =
    | MissingEmail  // ValueError: users must have an email address
    | MissingRole   // ValueError: users must have a role
    | EmailTaken    // IntegrityError: the email column is unique

  /**
   * The optional keyword arguments account creation passes on to the new
   * user; an absent one leaves the field at its default.
   */
  datatype ExtraFields = ExtraFields(
    isActive: Option<bool>,
    isStaff: Option<bool>,
    isSuperuser: Option<bool>,
    fullName: Option<string>,
    bio: Option<string>)

  /** Python's falsiness of an optional string argument: absent or empty. */
  predicate Falsy(s: Option<string>) {
    s.None? || s.value == ""
  }

  /**
   * The user `create_user` builds, or the error it raises: the email is
   * checked before the role, and the stored email is the normalised one.
   */
  function NewUser(id: UserId, email: Option<string>, role: Option<string>, extra: ExtraFields,
                   normalize: string -> string): (r: Outcome<User, UserError>)
    ensures Falsy(email) ==> r == Err(MissingEmail)
    ensures !Falsy(email) && Falsy(role) ==> r == Err(MissingRole)
    ensures r.Ok? <==> !Falsy(email) && !Falsy(role)
    ensures r.Ok? ==> r.value.id == id && r.value.email == normalize(email.value) && r.value.role == role.value
    ensures r.Ok? ==> r.value.isActive == extra.isActive.GetOr(true) && r.value.isStaff == extra.isStaff.GetOr(false)
    ensures r.Ok? ==> r.value.isSuperuser == extra.isSuperuser.GetOr(false)
    ensures r.Ok? ==> r.value.fullName == extra.fullName && r.value.bio == extra.bio
  {
    if Falsy(email) then Err(MissingEmail)
    else if Falsy(role) then Err(MissingRole)
    else Ok(User(id, normalize(email.value), role.value,
                 extra.isActive.GetOr(true), extra.isStaff.GetOr(false), extra.isSuperuser.GetOr(false),
                 extra.fullName, extra.bio))
  }

  /** The keyword arguments `create_superuser` passes on: staff and superuser flags default to true. */
  function SuperuserExtra(extra: ExtraFields): (e: ExtraFields)
    ensures e.isStaff == Some(extra.isStaff.GetOr(true)) && e.isSuperuser == Some(extra.isSuperuser.GetOr(true))
    ensures e.isActive == extra.isActive && e.fullName == extra.fullName && e.bio == extra.bio
  {
    extra.(isStaff := Some(extra.isStaff.GetOr(true)), isSuperuser := Some(extra.isSuperuser.GetOr(true)))
  }

  /**
   * The user `create_superuser` builds, whatever role the caller passed:
   * always an admin, staff and superuser unless the caller said otherwise,
   * failing only for a missing email.
   */
  function NewSuperuser(id: UserId, email: Option<string>, role: Option<string>, extra: ExtraFields,
                        normalize: string -> string): (r: Outcome<User, UserError>)
    ensures r.Err? <==> Falsy(email)
    ensures r.Err? ==> r.error == MissingEmail
    ensures r.Ok? ==> r.value.role == "admin" && r.value.email == normalize(email.value)
    ensures r.Ok? ==> r.value.isStaff == extra.isStaff.GetOr(true) && r.value.isSuperuser == extra.isSuperuser.GetOr(true)
  {
    NewUser(id, email, Some("admin"), SuperuserExtra(extra), normalize)
  }

  /** The role passed to `create_superuser` makes no difference to the account it creates. */
  lemma SuperuserIgnoresRole(id: UserId, email: Option<string>, role: Option<string>, other: Option<string>,
                             extra: ExtraFields, normalize: string -> string)
    ensures NewSuperuser(id, email, role, extra, normalize) == NewSuperuser(id, email, other, extra, normalize)
  {
  }

  /** Some stored user has this email. */
  predicate EmailInUse(rows: seq<User>, email: string) {
    exists i :: 0 <= i < |rows| && rows[i].email == email
  }

  /** The table of user accounts. */
  class UserTable {
    var rows: seq<User>
    var nextId: UserId

    /** Ids are below the next id and, like emails, distinct. */
    ghost predicate Valid()
      reads this
    {
      && (forall i :: 0 <= i < |rows| ==> rows[i].id < nextId)
      && (forall i, j :: 0 <= i < j < |rows| ==> rows[i].id != rows[j].id && rows[i].email != rows[j].email)
    }

    constructor ()
      ensures Valid() && rows == []
    {
      rows := [];
      nextId := 1;
    }

    /** Stores `candidate` under a fresh id unless its email is taken. */
    method Insert(candidate: Outcome<User, UserError>) returns (r: Outcome<User, UserError>)
      requires Valid()
      requires candidate.Ok? ==> candidate.value.id == nextId
      modifies this
      ensures Valid()
      ensures r == if candidate.Ok? && EmailInUse(old(rows), candidate.value.email) then Err(EmailTaken) else candidate
      ensures rows == if r.Ok? then old(rows) + [r.value] else old(rows)
    {
      if candidate.Ok? && EmailInUse(rows, candidate.value.email) {
        r := Err(EmailTaken);
      } else {
        r := candidate;
        if r.Ok? {
          rows := rows + [r.value];
          nextId := nextId + 1;
        }
      }
    }

    /** `create_user`: validate, build and save a new account. */
    method CreateUser(email: Option<string>, role: Option<string>, extra: ExtraFields, normalize: string -> string)
      returns (r: Outcome<User, UserError>)
      requires Valid()
      modifies this
      ensures Valid()
      ensures var n := NewUser(old(nextId), email, role, extra, normalize);
              r == if n.Ok? && EmailInUse(old(rows), n.value.email) then Err(EmailTaken) else n
      ensures rows == if r.Ok? then old(rows) + [r.value] else old(rows)
    {
      r := Insert(NewUser(nextId, email, role, extra, normalize));
    }

    /** `create_superuser`: drop the passed role, default the flags, and create an admin. */
    method CreateSuperuser(email: Option<string>, role: Option<string>, extra: ExtraFields, normalize: string -> string)
      returns (r: Outcome<User, UserError>)
      requires Valid()
      modifies this
      ensures Valid()
      ensures var n := NewSuperuser(old(nextId), email, role, extra, normalize);
              r == if n.Ok? && EmailInUse(old(rows), n.value.email) then Err(EmailTaken) else n
      ensures rows == if r.Ok? then old(rows) + [r.value] else old(rows)
    {
      r := CreateUser(email, Some("admin"), SuperuserExtra(extra), normalize);
    }
  }

  // -------------------------------------------------------- Announcements

  /** An announcement; `student` is the one student it is aimed at, or none for a global one. */
  datatype Announcement = Announcement(
    title: string,
    content: string,
    createdBy: UserId,
    createdAt: nat,
    priority: string,
    isActive: bool,
    student: Option<UserId>)
  {
    predicate IsStudentSpecific() {
      student.Some?
    }
  }

  /** The table of announcements, in insertion order. */
  class AnnouncementTable {
    var rows: seq<Announcement>

    constructor ()
      ensures rows == []
    {
      rows := [];
    }

    /** `Announcement.objects.create(...)`: a new active announcement stamped with the clock reading `now`. */
    method Create(title: string, content: string, priority: string, createdBy: UserId, student: Option<UserId>, now: nat)
      returns (a: Announcement)
      modifies this
      ensures a == Announcement(title, content, createdBy, now, priority, true, student)
      ensures rows == old(rows) + [a]
    {
      a := Announcement(title, content, createdBy, now, priority, true, student);
      rows := rows + [a];
    }
  }

  // -------------------------------------------------------------- Results

  /**
   * `marks / total * 100` in exact decimal arithmetic; none when the total is
   * zero, where decimal division raises.
   */
  function PercentageOf(marks: real, total: real): (p: Option<real>)
    ensures p.Some? <==> total != 0.0
    ensures p.Some? ==> p.value * total == marks * 100.0
  {
    if total == 0.0 then None else Some(marks / total * 100.0)
  }

  /** The four fields a teacher submits for a result. */
  datatype Grading = Grading(marksObtained: real, totalMarks: real, grade: string, remarks: Option<string>)

  /** One student's result in one subject, with who created it and the clock readings of its creation and last save. */
  datatype Result = Result(
    student: UserId,
    subject: string,
    marksObtained: real,
    totalMarks: real,
    grade: string,
    remarks: Option<string>,
    createdBy: UserId,
    createdAt: nat,
    updatedAt: nat)
  {
    /** The pair a result is unique for. */
    function Key(): (UserId, string) {
      (student, subject)
    }

    /** The four submitted fields of this result. */
    function Submitted(): Grading {
      Grading(marksObtained, totalMarks, grade, remarks)
    }

    /** Marks obtained as a percentage of the total marks. */
    function Percentage(): (p: Option<real>)
      ensures p.Some? <==> totalMarks != 0.0
      ensures p.Some? ==> p.value * totalMarks == marksObtained * 100.0
    {
      PercentageOf(marksObtained, totalMarks)
    }
  }

  /** 45 marks out of 50 is 90 percent. */
  lemma PercentageExample(r: Result)
    requires r.marksObtained == 45.0 && r.totalMarks == 50.0
    ensures r.Percentage() == Some(90.0)
  {
  }

  /** No two rows share a (student, subject) pair. */
  predicate KeysDistinct(rows: seq<Result>) {
    forall i, j :: 0 <= i < j < |rows| ==> rows[i].Key() != rows[j].Key()
  }

  /** The position of the first row for `key`, if any. */
  function FindResult(rows: seq<Result>, key: (UserId, string)): (found: Option<nat>)
    ensures found.Some? ==> found.value < |rows| && rows[found.value].Key() == key
    ensures found.Some? ==> forall i :: 0 <= i < found.value ==> rows[i].Key() != key
    ensures found.None? ==> forall i :: 0 <= i < |rows| ==> rows[i].Key() != key
  {
    if rows == [] then None
    else if rows[0].Key() == key then Some(0)
    else match FindResult(rows[1..], key)
      case None => None
      case Some(i) => Some(i + 1)
  }

  /** The rows for `key`. */
  function ResultsFor(rows: seq<Result>, key: (UserId, string)): seq<Result> {
    Filter(rows, (r: Result) => r.Key() == key)
  }

  /** Appending a row for a key the table lacks makes that row the one found for it. */
  lemma FindAppended(rows: seq<Result>, key: (UserId, string), r: Result)
    requires FindResult(rows, key).None? && r.Key() == key
    ensures FindResult(rows + [r], key) == Some(|rows|)
  {
    var grown := rows + [r];
    assert grown[|rows|].Key() == key;
    assert forall j :: 0 <= j < |rows| ==> grown[j].Key() != key;
  }

  /** With distinct keys, the rows for `key` are the found row alone, or none. */
  lemma {:induction false} ResultsForDistinct(rows: seq<Result>, key: (UserId, string))
    requires KeysDistinct(rows)
    ensures FindResult(rows, key).None? ==> ResultsFor(rows, key) == []
    ensures FindResult(rows, key).Some? ==> ResultsFor(rows, key) == [rows[FindResult(rows, key).value]]
  {
    if rows != [] {
      ResultsForDistinct(rows[1..], key);
      if rows[0].Key() == key {
        assert forall i :: 0 <= i < |rows[1..]| ==> rows[1..][i].Key() == rows[i + 1].Key() != key;
      }
    }
  }

  /** The table of results; it holds at most one row per (student, subject). */
  class ResultTable {
    var rows: seq<Result>

    ghost predicate Valid()
      reads this
    {
      KeysDistinct(rows)
    }

    constructor ()
      ensures Valid() && rows == []
    {
      rows := [];
    }

    /** Assigns the four submitted fields of row `i` and saves it, which refreshes its update time. */
    method Save(i: nat, g: Grading, now: nat)
      requires Valid() && i < |rows|
      modifies this
      ensures Valid()
      ensures rows == old(rows)[i := old(rows)[i].(marksObtained := g.marksObtained, totalMarks := g.totalMarks,
                                                    grade := g.grade, remarks := g.remarks, updatedAt := now)]
    {
      rows := rows[i := rows[i].(marksObtained := g.marksObtained, totalMarks := g.totalMarks,
                                 grade := g.grade, remarks := g.remarks, updatedAt := now)];
    }

    /** `Result.objects.create(...)`: a new row, refused when its (student, subject) pair is taken. */
    method Create(student: UserId, subject: string, g: Grading, createdBy: UserId, now: nat) returns (ok: bool)
      requires Valid()
      modifies this
      ensures Valid()
      ensures ok <==> FindResult(old(rows), (student, subject)).None?
      ensures rows == if ok then old(rows) + [Result(student, subject, g.marksObtained, g.totalMarks, g.grade,
                                                     g.remarks, createdBy, now, now)]
                      else old(rows)
    {
      ok := FindResult(rows, (student, subject)).None?;
      if ok {
        rows := rows + [Result(student, subject, g.marksObtained, g.totalMarks, g.grade, g.remarks, createdBy, now, now)];
      }
    }
  }
}
