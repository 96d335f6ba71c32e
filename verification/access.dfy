/**
 * Roles and the per-request identity both app versions keep in the Flask
 * session. The session is passed explicitly: `None` is a request with no
 * logged-in user, `Some(identity)` one whose login stored an id and a role.
 */
module Access {
  import opened Wrappers

  type UserId = int

  /** The three roles of the `role` column, plus whatever other text a session could carry. */
  datatype Role = Admin | Teacher | Student | Other(text: string)

  /** The text stored for a role. */
  function RoleName(r: Role): string
  {
    match r
    case Admin => "admin"
    case Teacher => "teacher"
    case Student => "student"
    case Other(t) => t
  }

  /** A role is canonical when it is not an `Other` whose text names one of the three roles. */
  predicate Canonical(r: Role)
  {
    r.Other? ==> r.text != "admin" && r.text != "teacher" && r.text != "student"
  }

  /** Reads the role text of a form field or a database row. */
  function ParseRole(text: string): (r: Role)
    ensures Canonical(r)
    ensures RoleName(r) == text
  {
    if text == "admin" then Admin
    else if text == "teacher" then Teacher
    else if text == "student" then Student
    else Other(text)
  }

  /** Reading back the text of a canonical role gives the role again. */
  lemma ParseRoleName(r: Role)
    requires Canonical(r)
    ensures ParseRole(RoleName(r)) == r
  {
  }

  /**
   * A role as it is held in a row or a session: text naming one of the three
   * roles is always read as that role, so comparing roles is comparing texts.
   */
  type StoredRole = r: Role | Canonical(r) witness Admin

  datatype Identity = Identity(id: UserId, role: StoredRole)

  type Session = Option<Identity>

  /** `role in ("admin", "teacher")`: a logged-in member of staff. */
  predicate IsStaff(s: Session)
  {
    s.Some? && (s.value.role == Admin || s.value.role == Teacher)
  }

  /** A logged-in student. */
  predicate IsStudent(s: Session)
  {
    s.Some? && s.value.role == Student
  }

  /** The role tests on sessions agree with the code's tests on the role text. */
  lemma RoleTestsAreTextTests(s: Session)
    ensures IsStaff(s) <==> s.Some? && (RoleName(s.value.role) == "admin" || RoleName(s.value.role) == "teacher")
    ensures IsStudent(s) <==> s.Some? && RoleName(s.value.role) == "student"
  {
    if s.Some? {
      ParseRoleName(s.value.role);
    }
  }
}
