/**
 * The decision logic of the second app version (project/app.py): the
 * `login_required` decorator, the role dispatch of the dashboard, the
 * per-role dashboards, the staff-only upload and delete routes for materials
 * and assignments, and the already-logged-in redirects of login and register.
 * Database and file writes are returned as a `Write` value instead of run.
 */
module ProjectRoutes {
  import opened Wrappers
  import opened Access

  datatype Page =
    | LoginPage
    | RegisterPage
    | HomePage
    | DashboardPage
    | AdminDashboardPage
    | TeacherDashboardPage
    | StudentDashboardPage
    | MaterialsHomePage
    | MaterialsPage(standard: int)
    | AssignmentsHomePage
    | AssignmentsPage(standard: int)
    | AttendancePage
    | AnnouncementsPage

  /** A response: a redirect, a rendered page, or an uncaught error (HTTP 500). */
  datatype Reply = Redirect(to: Page) | Render(page: Page) | ServerError

  datatype UserRow = UserRow(name: string, username: string, email: string, password: string,
                             standard: Option<int>, role: string)

  /** The one write a request performs, if any. */
  datatype Write =
    | NoWrite
    | InsertUser(user: UserRow)
    | EndSession
    | InsertMaterial(title: string, filename: string, standard: int)
    | DeleteMaterialRow(id: int)
    | InsertAssignment(title: string, filename: string, uploadedBy: string, standard: int)
    | DeleteAssignmentRow(id: int)

  predicate WritesContent(w: Write)
  {
    w.InsertMaterial? || w.DeleteMaterialRow? || w.InsertAssignment? || w.DeleteAssignmentRow?
  }

  datatype Outcome = Outcome(reply: Reply, write: Write)

  /** The registration form; `standard` is `int(form['standard'])`, `None` when that text is not an integer. */
  datatype RegistrationForm = RegistrationForm(name: string, username: string, email: string, password: string,
                                               role: string, standard: Option<int>)

  /**
   * The requests. For uploads, `filename` is the uploaded file's name (empty
   * when no file was chosen) and `safeName` what `secure_filename` made of it.
   */
  datatype Request =
    | Home
    | Login
    | RegisterForm
    | RegisterPost(form: RegistrationForm)
    | Logout
    | Dashboard
    | AdminDashboard
    | TeacherDashboard
    | StudentDashboard
    | MaterialsHome
    | MaterialsByStandard(standard: int)
    | UploadMaterial(standard: int, title: string, filename: string, safeName: string)
    | DeleteMaterial(id: int, standard: int)
    | AssignmentsHome
    | AssignmentsByStandard(standard: int)
    | UploadAssignment(standard: int, title: string, filename: string, safeName: string)
    | DeleteAssignment(id: int, standard: int, rowExists: bool)
    | Attendance
    | Announcements

  /** The routes decorated with `login_required`. */
  predicate LoginRequired(req: Request)
  {
    !(req.Login? || req.RegisterForm? || req.RegisterPost?)
  }

  /** `dashboard`: each role to its own dashboard, anything else to login. */
  function DashboardFor(role: StoredRole): (r: Reply)
    ensures r == Redirect(AdminDashboardPage) <==> role == Admin
    ensures r == Redirect(TeacherDashboardPage) <==> role == Teacher
    ensures r == Redirect(StudentDashboardPage) <==> role == Student
    ensures role.Other? <==> r == Redirect(LoginPage)
  {
    match role
    case Admin => Redirect(AdminDashboardPage)
    case Teacher => Redirect(TeacherDashboardPage)
    case Student => Redirect(StudentDashboardPage)
    case Other(_) => Redirect(LoginPage)
  }

  /** A role dashboard renders only for its own role; everyone else is sent to login. */
  function RoleDashboard(role: StoredRole, owner: StoredRole, page: Page): (r: Reply)
    ensures r == Render(page) <==> role == owner
    ensures role != owner ==> r == Redirect(LoginPage)
  {
    if role == owner then Render(page) else Redirect(LoginPage)
  }

  /** The row `register` inserts: the standard is kept for students only. */
  function NewUserRow(form: RegistrationForm): (u: UserRow)
    requires form.role == "student" ==> form.standard.Some?
    ensures u.standard.Some? <==> form.role == "student"
    ensures u.standard.Some? ==> u.standard == form.standard
    ensures u.role == form.role && u.email == form.email && u.username == form.username
    ensures u.name == form.name && u.password == form.password
  {
    UserRow(form.name, form.username, form.email, form.password,
            if form.role == "student" then form.standard else None, form.role)
  }

  /** `register` on a POST by a visitor who is not logged in. */
  function RegisterAction(form: RegistrationForm): (o: Outcome)
    ensures o.write.InsertUser? <==> form.role != "student" || form.standard.Some?
    ensures o.write.InsertUser? ==> (o.write.user.standard.Some? <==> form.role == "student")
    ensures o.write.InsertUser? ==> o.write.user == NewUserRow(form)
    ensures o.write.InsertUser? ==> o.reply == Redirect(LoginPage)
    ensures !o.write.InsertUser? ==> o == Outcome(ServerError, NoWrite)
  {
    if form.role == "student" && form.standard.None? then Outcome(ServerError, NoWrite)
    else Outcome(Redirect(LoginPage), InsertUser(NewUserRow(form)))
  }

  /** The staff-only guard of the upload and delete routes. */
  predicate StaffRole(role: StoredRole)
  {
    role == Admin || role == Teacher
  }

  /** `upload_material`: needs a file; the title may be empty. */
  function UploadMaterialAction(role: StoredRole, standard: int, title: string, filename: string, safeName: string): (o: Outcome)
    ensures !StaffRole(role) ==> o == Outcome(Redirect(LoginPage), NoWrite)
    ensures StaffRole(role) ==> o.reply == Redirect(MaterialsPage(standard))
    ensures o.write != NoWrite <==> StaffRole(role) && filename != ""
    ensures o.write != NoWrite ==> o.write == InsertMaterial(title, safeName, standard)
  {
    if !StaffRole(role) then Outcome(Redirect(LoginPage), NoWrite)
    else if filename != "" then Outcome(Redirect(MaterialsPage(standard)), InsertMaterial(title, safeName, standard))
    else Outcome(Redirect(MaterialsPage(standard)), NoWrite)
  }

  /** `upload_assignment`: needs both a file and a title; records the uploader's role text. */
  function UploadAssignmentAction(role: StoredRole, standard: int, title: string, filename: string, safeName: string): (o: Outcome)
    ensures !StaffRole(role) ==> o == Outcome(Redirect(LoginPage), NoWrite)
    ensures StaffRole(role) ==> o.reply == Redirect(AssignmentsPage(standard))
    ensures o.write != NoWrite <==> StaffRole(role) && filename != "" && title != ""
    ensures o.write != NoWrite ==> o.write == InsertAssignment(title, safeName, RoleName(role), standard)
  {
    if !StaffRole(role) then Outcome(Redirect(LoginPage), NoWrite)
    else if filename != "" && title != "" then
      Outcome(Redirect(AssignmentsPage(standard)), InsertAssignment(title, safeName, RoleName(role), standard))
    else Outcome(Redirect(AssignmentsPage(standard)), NoWrite)
  }

  /** `delete_material` deletes by id whether or not the row was found. */
  function DeleteMaterialAction(role: StoredRole, id: int, standard: int): (o: Outcome)
    ensures !StaffRole(role) ==> o == Outcome(Redirect(LoginPage), NoWrite)
    ensures StaffRole(role) ==> o == Outcome(Redirect(MaterialsPage(standard)), DeleteMaterialRow(id))
  {
    if !StaffRole(role) then Outcome(Redirect(LoginPage), NoWrite)
    else Outcome(Redirect(MaterialsPage(standard)), DeleteMaterialRow(id))
  }

  /** `delete_assignment` as intended: it deletes only a row it found. */
  function DeleteAssignmentAction(role: StoredRole, id: int, standard: int, rowExists: bool): (o: Outcome)
    ensures !StaffRole(role) ==> o == Outcome(Redirect(LoginPage), NoWrite)
    ensures StaffRole(role) ==> o.reply == Redirect(AssignmentsPage(standard))
    ensures o.write != NoWrite <==> StaffRole(role) && rowExists
    ensures o.write != NoWrite ==> o.write == DeleteAssignmentRow(id)
  {
    if !StaffRole(role) then Outcome(Redirect(LoginPage), NoWrite)
    else if rowExists then Outcome(Redirect(AssignmentsPage(standard)), DeleteAssignmentRow(id))
    else Outcome(Redirect(AssignmentsPage(standard)), NoWrite)
  }

  /**
   * `delete_assignment` as written. No cursor class is configured, so the row
   * fetched by id is a tuple and `data['filename']` raises before the DELETE
   * whenever the row exists: the route answers with an error and keeps the row.
   */
  function DeleteAssignmentAsWritten(role: StoredRole, id: int, standard: int, rowExists: bool): (o: Outcome)
    ensures o.write == NoWrite
    ensures o.reply == ServerError <==> StaffRole(role) && rowExists
  {
    if !StaffRole(role) then Outcome(Redirect(LoginPage), NoWrite)
    else if rowExists then Outcome(ServerError, NoWrite)
    else Outcome(Redirect(AssignmentsPage(standard)), NoWrite)
  }

  /** An admin deleting an existing assignment: the code as written keeps it, the intended route removes it. */
  lemma DeleteAssignmentAsWrittenKeepsRow(id: int, standard: int)
    ensures DeleteAssignmentAsWritten(Admin, id, standard, true) == Outcome(ServerError, NoWrite)
    ensures DeleteAssignmentAction(Admin, id, standard, true) == Outcome(Redirect(AssignmentsPage(standard)), DeleteAssignmentRow(id))
  {
  }

  /** A request handled with the session `s`. */
  function Handle(req: Request, s: Session): (o: Outcome)
    ensures LoginRequired(req) && s.None? ==> o == Outcome(Redirect(LoginPage), NoWrite)
    ensures !LoginRequired(req) && s.Some? ==> o == Outcome(Redirect(DashboardPage), NoWrite)
    ensures WritesContent(o.write) ==> s.Some? && StaffRole(s.value.role)
    ensures o.write.InsertUser? ==> s.None?
    ensures o.reply == Render(AdminDashboardPage) <==> req.AdminDashboard? && s.Some? && s.value.role == Admin
    ensures o.reply == Render(TeacherDashboardPage) <==> req.TeacherDashboard? && s.Some? && s.value.role == Teacher
    ensures o.reply == Render(StudentDashboardPage) <==> req.StudentDashboard? && s.Some? && s.value.role == Student
  {
    if LoginRequired(req) && s.None? then Outcome(Redirect(LoginPage), NoWrite)
    else if !LoginRequired(req) then
      if s.Some? then Outcome(Redirect(DashboardPage), NoWrite)
      else match req
        case RegisterPost(form) => RegisterAction(form)
        case RegisterForm => Outcome(Render(RegisterPage), NoWrite)
        case Login => Outcome(Render(LoginPage), NoWrite)
    else
      var role := s.value.role;
      match req
      case Home => Outcome(Render(HomePage), NoWrite)
      case Logout => Outcome(Redirect(LoginPage), EndSession)
      case Dashboard => Outcome(DashboardFor(role), NoWrite)
      case AdminDashboard => Outcome(RoleDashboard(role, Admin, AdminDashboardPage), NoWrite)
      case TeacherDashboard => Outcome(RoleDashboard(role, Teacher, TeacherDashboardPage), NoWrite)
      case StudentDashboard => Outcome(RoleDashboard(role, Student, StudentDashboardPage), NoWrite)
      case MaterialsHome => Outcome(Render(MaterialsHomePage), NoWrite)
      case MaterialsByStandard(standard) => Outcome(Render(MaterialsPage(standard)), NoWrite)
      case UploadMaterial(standard, title, filename, safeName) =>
        UploadMaterialAction(role, standard, title, filename, safeName)
      case DeleteMaterial(id, standard) => DeleteMaterialAction(role, id, standard)
      case AssignmentsHome => Outcome(Render(AssignmentsHomePage), NoWrite)
      case AssignmentsByStandard(standard) => Outcome(Render(AssignmentsPage(standard)), NoWrite)
      case UploadAssignment(standard, title, filename, safeName) =>
        UploadAssignmentAction(role, standard, title, filename, safeName)
      case DeleteAssignment(id, standard, rowExists) => DeleteAssignmentAction(role, id, standard, rowExists)
      case Attendance => Outcome(Render(AttendancePage), NoWrite)
      case Announcements => Outcome(Render(AnnouncementsPage), NoWrite)
  }

  /** A logged-in student never reaches the admin or teacher view, and writes no content. */
  lemma StudentStaysOutOfStaffViews(req: Request, id: UserId)
    ensures var o := Handle(req, Some(Identity(id, Student)));
            && o.reply != Render(AdminDashboardPage)
            && o.reply != Render(TeacherDashboardPage)
            && !WritesContent(o.write)
  {
  }
}
