/**
 * The routes of the student portal (student_portal_full/app.py) that carry
 * decisions: the role guard of each route, the dashboard, material upload and
 * delete, the mark and edit attendance pages and the attendance history.
 * Flask's request, session and responses become parameters and a `Reply`.
 */
module PortalRoutes {
  import opened Wrappers
  import opened Text
  import opened Access
  import opened Uploads
  import opened Users
  import opened Attendance

  /** The redirect targets. */
  datatype Path =
    | LoginPath
    | DashboardPath
    | MaterialsPath
    | UploadMaterialPath
    | MarkAttendancePath
    | EditAttendancePath(date: Date)

  /** A response: a rendered page carrying `view`, a redirect, HTTP 403, or an uncaught error (HTTP 500). */
  datatype Reply<T> = Show(view: T) | Redirect(to: Path) | Forbidden | ServerError

  datatype Route =
    | Dashboard
    | UploadMaterial
    | DeleteMaterial
    | MarkAttendance
    | EditAttendance
    | AttendanceHistory

  /** The outcome of a route's guard: go on, redirect, or refuse with 403. */
  datatype Gate = Pass | Deflect(to: Path) | Refuse

  /** `not role`: no session, or an empty role. */
  predicate NoRole(s: Session)
  {
    s.None? || RoleName(s.value.role) == ""
  }

  /** The guard each route runs before anything else. */
  function Guard(route: Route, s: Session): (g: Gate)
    ensures route.UploadMaterial? || route.DeleteMaterial? || route.MarkAttendance? || route.EditAttendance?
            ==> (g.Pass? <==> IsStaff(s))
    ensures route.Dashboard? ==> (g.Pass? <==> s.Some?)
    ensures route.AttendanceHistory? ==> (g.Pass? <==> !NoRole(s))
    ensures g.Refuse? <==> route.DeleteMaterial? && !IsStaff(s)
    ensures g.Deflect? && g.to == LoginPath <==> (route.Dashboard? && s.None?) || (route.AttendanceHistory? && NoRole(s))
    ensures g.Deflect? && g.to == DashboardPath <==> (route.MarkAttendance? || route.EditAttendance?) && !IsStaff(s)
    ensures g.Deflect? && g.to == MaterialsPath <==> route.UploadMaterial? && !IsStaff(s)
  {
    match route
    case Dashboard => if s.None? then Deflect(LoginPath) else Pass
    case UploadMaterial => if IsStaff(s) then Pass else Deflect(MaterialsPath)
    case DeleteMaterial => if IsStaff(s) then Pass else Refuse
    case MarkAttendance => if IsStaff(s) then Pass else Deflect(DashboardPath)
    case EditAttendance => if IsStaff(s) then Pass else Deflect(DashboardPath)
    case AttendanceHistory => if NoRole(s) then Deflect(LoginPath) else Pass
  }

  /** A student gets past the guard of no route that writes. */
  lemma StudentCannotWrite(route: Route, id: UserId)
    requires route.UploadMaterial? || route.DeleteMaterial? || route.MarkAttendance? || route.EditAttendance?
    ensures Guard(route, Some(Identity(id, Student))) != Pass
  {
  }

  /** The dashboard: the page for the session's role, or the login page. */
  function DashboardView(s: Session): (r: Reply<Role>)
    ensures r.Show? <==> s.Some?
    ensures r.Show? ==> r.view == s.value.role
    ensures r.Redirect? ==> r.to == LoginPath
  {
    match Guard(Dashboard, s)
    case Pass => Show(s.value.role)
    case Deflect(p) => Redirect(p)
    case Refuse => Forbidden
  }

  // ---------------------------------------------------------------------
  // Study materials

  datatype Material = Material(title: string, description: string, filename: string, uploadedBy: UserId)

  /** The upload form: the GET that renders it, or the POSTed fields; `file` is the uploaded file's name, if any. */
  datatype UploadRequest = UploadForm | UploadPost(title: string, description: string, file: Option<string>)

  /** What an upload did: the reply, the name the file was saved under (if it was), and the row inserted (if any). */
  datatype UploadResult = UploadResult(reply: Reply<()>, saved: Option<string>, stored: Option<Material>)

  /** The widths of the `materials` columns: `VARCHAR(200)` title and `VARCHAR(300)` file name. */
  const TitleWidth: nat := 200
  const FilenameWidth: nat := 300

  /** The row's texts fit their columns; under strict mode a longer one makes the INSERT fail. */
  predicate MaterialFits(m: Material)
  {
    |m.title| <= TitleWidth && |m.filename| <= FilenameWidth
  }

  /** `not file or not allowed(file.filename)`: no file, a file without a name, or an extension off the list. */
  predicate InvalidFile(file: Option<string>)
  {
    file.None? || file.value == "" || !Allowed(file.value)
  }

  /**
   * `upload_material`. The stored name is the timestamp prefix `stamp`
   * followed by what `secure_filename` made of the name (`safeName`); both
   * are computed outside this model. The file is saved before the INSERT,
   * so an INSERT that fails leaves the saved file behind.
   */
  function UploadMaterialAction(s: Session, req: UploadRequest, stamp: string, safeName: string): (r: UploadResult)
    ensures r.saved.Some? <==> IsStaff(s) && req.UploadPost? && !InvalidFile(req.file)
    ensures r.saved.Some? ==> Allowed(req.file.value) && r.saved.value == stamp + safeName
    ensures r.stored.Some? <==>
              r.saved.Some? && MaterialFits(Material(Text.Strip(req.title), Text.Strip(req.description), stamp + safeName, s.value.id))
    ensures r.stored.Some? ==>
              && r.stored.value == Material(Text.Strip(req.title), Text.Strip(req.description), stamp + safeName, s.value.id)
              && r.reply == Redirect(MaterialsPath)
    ensures r.saved.Some? && r.stored.None? ==> r.reply == ServerError
    ensures !IsStaff(s) ==> r.reply == Redirect(MaterialsPath)
    ensures IsStaff(s) && req.UploadPost? && InvalidFile(req.file) ==> r.reply == Redirect(UploadMaterialPath)
    ensures IsStaff(s) && req.UploadForm? ==> r.reply == Show(())
  {
    match Guard(UploadMaterial, s)
    case Deflect(p) => UploadResult(Redirect(p), None, None)
    case Refuse => UploadResult(Forbidden, None, None)
    case Pass =>
      match req
      case UploadForm => UploadResult(Show(()), None, None)
      case UploadPost(title, description, file) =>
        if InvalidFile(file) then UploadResult(Redirect(UploadMaterialPath), None, None)
        else
          var name := stamp + safeName;
          var m := Material(Text.Strip(title), Text.Strip(description), name, s.value.id);
          if MaterialFits(m) then UploadResult(Redirect(MaterialsPath), Some(name), Some(m))
          else UploadResult(ServerError, Some(name), None)
  }

  /** The `materials` table and the upload folder. */
  datatype Storage = Storage(materials: map<int, Material>, files: set<string>)

  /**
   * `delete_material`: staff only (403 otherwise); removes the row and its
   * file when the row exists, a missing file being ignored.
   */
  function DeleteMaterialAction(s: Session, mid: int, st: Storage): (r: (Reply<()>, Storage))
    ensures !IsStaff(s) ==> r.0 == Forbidden && r.1 == st
    ensures IsStaff(s) ==> r.0 == Redirect(MaterialsPath)
    ensures IsStaff(s) ==> mid !in r.1.materials
    ensures IsStaff(s) ==> forall id :: id != mid ==> (id in r.1.materials <==> id in st.materials)
    ensures IsStaff(s) ==> forall id :: id != mid && id in st.materials ==> r.1.materials[id] == st.materials[id]
    ensures IsStaff(s) && mid in st.materials ==> r.1.files == st.files - {st.materials[mid].filename}
    ensures IsStaff(s) && mid !in st.materials ==> r.1.files == st.files
  {
    match Guard(DeleteMaterial, s)
    case Refuse => (Forbidden, st)
    case Deflect(p) => (Redirect(p), st)
    case Pass =>
      if mid in st.materials then
        var name := st.materials[mid].filename;
        (Redirect(MaterialsPath), Storage(st.materials - {mid}, st.files - {name}))
      else (Redirect(MaterialsPath), st)
  }

  // ---------------------------------------------------------------------
  // Attendance

  datatype AttendanceRequest = Get | Post(form: Form)

  /** The mark page: the listed students, the statuses already recorded today, and today. */
  datatype MarkPage = MarkPage(students: seq<User>, existing: map<UserId, string>, date: Date)

  /** The edit page: the sheet for the selected date, and that date. */
  datatype EditPage = EditPage(rows: seq<SheetRow>, date: Date)

  /** `request.args.get("date") or date.today()`: `None` stands for a missing or empty parameter. */
  function SelectedDate(arg: Option<Date>, today: Date): (d: Date)
    ensures arg.Some? ==> d == arg.value
    ensures arg.None? ==> d == today
  {
    if arg.Some? then arg.value else today
  }

  /** The students `mark_attendance` lists and writes for: the first 30 by name. */
  function MarkRoster(users: seq<User>): (r: seq<User>)
    ensures |r| == if DefaultStudentLimit < |Roster(users)| then DefaultStudentLimit else |Roster(users)|
    ensures SortedByName(r)
    ensures forall u :: u in r ==> u in users && u.role == Student
    ensures forall u, x :: u in users && u.role == Student && u !in r && x in r ==> NameLe(x.name, u.name)
    ensures |Roster(users)| <= DefaultStudentLimit ==> forall u :: u in users && u.role == Student ==> u in r
  {
    GetAllStudents(users, DefaultStudentLimit)
  }

  /**
   * `mark_attendance`: staff only (others go to the dashboard, nothing
   * written); a GET shows today's students and marks, a POST runs the upsert
   * loop for today over the listed students, or fails with nothing written
   * when a submitted status is not one of the ENUM.
   */
  method MarkAttendanceRoute(s: Session, users: seq<User>, table: AttendanceTable, today: Date, req: AttendanceRequest)
    returns (r: Reply<MarkPage>)
    modifies table
    ensures !IsStaff(s) ==> r == Redirect(DashboardPath) && table.marks == old(table.marks)
    ensures IsStaff(s) && req.Get? ==>
              && table.marks == old(table.marks)
              && r == Show(MarkPage(MarkRoster(users), Existing(table.marks, today), today))
    ensures IsStaff(s) && req.Post? && SubmissionValid(Ids(MarkRoster(users)), req.form) ==>
              && table.marks == Submitted(old(table.marks), Ids(MarkRoster(users)), today, req.form, s.value.id)
              && r == Redirect(MarkAttendancePath)
    ensures IsStaff(s) && req.Post? && !SubmissionValid(Ids(MarkRoster(users)), req.form) ==>
              table.marks == old(table.marks) && r == ServerError
  {
    if Guard(MarkAttendance, s) != Pass {
      return Redirect(DashboardPath);
    }
    var students := MarkRoster(users);
    match req {
      case Post(form) =>
        var committed := table.SubmitSheet(Ids(students), today, form, s.value.id);
        r := if committed then Redirect(MarkAttendancePath) else ServerError;
      case Get =>
        r := Show(MarkPage(students, Existing(table.marks, today), today));
    }
  }

  /**
   * A mark submission changes only rows dated today, and only for students
   * among the first 30 by name.
   */
  lemma MarkWritesOnlyTodayForListed(m: Marks, users: seq<User>, today: Date, form: Form, actor: UserId, k: Key)
    requires var r := Submitted(m, Ids(MarkRoster(users)), today, form, actor);
             k in r && (k !in m || r[k] != m[k])
    ensures k.date == today
    ensures exists u :: u in MarkRoster(users) && u.id == k.student && u in users && u.role == Student
  {
    var ids := Ids(MarkRoster(users));
    SubmittedAt(m, ids, today, form, actor, k);
    var i :| 0 <= i < |ids| && ids[i] == k.student;
    assert MarkRoster(users)[i] in MarkRoster(users);
  }

  /**
   * `edit_attendance`: staff only; the date defaults to today; a GET shows
   * the sheet for the date, a POST runs the upsert loop for that date over
   * every student of the sheet, or fails with nothing written when a
   * submitted status is not one of the ENUM.
   */
  method EditAttendanceRoute(s: Session, users: seq<User>, table: AttendanceTable, today: Date,
                             dateArg: Option<Date>, req: AttendanceRequest)
    returns (r: Reply<EditPage>)
    modifies table
    ensures !IsStaff(s) ==> r == Redirect(DashboardPath) && table.marks == old(table.marks)
    ensures IsStaff(s) && req.Get? ==>
              var d := SelectedDate(dateArg, today);
              && table.marks == old(table.marks)
              && r == Show(EditPage(Sheet(table.marks, users, d), d))
    ensures IsStaff(s) && req.Post? ==>
              var d := SelectedDate(dateArg, today);
              var ids := SheetIds(Sheet(old(table.marks), users, d));
              if SubmissionValid(ids, req.form) then
                && table.marks == Submitted(old(table.marks), ids, d, req.form, s.value.id)
                && r == Redirect(EditAttendancePath(d))
              else table.marks == old(table.marks) && r == ServerError
  {
    if Guard(EditAttendance, s) != Pass {
      return Redirect(DashboardPath);
    }
    var selected := SelectedDate(dateArg, today);
    var students := Sheet(table.marks, users, selected);
    match req {
      case Post(form) =>
        var committed := table.SubmitSheet(SheetIds(students), selected, form, s.value.id);
        r := if committed then Redirect(EditAttendancePath(selected)) else ServerError;
      case Get =>
        r := Show(EditPage(students, selected));
    }
  }

  datatype HistoryPage = OwnHistory(records: seq<DatedStatus>) | AllHistory(rows: seq<HistoryRow>)

  /**
   * `attendance_history`: no role goes to login; a student sees their own
   * rows newest first; any other role sees every row, newest first and by
   * name within a date.
   */
  function AttendanceHistoryView(s: Session, users: seq<User>, m: Marks): (r: Reply<HistoryPage>)
    ensures NoRole(s) ==> r == Redirect(LoginPath)
    ensures IsStudent(s) ==> r == Show(OwnHistory(HistoryFor(m, s.value.id)))
    ensures !NoRole(s) && !IsStudent(s) ==> r == Show(AllHistory(HistoryAll(m, users)))
  {
    match Guard(AttendanceHistory, s)
    case Pass =>
      if s.value.role == Student then Show(OwnHistory(HistoryFor(m, s.value.id)))
      else Show(AllHistory(HistoryAll(m, users)))
    case Deflect(p) => Redirect(p)
    case Refuse => Forbidden
  }

  /**
   * A student's history page depends only on that student's own rows: what
   * other students have recorded can never show through it.
   */
  lemma StudentHistoryIsolated(id: UserId, users: seq<User>, m1: Marks, m2: Marks)
    requires forall d :: Key(id, d) in m1 <==> Key(id, d) in m2
    requires forall d :: Key(id, d) in m1 ==> m1[Key(id, d)].status == m2[Key(id, d)].status
    ensures var s := Some(Identity(id, Student));
            AttendanceHistoryView(s, users, m1) == AttendanceHistoryView(s, users, m2)
  {
    HistoryIsolated(m1, m2, id);
  }
}
