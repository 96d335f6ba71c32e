# Student portal: attendance, registration, uploads and role guards

This project is a Dafny model of the logic inside two versions of a Flask and
MySQL student portal:

- `student_portal_full/app.py`, the full portal. Users register as admin,
  teacher or student. Staff upload and delete study material. Staff mark
  today's attendance, edit attendance for any date, and see the whole
  attendance history. A student sees only their own history.
- `project/app.py`, an earlier version. It has a `login_required` decorator,
  a dashboard per role, and staff-only upload and delete of materials and
  assignments for each school standard.

The database is modelled by values:

- The `attendance` table is a map from the pair (student id, date) to
  (status, marked by). Its unique key on that pair is therefore part of the
  type.
- The `users` table is a sequence of rows, with an invariant kept by
  registration.
- The session is `Option<Identity>`. The role of a session or a row is a
  `StoredRole`: role text that names one of the three roles is always that
  role, so the model's role tests agree with the code's tests on role text.

Each route becomes a function or a method. It returns the redirect, the page
shown or the refusal, together with the write it performs. The two loops that
upsert attendance are imperative: the method `AttendanceTable.SubmitSheet`
runs one upsert per listed student and commits at the end, or discards its
work when a status is not one of the `ENUM('present','absent')` values. It is
proved against the recursive function `Submitted`, which states the table the
loop leaves. Every other attendance property is proved about `Submitted`.

Modules and files:

| file | module | contents |
|---|---|---|
| wrappers.dfy | Wrappers | `Option` |
| text.dfy | Text | ASCII `lower()`, `strip()`, name order |
| access.dfy | Access | roles, sessions |
| uploads.dfy | Uploads | `allowed` |
| users.dfy | Users | user rows, `get_all_students`, `register` |
| attendance.dfy | Attendance | the table, the upsert loop, the sheet, `existing`, the two histories |
| portal_routes.dfy | PortalRoutes | guards and routes of `student_portal_full/app.py` |
| project_routes.dfy | ProjectRoutes | guards and routes of `project/app.py` |

## Model

| member | source | states |
|---|---|---|
| Uploads.AfterLastDot | student_portal_full/app.py:123 | `rsplit(".", 1)[1]`: the result is a suffix of the name, has no dot in it, and is preceded by a dot |
| Uploads.AllowedIff | student_portal_full/app.py:122-123 | `allowed(f)` holds iff `f` contains a dot and the text after its last dot, lower-cased, is one of pdf, docx, pptx, xlsx, csv (both directions, against a position-based reference definition) (also line 25) |
| Uploads.AfterLastDotLower | student_portal_full/app.py:123 | lower-casing a name lower-cases the text after its last dot and keeps where that dot is |
| Uploads.AllowedIgnoresCase | student_portal_full/app.py:122-123 | the upper or lower case of the name never changes the verdict |
| Uploads.UpperCaseExtensionAccepted | student_portal_full/app.py:122-123 | "x.PDF" is accepted |
| Uploads.DoubleExtensionRefused | student_portal_full/app.py:122-123 | "x.pdf.exe" is refused |
| Uploads.BareExtensionRefused | student_portal_full/app.py:122-123 | "pdf" is refused |
| Uploads.LastDotUnique | student_portal_full/app.py:123 | two dots with no dot after either are the same dot, so "after the last dot" is well defined |
| Text.Lower | student_portal_full/app.py:143 | `str.lower()` on ASCII: same length, no upper-case letter left, each character lowered on its own (also line 168) |
| Text.LowerOfLower | student_portal_full/app.py:143 | lower-casing is idempotent |
| Text.Strip | student_portal_full/app.py:218-219 | `str.strip()`: the result is the slice of the input left after dropping leading and trailing white space (also line 142) |
| Text.NameLeTotal | student_portal_full/app.py:128 | `ORDER BY name` compares any two names (also lines 321, 368) |
| Text.NameLeTrans | student_portal_full/app.py:128 | the name order is transitive (also lines 321, 368) |
| Text.NameLeRefl | student_portal_full/app.py:128 | the name order is reflexive (also lines 321, 368) |
| Access.ParseRole | student_portal_full/app.py:145 | the role text of a row maps to one role value that prints back as the same text (also line 50) |
| Access.ParseRoleName | student_portal_full/app.py:177 | parsing a role's name gives the role back (also line 50) |
| Access.RoleTestsAreTextTests | student_portal_full/app.py:270 | on a session, the staff and student tests hold exactly when the role text is "admin" or "teacher", or "student" (also lines 213, 255, 307, 357) |
| Users.InsertByName | student_portal_full/app.py:128 | inserting a row into the name order keeps the same rows (multiset) |
| Users.InsertSorted | student_portal_full/app.py:128 | insertion keeps a name-sorted list sorted |
| Users.InsertDistinct | student_portal_full/app.py:128 | insertion of a fresh id keeps ids distinct |
| Users.SortByName | student_portal_full/app.py:128 | `ORDER BY name` permutes the rows (multiset) (also line 321) |
| Users.SortByNameSameRows | student_portal_full/app.py:128 | sorting neither adds nor drops a row (also line 368) |
| Users.SortByNameSorted | student_portal_full/app.py:128 | the sorted rows are in name order (also line 321) |
| Users.SortByNameDistinct | student_portal_full/app.py:128 | sorting keeps ids distinct (also lines 45, 321) |
| Users.Where | student_portal_full/app.py:128 | a `WHERE` filter: every row kept passes and comes from the input, and every passing row is kept (also line 320) |
| Users.WhereCount | student_portal_full/app.py:128 | the filter keeps each passing row exactly as often as the input has it, and no other row (also line 320) |
| Users.WhereConcat | student_portal_full/app.py:128 | filtering a concatenation is the concatenation of the filtered parts, so the rows kept stay in table order (also line 320) |
| Users.WhereKeepsSorted | student_portal_full/app.py:128 | filtering a name-sorted list keeps it sorted (also lines 320, 367-368) |
| Users.WhereKeepsDistinct | student_portal_full/app.py:128 | filtering keeps ids distinct (also lines 45, 320) |
| Users.Students | student_portal_full/app.py:128 | `WHERE role='student'`: a row is kept iff it is a student (also line 320) |
| Users.Roster | student_portal_full/app.py:317-321 | all students in name order: sorted, only students, every student (also line 128) |
| Users.PrefixOfSorted | student_portal_full/app.py:128 | `ORDER BY name LIMIT n` keeps a sorted prefix: every row left out sorts after every row kept, and ids stay distinct |
| Users.RosterPrefix | student_portal_full/app.py:126-130 | the first `k` students by name are sorted, all students, no later by name than any student left out, all students when `k` is their number, and distinct when the ids are |
| Users.GetAllStudents | student_portal_full/app.py:126-130 | `get_all_students(limit)`: min(limit, number of students) rows, sorted by name, only students; every student left out sorts after every student listed; with no more than `limit` students all are listed |
| Users.Ids | student_portal_full/app.py:281 | the id column of a list of rows, position by position (also line 330) |
| Users.NewUser | student_portal_full/app.py:142-158 | the inserted row: the next id, the stripped name, the lower-cased e-mail, the given password hash, the parsed role, the student identifier for students only and None for everyone else |
| Users.Check | student_portal_full/app.py:148-158 | a taken (lower-cased) e-mail is refused first, whatever else; a student without identifier is refused iff the e-mail is free; the registration is accepted iff the e-mail is free, no student identifier is missing and the schema admits the row (texts within their column widths, an ENUM role, a fresh identifier), and then the row satisfies the schema whatever its id and hash |
| Users.OverlongFieldRefused | student_portal_full/app.py:46-49 | a stripped name or an e-mail over 100 characters, or a student identifier over 30, is never accepted: the INSERT fails (also lines 156-158) |
| Users.AcceptedKeepsInvariant | student_portal_full/app.py:44-51 | an accepted registration keeps the users table invariant: distinct ids, texts within their column widths, distinct lower-case e-mails, ENUM roles, a non-empty student identifier exactly on student rows, no identifier twice, letter case aside (also lines 156-158) |
| Users.EmailUniquenessIgnoresCase | student_portal_full/app.py:143-150 | an address that differs from a stored one only in letter case is refused as taken |
| Users.StudentIdUniquenessIgnoresCase | student_portal_full/app.py:49 | a student identifier that differs from a stored one only in letter case is not accepted: the UNIQUE index refuses it (also lines 156-158) |
| Users.UserTable.constructor | student_portal_full/app.py:44-51 | the empty users table satisfies its invariant |
| Users.UserTable.Register | student_portal_full/app.py:138-161 | `register` on a POST returns the verdict of `Check`; on acceptance it appends exactly the new row under the next id; otherwise the table is unchanged; the invariant is kept |
| Attendance.Submitted | student_portal_full/app.py:280-291 | the table after the upsert loop keeps every earlier key and adds only keys of listed students with a non-empty field on the date (also lines 329-340) |
| Attendance.SubmittedAt | student_portal_full/app.py:280-291 | pointwise: a key of a listed student on the date with a non-empty field holds (that status, the actor); every other key is exactly as before, present or absent (also lines 88, 329-340) |
| Attendance.SubmitIdempotent | student_portal_full/app.py:280-291 | submitting the same form twice gives the same table as submitting it once (also lines 329-340) |
| Attendance.LastSubmissionWins | student_portal_full/app.py:284-291 | re-marking overwrites both status and marked_by with the later submission's values (also lines 333-340) |
| Attendance.RemarkingAddsNoRow | student_portal_full/app.py:284-291 | when every submitted student already has a row on the date, the set of rows does not change (also lines 88, 333-340) |
| Attendance.SubmitReadsOnlyListedFields | student_portal_full/app.py:280-283 | form fields of ids outside the listed students have no effect (also lines 329-332) |
| Attendance.SubmittedKeepsStatusesValid | student_portal_full/app.py:88 | a submission whose every value is in `ENUM('present','absent')` leaves every row of the table within the ENUM (also lines 280-291) |
| Attendance.AttendanceTable.constructor | student_portal_full/app.py:80-93 | the table starts empty |
| Attendance.AttendanceTable.Upsert | student_portal_full/app.py:284-291 | `INSERT ... ON DUPLICATE KEY UPDATE`: the row for (student, date) becomes (status, actor) and nothing else changes (also lines 333-340) |
| Attendance.AttendanceTable.SubmitSheet | student_portal_full/app.py:280-292 | the loop and its commit: the work is committed iff every submitted status of a listed student is in the ENUM; then the table equals `Submitted` of the old table, otherwise it is unchanged; a table within the ENUM stays within it (also lines 88, 329-341) |
| Attendance.Existing | student_portal_full/app.py:298-299 | the `existing` dict has a student iff that student has a row on the date, mapped to that row's status |
| Attendance.ExistingAfterSubmit | student_portal_full/app.py:298-299 | after a submission the pre-selection shows each submitted value and keeps every other earlier value (also line 283) |
| Attendance.StatusOn | student_portal_full/app.py:317-319 | the LEFT JOIN gives None iff there is no row for the student on the date, else that row's status |
| Attendance.Sheet | student_portal_full/app.py:315-325 | the edit sheet has one row per student, in name order, each with its status on the date or None |
| Attendance.SheetIds | student_portal_full/app.py:329-330 | the ids the edit loop walks, position by position |
| Attendance.SheetListsEveryStudent | student_portal_full/app.py:315-325 | every student-role user appears on the sheet |
| Attendance.SheetListsOnlyStudents | student_portal_full/app.py:320 | every sheet row is a student-role user |
| Attendance.SheetListsEachStudentOnce | student_portal_full/app.py:315-325 | with distinct user ids no student appears twice |
| Attendance.SheetAfterSubmit | student_portal_full/app.py:315-340 | after an edit the sheet lists the same students, each with the submitted status or the earlier one |
| Attendance.MaxExists | student_portal_full/app.py:357-361 | a non-empty set of dates has a newest date (also line 368) |
| Attendance.Newest | student_portal_full/app.py:357-361 | a non-empty set of dates has a member no earlier than any other (also line 368) |
| Attendance.SortedDesc | student_portal_full/app.py:357-361 | `ORDER BY date DESC` over a set of dates: each date once, strictly newest first (also line 368) |
| Attendance.DatesOf | student_portal_full/app.py:358-360 | the dates on which a student has a row |
| Attendance.HistoryFor | student_portal_full/app.py:357-361 | a student's history: strictly newest first, only that student's rows with their statuses, and every one of them |
| Attendance.HistoryIsolated | student_portal_full/app.py:358-360 | other students' rows never change a student's history |
| Attendance.RowsOn | student_portal_full/app.py:365-368 | the joined rows of one date all carry that date |
| Attendance.JoinAll | student_portal_full/app.py:365-368 | the joined rows carry only the dates walked |
| Attendance.RowsOnSorted | student_portal_full/app.py:368 | over name-sorted users the rows of one date are in name order |
| Attendance.RowsOnSound | student_portal_full/app.py:365-367 | each row of one date joins a user with their record on that date |
| Attendance.RowsOnComplete | student_portal_full/app.py:365-367 | no user's record on the date is missing from its rows |
| Attendance.JoinAllOrdered | student_portal_full/app.py:368 | over strictly descending dates and name-sorted users the join is newest first, then by name |
| Attendance.JoinAllSound | student_portal_full/app.py:365-367 | every joined row comes from a user and a record of theirs |
| Attendance.JoinAllComplete | student_portal_full/app.py:365-367 | every record of a user on a walked date appears in the join |
| Attendance.AllDates | student_portal_full/app.py:365-368 | every recorded date is among the dates walked |
| Attendance.StaffJoinOrdered | student_portal_full/app.py:365-368 | the staff join over the sorted dates and sorted users is newest first, then by name |
| Attendance.StaffJoinSound | student_portal_full/app.py:365-367 | every row of the staff join comes from a user of the table and a record of theirs |
| Attendance.StaffJoinComplete | student_portal_full/app.py:365-367 | every record of a user of the table appears in the staff join |
| Attendance.HistoryAll | student_portal_full/app.py:362-370 | the staff history: ordered by date descending then name, every row a real (user, record) pair, and every record of a known user present; `HistoryAllOnePerRecord` adds that each record appears exactly once |
| Attendance.KeysOn | student_portal_full/app.py:365-367 | the records behind the rows of one date are all of that date |
| Attendance.JoinKeys | student_portal_full/app.py:365-368 | the records behind the joined rows are all of walked dates |
| Attendance.KeysOnSound | student_portal_full/app.py:365-367 | each row of one date is made from the record named beside it: its date, its status, its student's name |
| Attendance.KeysOnDistinct | student_portal_full/app.py:365-367 | over users with distinct ids, no record of the date is behind two rows |
| Attendance.KeysOnComplete | student_portal_full/app.py:365-367 | every record of the date whose student is a user is behind some row |
| Attendance.JoinKeysOnePerRecord | student_portal_full/app.py:365-368 | over strictly descending dates and users with distinct ids, the join has exactly one row per record of a known student on a walked date |
| Attendance.HistoryAllOnePerRecord | student_portal_full/app.py:362-370 | with distinct user ids (the primary key, line 45), the staff history lists every record of a known student exactly once and no row without its own record |
| PortalRoutes.Guard | student_portal_full/app.py:192-372 | upload, delete, mark and edit pass iff the session is staff; the dashboard passes iff logged in; history passes iff a role is set; only delete refuses with 403; the redirect targets per route (guards at 194-195, 213-215, 255-256, 270-271, 307-308, 352-355) |
| PortalRoutes.StudentCannotWrite | student_portal_full/app.py:211-308 | a student gets past no guard of a route that writes (guards at 213, 255, 270, 307) |
| PortalRoutes.DashboardView | student_portal_full/app.py:192-196 | the dashboard shows the session's role iff logged in, else redirects to login |
| PortalRoutes.UploadMaterialAction | student_portal_full/app.py:211-234 | the file is saved, under the timestamped safe name, iff the session is staff and a named file with an allowed extension was posted; the material row is then stored iff the stripped title fits its 200 characters and the name its 300, holding the stripped title and description, that name and the uploader's id; otherwise HTTP 500 with the file left saved; non-staff go to /materials, a bad file back to the form (also lines 66-69) |
| PortalRoutes.DeleteMaterialAction | student_portal_full/app.py:253-265 | non-staff get 403 and nothing changes; staff remove the row and its file when the row exists, keep every other row, and always redirect to /materials |
| PortalRoutes.SelectedDate | student_portal_full/app.py:310 | the `date` parameter when given, otherwise today |
| PortalRoutes.MarkRoster | student_portal_full/app.py:273 | `get_all_students()`: min(30, number of students) rows, only students, sorted by name, every student left out sorting after every student listed, and all of them when there are at most 30 |
| PortalRoutes.MarkAttendanceRoute | student_portal_full/app.py:268-302 | non-staff: redirect to the dashboard, table unchanged; GET: today's roster and marks, table unchanged; POST with every status in the ENUM: the table becomes `Submitted` over the listed students for today, then redirect back; POST with another status: HTTP 500 and the table unchanged (also line 88) |
| PortalRoutes.MarkWritesOnlyTodayForListed | student_portal_full/app.py:273-291 | every row a mark submission changes is dated today and belongs to one of the first 30 students by name |
| PortalRoutes.EditAttendanceRoute | student_portal_full/app.py:305-347 | non-staff: redirect to the dashboard, table unchanged; GET: the sheet for the selected date; POST with every status in the ENUM: the table becomes `Submitted` over every student of the sheet for that date, then redirect back to that date; POST with another status: HTTP 500 and the table unchanged (also line 88) |
| PortalRoutes.AttendanceHistoryView | student_portal_full/app.py:350-372 | no role: redirect to login; a student: their own history; any other role: the full history |
| PortalRoutes.StudentHistoryIsolated | student_portal_full/app.py:357-361 | a student's history page is the same for any two tables that agree on that student's rows |
| ProjectRoutes.DashboardFor | project/app.py:103-113 | admin, teacher and student each go to their own dashboard, and exactly the other roles go to login |
| ProjectRoutes.RoleDashboard | project/app.py:115-134 | a role dashboard renders iff the session role is its own, else redirect to login |
| ProjectRoutes.NewUserRow | project/app.py:77-88 | the inserted row holds the form's name, username, e-mail, password and role unchanged, and keeps `standard` iff the role is "student", None otherwise |
| ProjectRoutes.RegisterAction | project/app.py:76-92 | a row is inserted unless a student's standard is not an integer (an error, nothing written); the row inserted is exactly `NewUserRow` of the form, so it has a standard iff it is a student; then redirect to login |
| ProjectRoutes.UploadMaterialAction | project/app.py:150-167 | non-staff go to login with no write; staff insert a material iff a file was sent, with the title as given; staff always return to the standard's page |
| ProjectRoutes.UploadAssignmentAction | project/app.py:203-223 | non-staff go to login with no write; staff insert an assignment iff both file and title are non-empty, recording the role text as uploader |
| ProjectRoutes.DeleteMaterialAction | project/app.py:169-187 | non-staff go to login with no write; staff delete the row by id whether or not it existed |
| ProjectRoutes.DeleteAssignmentAction | project/app.py:225-242 | non-staff go to login with no write; staff delete the assignment iff it exists (the intended behaviour, see Findings) |
| ProjectRoutes.DeleteAssignmentAsWritten | project/app.py:231-238 | as written: nothing is ever deleted, and staff deleting an existing row get an error |
| ProjectRoutes.DeleteAssignmentAsWrittenKeepsRow | project/app.py:233-238 | an admin deleting an existing assignment: the code as written errors and keeps it; the intended route deletes it |
| ProjectRoutes.Handle | project/app.py:28-273 | every `login_required` route sends an anonymous visitor to login and writes nothing; login and register send a logged-in user to the dashboard; only staff write materials or assignments; only anonymous visitors register; each role dashboard renders exactly for its own role; `delete_assignment` is dispatched to the corrected route (see Findings) |
| ProjectRoutes.StudentStaysOutOfStaffViews | project/app.py:115-229 | a logged-in student never sees the admin or teacher dashboard and writes no material or assignment (guards at 118, 125, 153, 172, 206, 228) |

## Left out

- I/O and frameworks: MySQL connections, DDL, commits, Flask's request, session, flash and templates. Routes take the table, the users and the session as parameters and return a reply plus the write.
- Clock: `date.today()` is the parameter `today`, and the upload timestamp prefix is the parameter `stamp`. Dates are day numbers; the `date` query parameter is given as `Option<Date>`. A date string that is not a valid date is not modelled.
- Foreign calls: `generate_password_hash`, `check_password_hash` and `secure_filename` are not modelled. Their results are parameters (`passwordHash`, `safeName`).
- Files: the upload folder appears only as a set of names in `PortalRoutes.Storage`. `file.save`, `send_from_directory`, the view and download routes and their 404 are not part of this model. The project version's file removal in `delete_material` is not modelled. With the default tuple cursor, `file['filename']` there raises inside the bare `except`, so that file is never removed.
- Login: the POST branch of both `login` routes (password check, session fill) is not modelled. Only the logged-in redirect of `project/app.py` is modelled.
- Text.Lower: lower-cases ASCII letters only, not Python's full Unicode `str.lower()`.
- Text.Strip: strips ASCII white space and the separators U+1C..U+1F. Unicode white space beyond that is not stripped.
- Text.NameLe: orders names by code point. The MySQL collation of `ORDER BY name` (case-insensitive, accent rules) is not modelled. Rows with equal names may come in either order.
- Users.Check: the ENUM role and the UNIQUE student identifier are checked by the database. The model reports their violation as `StoreRejected`, which stands for the HTTP 500 the code gives. It does not model MySQL's non-strict mode, which would store an empty role instead.
- Users.SchemaAdmits: the e-mail lookup (line 148) and the UNIQUE student identifier (line 49) compare under MySQL's collation. The model ignores ASCII letter case there (the stored e-mails are lower-case already), but not accents, other Unicode case pairs or trailing spaces, which the collation also treats as equal.
- Access.ParseRole and Attendance.ValidStatus: MySQL matches a value against an ENUM ignoring letter case and stores the ENUM's own spelling, so "Student" or "Present" would be stored as "student" or "present". The model accepts only the exact spellings and treats the others as failing inserts.
- Users.AcceptedKeepsInvariant: the invariant's "a student identifier exactly on student rows" holds in the model but not in the code. Role text such as "Student" fails the test `role == "student"` (line 146), so no identifier is asked for (line 152), yet the ENUM stores the row as 'student' with a NULL identifier. The model refuses such a role instead, as the line above says.
- Users.FitsColumns: the `password` column is `VARCHAR(255)`; the hash length is not checked, as the hash is a parameter. The material `description` (`TEXT`) has no width in the model.
- Transactions: concurrent requests are not modelled. A failing upsert in the attendance loops rolls back only that request's work, as the uncommitted connection is dropped.
- ProjectRoutes.Handle: dispatches `delete_assignment` to the corrected route `DeleteAssignmentAction`, not to the code as written (`DeleteAssignmentAsWritten`), so on that route it states the intended behaviour; the difference is the Findings row.
- ProjectRoutes.RegisterAction: the `standard` field is given as its `int()` value or None. Integer parsing itself is not modelled.
- ProjectRoutes.Handle: the routes `about`, `faq`, `chat` and `gallery` are not modelled. They carry no guard and no role logic.
- PortalRoutes: the `materials` listing, `logout`, `my_attendance` and `home` are plain redirects or unguarded renders and are left out.

Behaviour of the code worth knowing:

- In `student_portal_full/app.py`, the materials listing, view and download routes have no login check.
- The mark and edit guards send a visitor who is not logged in to `/dashboard`, not to `/login`.
- The history route shows the full history to any non-empty role that is not "student".
- `upload_material` in `project/app.py` checks no file extension.
- `delete_material` there runs its DELETE whether or not the row exists.

## Findings

| source | as written | input that shows it | evidently intended | confidence | as-written member | corrected member |
|---|---|---|---|---|---|---|
| project/app.py:231-238 | `data['filename']` indexes the fetched row by name, but no dictionary cursor is configured (project/app.py:11-16), so the row is a tuple and this raises before the DELETE | an admin deletes an assignment id that exists | the row (and its file) is deleted and the user is sent back to the standard's page | medium, not executed; holds for the library's default tuple cursor | ProjectRoutes.DeleteAssignmentAsWritten | ProjectRoutes.DeleteAssignmentAction |
