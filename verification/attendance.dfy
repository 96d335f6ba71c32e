/**
 * The attendance engine of the student portal: the `attendance` table as a
 * map keyed by (student, date) — the unique key `uniq_student_date` — the
 * upsert loop shared by the mark and edit pages, and the read-side views
 * (the pre-selection dict, the sheet for a date, the two history orders).
 */
module Attendance {
  import opened Wrappers
  import opened Text
  import opened Access
  import opened Users

  /** A calendar day, as a day number: later days are larger. */
  type Date = int

  datatype Key = Key(student: UserId, date: Date)

  /** The non-key columns of an attendance row. */
  datatype Mark = Mark(status: string, markedBy: UserId)

  /** The table: at most one row per (student, date) by construction. */
  type Marks = map<Key, Mark>

  /** The submitted form, as the values of its `attendance_<id>` fields, by id. */
  type Form = map<UserId, string>

  /** `status = request.form.get(f"attendance_{sid}")` followed by `if status:`. */
  predicate Submits(form: Form, sid: UserId)
  {
    sid in form && form[sid] != ""
  }

  /** The keys one run of the loop over `ids` writes. */
  predicate Targeted(ids: seq<UserId>, date: Date, form: Form, k: Key)
  {
    k.date == date && k.student in ids && Submits(form, k.student)
  }

  /**
   * The table after the loop `for stu in students` ran over `ids`, each
   * submitted field causing one upsert on (id, date) by `actor`.
   */
  function Submitted(m: Marks, ids: seq<UserId>, date: Date, form: Form, actor: UserId): (r: Marks)
    ensures m.Keys <= r.Keys
    ensures forall k :: k in r && k !in m ==> Targeted(ids, date, form, k)
    decreases |ids|
  {
    if ids == [] then m
    else
      var prev := Submitted(m, ids[..|ids| - 1], date, form, actor);
      var sid := ids[|ids| - 1];
      assert forall x :: x in ids[..|ids| - 1] ==> x in ids;
      if Submits(form, sid) then prev[Key(sid, date) := Mark(form[sid], actor)] else prev
  }

  /**
   * What the loop leaves at one key: a submitted student's row on the date
   * holds the submitted status and the actor; every other key keeps its row,
   * or stays without one.
   */
  lemma {:induction false} SubmittedAt(m: Marks, ids: seq<UserId>, date: Date, form: Form, actor: UserId, k: Key)
    ensures var r := Submitted(m, ids, date, form, actor);
            if Targeted(ids, date, form, k) then k in r && r[k] == Mark(form[k.student], actor)
            else (k in r <==> k in m) && (k in m ==> r[k] == m[k])
    decreases |ids|
  {
    if ids != [] {
      var pre := ids[..|ids| - 1];
      SubmittedAt(m, pre, date, form, actor, k);
      assert ids == pre + [ids[|ids| - 1]];
    }
  }

  /** Submitting the same form twice leaves the table as submitting it once. */
  lemma SubmitIdempotent(m: Marks, ids: seq<UserId>, date: Date, form: Form, actor: UserId)
    ensures Submitted(Submitted(m, ids, date, form, actor), ids, date, form, actor)
         == Submitted(m, ids, date, form, actor)
  {
    var once := Submitted(m, ids, date, form, actor);
    var twice := Submitted(once, ids, date, form, actor);
    forall k ensures (k in twice <==> k in once) && (k in once ==> twice[k] == once[k]) {
      SubmittedAt(m, ids, date, form, actor, k);
      SubmittedAt(once, ids, date, form, actor, k);
    }
    assert twice.Keys == once.Keys;
  }

  /** Re-marking overwrites: the later submission's status and actor are what the row holds. */
  lemma LastSubmissionWins(m: Marks, date: Date,
                           ids1: seq<UserId>, form1: Form, actor1: UserId,
                           ids2: seq<UserId>, form2: Form, actor2: UserId, k: Key)
    requires Targeted(ids2, date, form2, k)
    ensures var r := Submitted(Submitted(m, ids1, date, form1, actor1), ids2, date, form2, actor2);
            k in r && r[k] == Mark(form2[k.student], actor2)
  {
    SubmittedAt(Submitted(m, ids1, date, form1, actor1), ids2, date, form2, actor2, k);
  }

  /** When every submitted student already has a row for the date, the loop adds no row. */
  lemma RemarkingAddsNoRow(m: Marks, ids: seq<UserId>, date: Date, form: Form, actor: UserId)
    requires forall sid :: sid in ids && Submits(form, sid) ==> Key(sid, date) in m
    ensures Submitted(m, ids, date, form, actor).Keys == m.Keys
  {
    var r := Submitted(m, ids, date, form, actor);
    forall k | k in r ensures k in m {
      SubmittedAt(m, ids, date, form, actor, k);
    }
  }

  /** Only the fields of the listed students are read: other fields of the form change nothing. */
  lemma SubmitReadsOnlyListedFields(m: Marks, ids: seq<UserId>, date: Date, form1: Form, form2: Form, actor: UserId)
    requires forall sid :: sid in ids ==> (sid in form1 <==> sid in form2)
    requires forall sid :: sid in ids && sid in form1 ==> form1[sid] == form2[sid]
    ensures Submitted(m, ids, date, form1, actor) == Submitted(m, ids, date, form2, actor)
  {
    var r1 := Submitted(m, ids, date, form1, actor);
    var r2 := Submitted(m, ids, date, form2, actor);
    forall k ensures (k in r1 <==> k in r2) && (k in r1 ==> r1[k] == r2[k]) {
      SubmittedAt(m, ids, date, form1, actor, k);
      SubmittedAt(m, ids, date, form2, actor, k);
    }
    assert r1.Keys == r2.Keys;
  }

  /** The `status` column is `ENUM('present','absent')`: the only values a row can hold. */
  predicate ValidStatus(status: string)
  {
    status == "present" || status == "absent"
  }

  /** Every value the loop over `ids` would write is a member of the ENUM. */
  predicate SubmissionValid(ids: seq<UserId>, form: Form)
  {
    forall sid :: sid in ids && Submits(form, sid) ==> ValidStatus(form[sid])
  }

  /** Every row of the table holds a status of the ENUM. */
  predicate StatusesValid(m: Marks)
  {
    forall k :: k in m ==> ValidStatus(m[k].status)
  }

  /** A submission that passes the ENUM keeps every row of the table within it. */
  lemma SubmittedKeepsStatusesValid(m: Marks, ids: seq<UserId>, date: Date, form: Form, actor: UserId)
    requires StatusesValid(m) && SubmissionValid(ids, form)
    ensures StatusesValid(Submitted(m, ids, date, form, actor))
  {
    var r := Submitted(m, ids, date, form, actor);
    forall k | k in r ensures ValidStatus(r[k].status) {
      SubmittedAt(m, ids, date, form, actor, k);
    }
  }

  /** The attendance table; the mark and edit pages write to it. */
  class AttendanceTable {
    var marks: Marks

    constructor ()
      ensures marks == map[]
    {
      marks := map[];
    }

    /** `INSERT ... ON DUPLICATE KEY UPDATE status=..., marked_by=...`. */
    method Upsert(student: UserId, date: Date, status: string, actor: UserId)
      modifies this
      ensures marks == old(marks)[Key(student, date) := Mark(status, actor)]
    {
      marks := marks[Key(student, date) := Mark(status, actor)];
    }

    /**
     * The loop of the POST branch and its transaction: one upsert per student
     * whose field is non-empty, committed at the end. A value outside the
     * ENUM makes its upsert fail; the request then ends before the commit and
     * the upserts already made are discarded.
     */
    method SubmitSheet(ids: seq<UserId>, date: Date, form: Form, actor: UserId) returns (committed: bool)
      modifies this
      ensures committed <==> SubmissionValid(ids, form)
      ensures committed ==> marks == Submitted(old(marks), ids, date, form, actor)
      ensures !committed ==> marks == old(marks)
      ensures StatusesValid(old(marks)) ==> StatusesValid(marks)
    {
      var before := marks;
      for i := 0 to |ids|
        invariant marks == Submitted(before, ids[..i], date, form, actor)
        invariant SubmissionValid(ids[..i], form)
      {
        assert ids[..i + 1] == ids[..i] + [ids[i]];
        assert ids[..i + 1][..i] == ids[..i];
        var sid := ids[i];
        if sid in form && form[sid] != "" {
          if !ValidStatus(form[sid]) {
            marks := before;
            return false;
          }
          Upsert(sid, date, form[sid], actor);
        }
      }
      assert ids[..|ids|] == ids;
      if StatusesValid(before) {
        SubmittedKeepsStatusesValid(before, ids, date, form, actor);
      }
      return true;
    }
  }

  // ---------------------------------------------------------------------
  // Views

  /** `existing`: the statuses already recorded for a date, by student id. */
  function Existing(m: Marks, date: Date): (r: map<UserId, string>)
    ensures forall sid :: sid in r <==> Key(sid, date) in m
    ensures forall sid :: sid in r ==> r[sid] == m[Key(sid, date)].status
  {
    map k | k in m && k.date == date :: k.student := m[k].status
  }

  /** After a submission, the pre-selection shows the submitted values over the earlier ones. */
  lemma ExistingAfterSubmit(m: Marks, ids: seq<UserId>, date: Date, form: Form, actor: UserId, sid: UserId)
    ensures var before := Existing(m, date);
            var after := Existing(Submitted(m, ids, date, form, actor), date);
            if sid in ids && Submits(form, sid) then sid in after && after[sid] == form[sid]
            else (sid in after <==> sid in before) && (sid in before ==> after[sid] == before[sid])
  {
    SubmittedAt(m, ids, date, form, actor, Key(sid, date));
  }

  /** The LEFT JOIN of a student with the row for the date: `None` when there is no row. */
  function StatusOn(m: Marks, sid: UserId, date: Date): (r: Option<string>)
    ensures r.None? <==> Key(sid, date) !in m
    ensures r.Some? ==> r.value == m[Key(sid, date)].status
  {
    if Key(sid, date) in m then Some(m[Key(sid, date)].status) else None
  }

  datatype SheetRow = SheetRow(id: UserId, name: string, status: Option<string>)

  /** The edit page's student list: every student, by name, with the status on the date or `None`. */
  function Sheet(m: Marks, users: seq<User>, date: Date): (r: seq<SheetRow>)
    ensures |r| == |Roster(users)|
    ensures forall i, j :: 0 <= i < j < |r| ==> NameLe(r[i].name, r[j].name)
    ensures forall i :: 0 <= i < |r| ==> r[i].status == StatusOn(m, r[i].id, date)
  {
    var ss := Roster(users);
    seq(|ss|, i requires 0 <= i < |ss| => SheetRow(ss[i].id, ss[i].name, StatusOn(m, ss[i].id, date)))
  }

  function SheetIds(sheet: seq<SheetRow>): (ids: seq<UserId>)
    ensures |ids| == |sheet| && forall i :: 0 <= i < |sheet| ==> ids[i] == sheet[i].id
  {
    seq(|sheet|, i requires 0 <= i < |sheet| => sheet[i].id)
  }

  /** The sheet has a row for every student ... */
  lemma SheetListsEveryStudent(m: Marks, users: seq<User>, date: Date, u: User)
    requires u in users && u.role == Student
    ensures var r := Sheet(m, users, date);
            exists i :: 0 <= i < |r| && r[i].id == u.id && r[i].name == u.name
  {
    var ss := Roster(users);
    var r := Sheet(m, users, date);
    assert u in ss;
    var i :| 0 <= i < |ss| && ss[i] == u;
    assert r[i].id == u.id && r[i].name == u.name;
  }

  /** ... and every row of the sheet is a student. */
  lemma SheetListsOnlyStudents(m: Marks, users: seq<User>, date: Date, i: nat)
    requires i < |Sheet(m, users, date)|
    ensures var r := Sheet(m, users, date);
            exists u :: u in users && u.role == Student && r[i].id == u.id && r[i].name == u.name
  {
    var ss := Roster(users);
    var r := Sheet(m, users, date);
    assert ss[i] in ss;
    assert r[i].id == ss[i].id && r[i].name == ss[i].name;
  }

  /** With distinct user ids, no student appears twice on the sheet. */
  lemma SheetListsEachStudentOnce(m: Marks, users: seq<User>, date: Date)
    requires DistinctIds(users)
    ensures var r := Sheet(m, users, date);
            forall i, j :: 0 <= i < j < |r| ==> r[i].id != r[j].id
  {
    var ss := Roster(users);
    var r := Sheet(m, users, date);
    forall i, j | 0 <= i < j < |r| ensures r[i].id != r[j].id {
      assert r[i].id == ss[i].id && r[j].id == ss[j].id;
    }
  }

  /**
   * A submission through the edit page: each student's status afterwards is
   * the submitted one when the field was filled in and the earlier one
   * (possibly `None`, never defaulted to absent) otherwise.
   */
  lemma SheetAfterSubmit(m: Marks, users: seq<User>, date: Date, form: Form, actor: UserId)
    ensures var before := Sheet(m, users, date);
            var after := Sheet(Submitted(m, SheetIds(before), date, form, actor), users, date);
            && |after| == |before|
            && forall i :: 0 <= i < |after| ==>
                 after[i].id == before[i].id
                 && after[i].status == (if Submits(form, before[i].id) then Some(form[before[i].id]) else before[i].status)
  {
    var before := Sheet(m, users, date);
    var ids := SheetIds(before);
    var m' := Submitted(m, ids, date, form, actor);
    var after := Sheet(m', users, date);
    forall i | 0 <= i < |after|
      ensures after[i].id == before[i].id
      ensures after[i].status == (if Submits(form, before[i].id) then Some(form[before[i].id]) else before[i].status)
    {
      assert ids[i] == before[i].id;
      SubmittedAt(m, ids, date, form, actor, Key(before[i].id, date));
    }
  }

  // ---------------------------------------------------------------------
  // History

  lemma {:induction false} MaxExists(ds: set<Date>)
    requires exists d :: d in ds
    ensures exists d :: d in ds && forall e :: e in ds ==> e <= d
    decreases ds
  {
    var x :| x in ds;
    var rest := ds - {x};
    if exists e :: e in rest {
      MaxExists(rest);
      var d :| d in rest && forall e :: e in rest ==> e <= d;
      var top := if d < x then x else d;
      forall e | e in ds ensures e <= top {
        if e != x {
          assert e in rest;
        }
      }
    } else {
      forall e | e in ds ensures e <= x {
        assert e !in rest;
      }
    }
  }

  /** The newest date of a non-empty set. */
  function Newest(ds: set<Date>): (d: Date)
    requires exists d :: d in ds
    ensures d in ds && forall e :: e in ds ==> e <= d
  {
    MaxExists(ds);
    var d :| d in ds && forall e :: e in ds ==> e <= d;
    d
  }

  /** `ORDER BY date DESC` over a set of dates: newest first, each once. */
  function SortedDesc(ds: set<Date>): (r: seq<Date>)
    ensures forall d :: d in r <==> d in ds
    ensures forall i, j :: 0 <= i < j < |r| ==> r[i] > r[j]
    decreases ds
  {
    if exists d :: d in ds then
      var d := Newest(ds);
      var rest := SortedDesc(ds - {d});
      assert forall e :: e in rest ==> e < d;
      [d] + rest
    else []
  }

  datatype DatedStatus = DatedStatus(date: Date, status: string)

  function DatesOf(m: Marks, sid: UserId): (r: set<Date>)
    ensures forall d :: d in r <==> Key(sid, d) in m
  {
    set k | k in m && k.student == sid :: k.date
  }

  /** A student's own history: their rows only, newest first, each date once. */
  function HistoryFor(m: Marks, sid: UserId): (r: seq<DatedStatus>)
    ensures forall i, j :: 0 <= i < j < |r| ==> r[i].date > r[j].date
    ensures forall i :: 0 <= i < |r| ==> Key(sid, r[i].date) in m && r[i].status == m[Key(sid, r[i].date)].status
    ensures forall k :: k in m && k.student == sid ==> DatedStatus(k.date, m[k].status) in r
  {
    var ds := SortedDesc(DatesOf(m, sid));
    assert forall d :: d in ds <==> Key(sid, d) in m;
    var r := StatusesOn(m, sid, ds);
    assert forall k :: k in m && k.student == sid ==> DatedStatus(k.date, m[k].status) in r by {
      forall k | k in m && k.student == sid ensures DatedStatus(k.date, m[k].status) in r {
        assert k == Key(sid, k.date);
        var i :| 0 <= i < |ds| && ds[i] == k.date;
        assert r[i] == DatedStatus(k.date, m[k].status);
      }
    }
    r
  }

  /** The student's status on each of the dates `ds`, in that order. */
  function StatusesOn(m: Marks, sid: UserId, ds: seq<Date>): (r: seq<DatedStatus>)
    requires forall d :: d in ds ==> Key(sid, d) in m
    ensures |r| == |ds|
    ensures forall i :: 0 <= i < |ds| ==> r[i] == DatedStatus(ds[i], m[Key(sid, ds[i])].status)
  {
    seq(|ds|, i requires 0 <= i < |ds| => DatedStatus(ds[i], m[Key(sid, ds[i])].status))
  }

  /** Rows of other students have no effect on a student's history. */
  lemma HistoryIsolated(m1: Marks, m2: Marks, sid: UserId)
    requires forall d :: Key(sid, d) in m1 <==> Key(sid, d) in m2
    requires forall d :: Key(sid, d) in m1 ==> m1[Key(sid, d)].status == m2[Key(sid, d)].status
    ensures HistoryFor(m1, sid) == HistoryFor(m2, sid)
  {
    assert DatesOf(m1, sid) == DatesOf(m2, sid) by {
      forall d ensures d in DatesOf(m1, sid) <==> d in DatesOf(m2, sid) {
        if d in DatesOf(m1, sid) { assert Key(sid, d) in m1; }
        if d in DatesOf(m2, sid) { assert Key(sid, d) in m2; }
      }
    }
  }

  datatype HistoryRow = HistoryRow(date: Date, name: string, status: string)

  /** The join condition for one date: the user has a row on it. */
  function HasRowOn(m: Marks, d: Date): User -> bool
  {
    (u: User) => Key(u.id, d) in m
  }

  /** The joined rows of one date, one per user in `us` that has a row on it, in the order of `us`. */
  function RowsOn(m: Marks, d: Date, us: seq<User>): (r: seq<HistoryRow>)
    ensures forall i :: 0 <= i < |r| ==> r[i].date == d
  {
    var on := Where(us, HasRowOn(m, d));
    seq(|on|, i requires 0 <= i < |on| => HistoryRow(d, on[i].name, m[Key(on[i].id, d)].status))
  }

  /** `FROM attendance a JOIN users u ON u.id = a.student_id`, date by date in the order of `ds`. */
  function JoinAll(m: Marks, ds: seq<Date>, us: seq<User>): (r: seq<HistoryRow>)
    ensures forall i :: 0 <= i < |r| ==> r[i].date in ds
  {
    if ds == [] then []
    else RowsOn(m, ds[0], us) + JoinAll(m, ds[1..], us)
  }

  /** The order of `ORDER BY a.date DESC, u.name`. */
  predicate NewestFirstThenByName(r: seq<HistoryRow>)
  {
    forall i, j :: 0 <= i < j < |r| ==>
      r[i].date > r[j].date || (r[i].date == r[j].date && NameLe(r[i].name, r[j].name))
  }

  /** A joined row: some user with that name has a row with that status on that date. */
  ghost predicate Joined(m: Marks, us: seq<User>, row: HistoryRow)
  {
    exists u :: u in us && Key(u.id, row.date) in m && u.name == row.name && m[Key(u.id, row.date)].status == row.status
  }

  /** Over name-sorted users, the rows of one date are in name order. */
  lemma RowsOnSorted(m: Marks, d: Date, us: seq<User>)
    requires SortedByName(us)
    ensures forall i, j :: 0 <= i < j < |RowsOn(m, d, us)| ==> NameLe(RowsOn(m, d, us)[i].name, RowsOn(m, d, us)[j].name)
  {
    WhereKeepsSorted(us, HasRowOn(m, d));
  }

  /** Each row of one date joins a user with their record on that date. */
  lemma RowsOnSound(m: Marks, d: Date, us: seq<User>)
    ensures forall i :: 0 <= i < |RowsOn(m, d, us)| ==> Joined(m, us, RowsOn(m, d, us)[i])
  {
    var on := Where(us, HasRowOn(m, d));
    var r := RowsOn(m, d, us);
    forall i | 0 <= i < |r| ensures Joined(m, us, r[i]) {
      assert on[i] in us;
    }
  }

  /** No user's record on the date is missing from its rows. */
  lemma RowsOnComplete(m: Marks, d: Date, us: seq<User>)
    ensures forall u :: u in us && Key(u.id, d) in m ==> HistoryRow(d, u.name, m[Key(u.id, d)].status) in RowsOn(m, d, us)
  {
    var on := Where(us, HasRowOn(m, d));
    var r := RowsOn(m, d, us);
    forall u | u in us && Key(u.id, d) in m ensures HistoryRow(d, u.name, m[Key(u.id, d)].status) in r {
      var j :| 0 <= j < |us| && us[j] == u;
      var i :| 0 <= i < |on| && on[i] == u;
      assert r[i] == HistoryRow(d, u.name, m[Key(u.id, d)].status);
    }
  }

  /** The rows of one date, in name order, followed by ordered rows of older dates, are in order. */
  lemma AppendOrdered(a: seq<HistoryRow>, b: seq<HistoryRow>, d: Date)
    requires forall i :: 0 <= i < |a| ==> a[i].date == d
    requires forall i, j :: 0 <= i < j < |a| ==> NameLe(a[i].name, a[j].name)
    requires NewestFirstThenByName(b)
    requires forall j :: 0 <= j < |b| ==> b[j].date < d
    ensures NewestFirstThenByName(a + b)
  {
    var r := a + b;
    forall i, j | 0 <= i < j < |r|
      ensures r[i].date > r[j].date || (r[i].date == r[j].date && NameLe(r[i].name, r[j].name))
    {
      if j < |a| {
      } else if i < |a| {
        assert r[j] == b[j - |a|];
      } else {
        assert r[i] == b[i - |a|] && r[j] == b[j - |a|];
      }
    }
  }

  /** Over strictly descending dates and name-sorted users, the join is newest first, then by name. */
  lemma {:induction false} JoinAllOrdered(m: Marks, ds: seq<Date>, us: seq<User>)
    requires SortedByName(us)
    requires forall i, j :: 0 <= i < j < |ds| ==> ds[i] > ds[j]
    ensures NewestFirstThenByName(JoinAll(m, ds, us))
  {
    if ds != [] {
      var b := JoinAll(m, ds[1..], us);
      RowsOnSorted(m, ds[0], us);
      JoinAllOrdered(m, ds[1..], us);
      forall j | 0 <= j < |b| ensures b[j].date < ds[0] {
        var k :| 0 <= k < |ds[1..]| && ds[1..][k] == b[j].date;
        assert ds[k + 1] == b[j].date;
      }
      AppendOrdered(RowsOn(m, ds[0], us), b, ds[0]);
    }
  }

  /** Soundness of two lists of rows carries over to their concatenation. */
  lemma AppendSound(m: Marks, us: seq<User>, a: seq<HistoryRow>, b: seq<HistoryRow>)
    requires forall i :: 0 <= i < |a| ==> Joined(m, us, a[i])
    requires forall i :: 0 <= i < |b| ==> Joined(m, us, b[i])
    ensures forall i :: 0 <= i < |a + b| ==> Joined(m, us, (a + b)[i])
  {
    forall i | 0 <= i < |a + b| ensures Joined(m, us, (a + b)[i]) {
      if i < |a| {
        assert (a + b)[i] == a[i];
      } else {
        assert (a + b)[i] == b[i - |a|];
      }
    }
  }

  /** Every joined row comes from a real (user, record) pair. */
  lemma {:induction false} JoinAllSound(m: Marks, ds: seq<Date>, us: seq<User>)
    ensures forall i :: 0 <= i < |JoinAll(m, ds, us)| ==> Joined(m, us, JoinAll(m, ds, us)[i])
  {
    if ds != [] {
      RowsOnSound(m, ds[0], us);
      JoinAllSound(m, ds[1..], us);
      AppendSound(m, us, RowsOn(m, ds[0], us), JoinAll(m, ds[1..], us));
    }
  }

  /** Every record of a listed user on a walked date appears in the join. */
  lemma {:induction false} JoinAllComplete(m: Marks, ds: seq<Date>, us: seq<User>)
    ensures forall u, d :: u in us && d in ds && Key(u.id, d) in m ==>
              HistoryRow(d, u.name, m[Key(u.id, d)].status) in JoinAll(m, ds, us)
  {
    if ds != [] {
      var a := RowsOn(m, ds[0], us);
      var b := JoinAll(m, ds[1..], us);
      RowsOnComplete(m, ds[0], us);
      JoinAllComplete(m, ds[1..], us);
      forall u, d | u in us && d in ds && Key(u.id, d) in m
        ensures HistoryRow(d, u.name, m[Key(u.id, d)].status) in a + b
      {
        if d != ds[0] {
          assert d in ds[1..];
        }
      }
    }
  }

  function AllDates(m: Marks): (r: set<Date>)
    ensures forall k :: k in m ==> k.date in r
  {
    set k | k in m :: k.date
  }

  /**
   * The staff history: every row whose student is a user, newest date first
   * and by name within a date, each row carrying that user's name.
   */
  function HistoryAll(m: Marks, users: seq<User>): (r: seq<HistoryRow>)
    ensures NewestFirstThenByName(r)
    ensures forall i :: 0 <= i < |r| ==> Joined(m, users, r[i])
    ensures forall u, k :: u in users && k in m && k.student == u.id ==>
              HistoryRow(k.date, u.name, m[k].status) in r
  {
    var r := JoinAll(m, SortedDesc(AllDates(m)), SortByName(users));
    StaffJoinOrdered(m, users);
    StaffJoinSound(m, users, r);
    StaffJoinComplete(m, users, r);
    r
  }

  /** The staff join is newest first, then by name. */
  lemma StaffJoinOrdered(m: Marks, users: seq<User>)
    ensures NewestFirstThenByName(JoinAll(m, SortedDesc(AllDates(m)), SortByName(users)))
  {
    SortByNameSorted(users);
    JoinAllOrdered(m, SortedDesc(AllDates(m)), SortByName(users));
  }

  /** Every row of the staff join comes from a user of the table and their record. */
  lemma StaffJoinSound(m: Marks, users: seq<User>, r: seq<HistoryRow>)
    requires r == JoinAll(m, SortedDesc(AllDates(m)), SortByName(users))
    ensures forall i :: 0 <= i < |r| ==> Joined(m, users, r[i])
  {
    var us := SortByName(users);
    SortByNameSameRows(users);
    JoinAllSound(m, SortedDesc(AllDates(m)), us);
    forall i | 0 <= i < |r| ensures Joined(m, users, r[i]) {
      var u :| u in us && Key(u.id, r[i].date) in m && u.name == r[i].name && m[Key(u.id, r[i].date)].status == r[i].status;
    }
  }

  /** No record of a user of the table is missing from the staff join. */
  lemma StaffJoinComplete(m: Marks, users: seq<User>, r: seq<HistoryRow>)
    requires r == JoinAll(m, SortedDesc(AllDates(m)), SortByName(users))
    ensures forall u, k :: u in users && k in m && k.student == u.id ==> HistoryRow(k.date, u.name, m[k].status) in r
  {
    var ds := SortedDesc(AllDates(m));
    var us := SortByName(users);
    SortByNameSameRows(users);
    JoinAllComplete(m, ds, us);
    forall u, k | u in users && k in m && k.student == u.id ensures HistoryRow(k.date, u.name, m[k].status) in r {
      assert k.date in ds && k == Key(u.id, k.date);
    }
  }

  // ---------------------------------------------------------------------
  // One row per record

  /** Some user has the id of the record's student: the JOIN finds a partner for it. */
  ghost predicate KnownStudent(us: seq<User>, k: Key)
  {
    exists u :: u in us && u.id == k.student
  }

  /** `row` is what the JOIN makes of record `k`: its date and status and its student's name. */
  ghost predicate RowFrom(m: Marks, us: seq<User>, row: HistoryRow, k: Key)
  {
    k in m && row.date == k.date && row.status == m[k].status
    && exists u :: u in us && u.id == k.student && u.name == row.name
  }

  /**
   * `ks` names the record behind each row of `r`: each row comes from its
   * own record, no record is used twice, and every record of a known
   * student is used.
   */
  ghost predicate OnePerRecord(m: Marks, us: seq<User>, r: seq<HistoryRow>, ks: seq<Key>)
  {
    && |ks| == |r|
    && (forall i :: 0 <= i < |r| ==> RowFrom(m, us, r[i], ks[i]))
    && (forall i, j :: 0 <= i < j < |ks| ==> ks[i] != ks[j])
    && (forall k :: k in m && KnownStudent(us, k) ==> k in ks)
  }

  /** The record behind each row of `RowsOn(m, d, us)`. */
  ghost function KeysOn(m: Marks, d: Date, us: seq<User>): (ks: seq<Key>)
    ensures forall i :: 0 <= i < |ks| ==> ks[i].date == d
  {
    var on := Where(us, HasRowOn(m, d));
    seq(|on|, i requires 0 <= i < |on| => Key(on[i].id, d))
  }

  /** The record behind each row of `JoinAll(m, ds, us)`. */
  ghost function JoinKeys(m: Marks, ds: seq<Date>, us: seq<User>): (ks: seq<Key>)
    ensures forall i :: 0 <= i < |ks| ==> ks[i].date in ds
  {
    if ds == [] then []
    else KeysOn(m, ds[0], us) + JoinKeys(m, ds[1..], us)
  }

  /** Each row of one date comes from the record its key names. */
  lemma KeysOnSound(m: Marks, d: Date, us: seq<User>)
    ensures |KeysOn(m, d, us)| == |RowsOn(m, d, us)|
    ensures forall i :: 0 <= i < |RowsOn(m, d, us)| ==> RowFrom(m, us, RowsOn(m, d, us)[i], KeysOn(m, d, us)[i])
  {
    var on := Where(us, HasRowOn(m, d));
    var r := RowsOn(m, d, us);
    var ks := KeysOn(m, d, us);
    forall i | 0 <= i < |r| ensures RowFrom(m, us, r[i], ks[i]) {
      assert on[i] in us && HasRowOn(m, d)(on[i]);
      assert r[i] == HistoryRow(d, on[i].name, m[Key(on[i].id, d)].status) && ks[i] == Key(on[i].id, d);
    }
  }

  /** Over users with distinct ids, no record of the date is named twice. */
  lemma KeysOnDistinct(m: Marks, d: Date, us: seq<User>)
    requires DistinctIds(us)
    ensures forall i, j :: 0 <= i < j < |KeysOn(m, d, us)| ==> KeysOn(m, d, us)[i] != KeysOn(m, d, us)[j]
  {
    var on := Where(us, HasRowOn(m, d));
    var ks := KeysOn(m, d, us);
    WhereKeepsDistinct(us, HasRowOn(m, d));
    forall i, j | 0 <= i < j < |ks| ensures ks[i] != ks[j] {
      assert ks[i].student == on[i].id && ks[j].student == on[j].id;
    }
  }

  /** Every record of the date whose student is a user is named. */
  lemma KeysOnComplete(m: Marks, d: Date, us: seq<User>)
    ensures forall k :: k in m && k.date == d && KnownStudent(us, k) ==> k in KeysOn(m, d, us)
  {
    var on := Where(us, HasRowOn(m, d));
    var ks := KeysOn(m, d, us);
    forall k | k in m && k.date == d && KnownStudent(us, k) ensures k in ks {
      var u :| u in us && u.id == k.student;
      var j :| 0 <= j < |us| && us[j] == u;
      assert HasRowOn(m, d)(us[j]);
      var i :| 0 <= i < |on| && on[i] == u;
      assert ks[i] == k;
    }
  }

  /** Two key lists of disjoint dates, each without repeats, have none together. */
  lemma AppendKeysDistinct(a: seq<Key>, b: seq<Key>, d: Date)
    requires forall i :: 0 <= i < |a| ==> a[i].date == d
    requires forall j :: 0 <= j < |b| ==> b[j].date != d
    requires forall i, j :: 0 <= i < j < |a| ==> a[i] != a[j]
    requires forall i, j :: 0 <= i < j < |b| ==> b[i] != b[j]
    ensures forall i, j :: 0 <= i < j < |a + b| ==> (a + b)[i] != (a + b)[j]
  {
    var c := a + b;
    forall i, j | 0 <= i < j < |c| ensures c[i] != c[j] {
      if j < |a| {
        assert c[i] == a[i] && c[j] == a[j];
      } else if i < |a| {
        assert c[i] == a[i] && c[j] == b[j - |a|];
      } else {
        assert c[i] == b[i - |a|] && c[j] == b[j - |a|];
      }
    }
  }

  /** Row provenance of two lists carries over to their concatenation. */
  lemma AppendRowsFrom(m: Marks, us: seq<User>, a: seq<HistoryRow>, ka: seq<Key>, b: seq<HistoryRow>, kb: seq<Key>)
    requires |ka| == |a| && |kb| == |b|
    requires forall i :: 0 <= i < |a| ==> RowFrom(m, us, a[i], ka[i])
    requires forall i :: 0 <= i < |b| ==> RowFrom(m, us, b[i], kb[i])
    ensures forall i :: 0 <= i < |a + b| ==> RowFrom(m, us, (a + b)[i], (ka + kb)[i])
  {
    forall i | 0 <= i < |a + b| ensures RowFrom(m, us, (a + b)[i], (ka + kb)[i]) {
      if i < |a| {
        assert (a + b)[i] == a[i] && (ka + kb)[i] == ka[i];
      } else {
        assert (a + b)[i] == b[i - |a|] && (ka + kb)[i] == kb[i - |a|];
      }
    }
  }

  /**
   * Over strictly descending dates and users with distinct ids, the join has
   * one row per record of a known student on a walked date.
   */
  lemma {:induction false} JoinKeysOnePerRecord(m: Marks, ds: seq<Date>, us: seq<User>)
    requires DistinctIds(us)
    requires forall i, j :: 0 <= i < j < |ds| ==> ds[i] > ds[j]
    ensures var r := JoinAll(m, ds, us);
            var ks := JoinKeys(m, ds, us);
            && |ks| == |r|
            && (forall i :: 0 <= i < |r| ==> RowFrom(m, us, r[i], ks[i]))
            && (forall i, j :: 0 <= i < j < |ks| ==> ks[i] != ks[j])
            && (forall k :: k in m && k.date in ds && KnownStudent(us, k) ==> k in ks)
  {
    if ds != [] {
      var d := ds[0];
      var a := RowsOn(m, d, us);
      var ka := KeysOn(m, d, us);
      var b := JoinAll(m, ds[1..], us);
      var kb := JoinKeys(m, ds[1..], us);
      KeysOnSound(m, d, us);
      KeysOnDistinct(m, d, us);
      KeysOnComplete(m, d, us);
      JoinKeysOnePerRecord(m, ds[1..], us);
      AppendRowsFrom(m, us, a, ka, b, kb);
      forall j | 0 <= j < |kb| ensures kb[j].date != d {
        var n :| 0 <= n < |ds[1..]| && ds[1..][n] == kb[j].date;
        assert ds[n + 1] == kb[j].date;
      }
      AppendKeysDistinct(ka, kb, d);
      forall k | k in m && k.date in ds && KnownStudent(us, k) ensures k in ka + kb {
        if k.date != d {
          assert k.date in ds[1..];
        }
      }
    }
  }

  /** The records behind the rows of `HistoryAll(m, users)`. */
  ghost function HistoryKeys(m: Marks, users: seq<User>): seq<Key>
  {
    JoinKeys(m, SortedDesc(AllDates(m)), SortByName(users))
  }

  /**
   * With distinct user ids, the staff history lists every record of a known
   * student exactly once: the JOIN neither drops nor repeats a record.
   */
  lemma HistoryAllOnePerRecord(m: Marks, users: seq<User>)
    requires DistinctIds(users)
    ensures OnePerRecord(m, users, HistoryAll(m, users), HistoryKeys(m, users))
  {
    var ds := SortedDesc(AllDates(m));
    var us := SortByName(users);
    var r := HistoryAll(m, users);
    var ks := HistoryKeys(m, users);
    SortByNameSameRows(users);
    SortByNameDistinct(users);
    JoinKeysOnePerRecord(m, ds, us);
    forall i | 0 <= i < |r| ensures RowFrom(m, users, r[i], ks[i]) {
      assert RowFrom(m, us, r[i], ks[i]);
    }
    forall k | k in m && KnownStudent(users, k) ensures k in ks {
      assert k.date in ds;
      assert KnownStudent(us, k);
    }
  }
}
