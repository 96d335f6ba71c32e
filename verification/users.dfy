/**
 * The `users` table of the student portal: the rows registration inserts,
 * the name order of `ORDER BY name`, the student roster and
 * `get_all_students` with its row limit.
 */
module Users {
  import opened Wrappers
  import opened Text
  import opened Access

  datatype User = User(
    id: UserId,
    name: string,
    email: string,
    passwordHash: string,
    studentIdentifier: Option<string>,
    role: StoredRole)

  predicate SortedByName(us: seq<User>)
  {
    forall i, j :: 0 <= i < j < |us| ==> NameLe(us[i].name, us[j].name)
  }

  /** The `id` column is a primary key: no two rows share an id. */
  predicate DistinctIds(us: seq<User>)
  {
    forall i, j :: 0 <= i < j < |us| ==> us[i].id != us[j].id
  }

  /** Places `u` before the first row whose name is not below its own. */
  function InsertByName(u: User, us: seq<User>): (r: seq<User>)
    ensures multiset(r) == multiset(us) + multiset{u}
  {
    if us == [] || NameLe(u.name, us[0].name) then [u] + us
    else
      assert us == [us[0]] + us[1..];
      [us[0]] + InsertByName(u, us[1..])
  }

  /** The tail of a sorted list is sorted and its head comes first. */
  lemma TailSorted(us: seq<User>)
    requires us != [] && SortedByName(us)
    ensures SortedByName(us[1..])
    ensures forall x :: x in us[1..] ==> NameLe(us[0].name, x.name)
  {
    var tail := us[1..];
    forall i, j | 0 <= i < j < |tail| ensures NameLe(tail[i].name, tail[j].name) {
      assert tail[i] == us[i + 1] && tail[j] == us[j + 1];
    }
    forall x | x in tail ensures NameLe(us[0].name, x.name) {
      var k :| 0 <= k < |tail| && tail[k] == x;
      assert us[k + 1] == x;
    }
  }

  /** A row no later than every row of a sorted list can go in front of it. */
  lemma ConsSorted(x: User, rest: seq<User>)
    requires SortedByName(rest)
    requires forall y :: y in rest ==> NameLe(x.name, y.name)
    ensures SortedByName([x] + rest)
  {
    var r := [x] + rest;
    forall i, j | 0 <= i < j < |r| ensures NameLe(r[i].name, r[j].name) {
      assert r[j] == rest[j - 1] && rest[j - 1] in rest;
      if i > 0 {
        assert r[i] == rest[i - 1];
      }
    }
  }

  lemma {:induction false} InsertSorted(u: User, us: seq<User>)
    requires SortedByName(us)
    ensures SortedByName(InsertByName(u, us))
  {
    if us == [] {
      ConsSorted(u, us);
    } else if NameLe(u.name, us[0].name) {
      TailSorted(us);
      forall y | y in us ensures NameLe(u.name, y.name) {
        if y != us[0] {
          assert y in us[1..] by {
            var k :| 0 <= k < |us| && us[k] == y;
            assert us[1..][k - 1] == y;
          }
          NameLeTrans(u.name, us[0].name, y.name);
        }
      }
      ConsSorted(u, us);
    } else {
      NameLeTotal(u.name, us[0].name);
      var tail := us[1..];
      TailSorted(us);
      InsertSorted(u, tail);
      var rest := InsertByName(u, tail);
      forall x | x in rest ensures NameLe(us[0].name, x.name) {
        assert x in multiset(rest);
      }
      ConsSorted(us[0], rest);
    }
  }

  /** The tail of a list with distinct ids has distinct ids, none equal to the head's. */
  lemma TailDistinct(us: seq<User>)
    requires us != [] && DistinctIds(us)
    ensures DistinctIds(us[1..])
    ensures forall x :: x in us[1..] ==> x.id != us[0].id
  {
    var tail := us[1..];
    forall i, j | 0 <= i < j < |tail| ensures tail[i].id != tail[j].id {
      assert tail[i] == us[i + 1] && tail[j] == us[j + 1];
    }
    forall x | x in tail ensures x.id != us[0].id {
      var k :| 0 <= k < |tail| && tail[k] == x;
      assert us[k + 1] == x;
    }
  }

  /** A row whose id no row of a list shares can go in front of it. */
  lemma ConsDistinct(x: User, rest: seq<User>)
    requires DistinctIds(rest)
    requires forall y :: y in rest ==> y.id != x.id
    ensures DistinctIds([x] + rest)
  {
    var r := [x] + rest;
    forall i, j | 0 <= i < j < |r| ensures r[i].id != r[j].id {
      assert r[j] == rest[j - 1] && rest[j - 1] in rest;
      if i > 0 {
        assert r[i] == rest[i - 1];
      }
    }
  }

  lemma {:induction false} InsertDistinct(u: User, us: seq<User>)
    requires DistinctIds(us)
    requires forall x :: x in us ==> x.id != u.id
    ensures DistinctIds(InsertByName(u, us))
  {
    if us == [] || NameLe(u.name, us[0].name) {
      ConsDistinct(u, us);
    } else {
      TailDistinct(us);
      InsertDistinct(u, us[1..]);
      var rest := InsertByName(u, us[1..]);
      forall x | x in rest ensures x.id != us[0].id {
        assert x in multiset(rest);
      }
      ConsDistinct(us[0], rest);
    }
  }

  /** `ORDER BY name`: insertion sort by name; rows with equal names keep their table order. */
  function SortByName(us: seq<User>): (r: seq<User>)
    ensures multiset(r) == multiset(us)
  {
    if us == [] then []
    else
      assert us == [us[0]] + us[1..];
      InsertByName(us[0], SortByName(us[1..]))
  }

  /** Sorting neither adds nor drops a row. */
  lemma SortByNameSameRows(us: seq<User>)
    ensures forall u :: u in SortByName(us) <==> u in us
  {
    assert forall u :: u in SortByName(us) <==> u in multiset(us);
  }

  /** Sorting yields rows ordered by name. */
  lemma {:induction false} SortByNameSorted(us: seq<User>)
    ensures SortedByName(SortByName(us))
  {
    if us != [] {
      SortByNameSorted(us[1..]);
      InsertSorted(us[0], SortByName(us[1..]));
    }
  }

  /** Sorting keeps the ids distinct. */
  lemma {:induction false} SortByNameDistinct(us: seq<User>)
    ensures DistinctIds(us) ==> DistinctIds(SortByName(us))
  {
    if us != [] && DistinctIds(us) {
      var tail := us[1..];
      TailDistinct(us);
      SortByNameDistinct(tail);
      var rest := SortByName(tail);
      forall x | x in rest ensures x.id != us[0].id {
        assert x in multiset(rest);
      }
      InsertDistinct(us[0], rest);
    }
  }

  /** A `WHERE` clause over user rows: the rows satisfying `keep`, in table order. */
  function Where(us: seq<User>, keep: User -> bool): (r: seq<User>)
    ensures |r| <= |us|
    ensures forall i :: 0 <= i < |r| ==> keep(r[i]) && r[i] in us
    ensures forall i :: 0 <= i < |us| && keep(us[i]) ==> us[i] in r
  {
    if us == [] then []
    else
      assert us == [us[0]] + us[1..];
      if keep(us[0]) then [us[0]] + Where(us[1..], keep) else Where(us[1..], keep)
  }

  /** Filtering keeps each passing row as often as the input has it, and no other row. */
  lemma {:induction false} WhereCount(us: seq<User>, keep: User -> bool)
    ensures forall x :: multiset(Where(us, keep))[x] == if keep(x) then multiset(us)[x] else 0
  {
    if us != [] {
      var tail := us[1..];
      assert us == [us[0]] + tail;
      WhereCount(tail, keep);
    }
  }

  /** Filtering a concatenation filters each part and keeps them in order. */
  lemma {:induction false} WhereConcat(a: seq<User>, b: seq<User>, keep: User -> bool)
    ensures Where(a + b, keep) == Where(a, keep) + Where(b, keep)
  {
    if a == [] {
      assert a + b == b;
    } else {
      var ab := a + b;
      assert ab != [] && ab[0] == a[0] && ab[1..] == a[1..] + b;
      WhereConcat(a[1..], b, keep);
      var rest := Where(a[1..], keep);
      if keep(a[0]) {
        assert Where(ab, keep) == [a[0]] + (rest + Where(b, keep));
        assert Where(a, keep) == [a[0]] + rest;
      } else {
        assert Where(ab, keep) == rest + Where(b, keep);
        assert Where(a, keep) == rest;
      }
    }
  }

  /** Filtering keeps the name order. */
  lemma {:induction false} WhereKeepsSorted(us: seq<User>, keep: User -> bool)
    requires SortedByName(us)
    ensures SortedByName(Where(us, keep))
  {
    if us != [] {
      var tail := us[1..];
      TailSorted(us);
      WhereKeepsSorted(tail, keep);
      if keep(us[0]) {
        var rest := Where(tail, keep);
        forall x | x in rest ensures NameLe(us[0].name, x.name) {
          var k :| 0 <= k < |rest| && rest[k] == x;
        }
        ConsSorted(us[0], rest);
      }
    }
  }

  /** Filtering keeps the ids distinct. */
  lemma {:induction false} WhereKeepsDistinct(us: seq<User>, keep: User -> bool)
    requires DistinctIds(us)
    ensures DistinctIds(Where(us, keep))
  {
    if us != [] {
      var tail := us[1..];
      TailDistinct(us);
      WhereKeepsDistinct(tail, keep);
      if keep(us[0]) {
        var rest := Where(tail, keep);
        forall x | x in rest ensures us[0].id != x.id {
          var k :| 0 <= k < |rest| && rest[k] == x;
        }
        ConsDistinct(us[0], rest);
      }
    }
  }

  predicate IsStudentRow(u: User) { u.role == Student }

  /** `WHERE role='student'`, in table order. */
  function Students(us: seq<User>): (r: seq<User>)
    ensures forall u :: u in r <==> u in us && u.role == Student
    ensures DistinctIds(us) ==> DistinctIds(r)
  {
    if DistinctIds(us) then
      WhereKeepsDistinct(us, IsStudentRow);
      Where(us, IsStudentRow)
    else
      Where(us, IsStudentRow)
  }

  /** Every student, ordered by name: the rows of the attendance sheets. */
  function Roster(us: seq<User>): (r: seq<User>)
    ensures SortedByName(r)
    ensures forall u :: u in r <==> u in us && u.role == Student
    ensures DistinctIds(us) ==> DistinctIds(r)
  {
    var st := Students(us);
    SortByNameSorted(st);
    var r := SortByName(st);
    SortByNameDistinct(st);
    assert forall u :: u in r <==> u in multiset(st);
    r
  }

  /** The default `limit` of `get_all_students`. */
  const DefaultStudentLimit: nat := 30

  /** A prefix of a name-sorted list is sorted, and every row left out sorts after every row kept. */
  lemma PrefixOfSorted(all: seq<User>, k: nat)
    requires SortedByName(all) && k <= |all|
    ensures SortedByName(all[..k])
    ensures forall u, x :: u in all && u !in all[..k] && x in all[..k] ==> NameLe(x.name, u.name)
    ensures DistinctIds(all) ==> DistinctIds(all[..k])
  {
    var r := all[..k];
    assert forall i :: 0 <= i < k ==> r[i] == all[i];
    forall u, x | u in all && u !in r && x in r ensures NameLe(x.name, u.name) {
      var j :| 0 <= j < |all| && all[j] == u;
      var i :| 0 <= i < k && r[i] == x;
    }
  }

  /** The first `k` students in name order, whose properties `GetAllStudents` states. */
  lemma RosterPrefix(us: seq<User>, k: nat)
    requires k <= |Roster(us)|
    ensures var r := Roster(us)[..k];
            && SortedByName(r)
            && (forall u :: u in r ==> u in us && u.role == Student)
            && (forall u, x :: u in us && u.role == Student && u !in r && x in r ==> NameLe(x.name, u.name))
            && (k == |Roster(us)| ==> forall u :: u in us && u.role == Student ==> u in r)
            && (DistinctIds(us) ==> DistinctIds(r))
  {
    var all := Roster(us);
    var r := all[..k];
    assert inAll: forall u :: u in r ==> u in all by {
      forall u | u in r ensures u in all {
        var i :| 0 <= i < k && r[i] == u;
        assert all[i] == u;
      }
    }
    assert SortedByName(r) && (DistinctIds(us) ==> DistinctIds(r)) by {
      PrefixOfSorted(all, k);
    }
    assert forall u, x :: u in us && u.role == Student && u !in r && x in r ==> NameLe(x.name, u.name) by {
      PrefixOfSorted(all, k);
      forall u, x | u in us && u.role == Student && u !in r && x in r ensures NameLe(x.name, u.name) {
        assert u in all;
      }
    }
    assert k == |all| ==> r == all;
  }

  /** `get_all_students(limit)`: the first `limit` students in name order. */
  function GetAllStudents(us: seq<User>, limit: nat): (r: seq<User>)
    ensures |r| == if limit < |Roster(us)| then limit else |Roster(us)|
    ensures SortedByName(r)
    ensures forall u :: u in r ==> u in us && u.role == Student
    ensures forall u, x :: u in us && u.role == Student && u !in r && x in r ==> NameLe(x.name, u.name)
    ensures |Roster(us)| <= limit ==> forall u :: u in us && u.role == Student ==> u in r
    ensures DistinctIds(us) ==> DistinctIds(r)
  {
    var k := if limit < |Roster(us)| then limit else |Roster(us)|;
    RosterPrefix(us, k);
    Roster(us)[..k]
  }

  /** The `id` column of a list of rows. */
  function Ids(us: seq<User>): (ids: seq<UserId>)
    ensures |ids| == |us| && forall i :: 0 <= i < |us| ==> ids[i] == us[i].id
  {
    seq(|us|, i requires 0 <= i < |us| => us[i].id)
  }

  // ---------------------------------------------------------------------
  // Registration

  /** The fields of the registration form, as submitted. */
  datatype RegistrationForm = RegistrationForm(
    name: string,
    email: string,
    role: string,
    studentIdentifier: Option<string>)

  /** What `register` does with a submission. */
  datatype Verdict =
    | Accepted         // the row is inserted; redirect to /login
    | EmailTaken       // "Email already registered"; redirect to /register
    | StudentIdMissing // "Student ID required for students"; redirect to /register
    | StoreRejected    // the INSERT violates the schema (column width, role ENUM, UNIQUE student_identifier): HTTP 500

  /** The row `register` inserts, given the value the password hash produced and the next auto-increment id. */
  function NewUser(id: UserId, form: RegistrationForm, passwordHash: string): (u: User)
    ensures u.id == id && u.passwordHash == passwordHash
    ensures u.name == Strip(form.name)
    ensures u.email == Lower(form.email) && IsLower(u.email) && |u.email| == |form.email|
    ensures u.role == ParseRole(form.role)
    ensures u.role != Student ==> u.studentIdentifier.None?
    ensures u.role == Student ==> u.studentIdentifier == form.studentIdentifier
  {
    var role := ParseRole(form.role);
    User(id, Strip(form.name), Lower(form.email), passwordHash,
         if role == Student then form.studentIdentifier else None, role)
  }

  predicate EmailInUse(rows: seq<User>, email: string)
  {
    exists i :: 0 <= i < |rows| && rows[i].email == email
  }

  /** `role == "student" and not sid`: a student without an identifier (missing or empty). */
  predicate MissingStudentId(form: RegistrationForm)
  {
    ParseRole(form.role) == Student
    && (form.studentIdentifier.None? || form.studentIdentifier.value == "")
  }

  /**
   * Two student identifiers the UNIQUE index treats as the same value: the
   * column's collation ignores letter case (modelled for ASCII letters).
   */
  predicate SameIdentifier(a: Option<string>, b: Option<string>)
  {
    a.Some? && b.Some? && Lower(a.value) == Lower(b.value)
  }

  /** The widths of the `users` columns: `VARCHAR(100)` name and e-mail, `VARCHAR(30)` student identifier. */
  const NameWidth: nat := 100
  const EmailWidth: nat := 100
  const IdentifierWidth: nat := 30

  /** The row's texts fit their columns; under strict mode a longer one makes the INSERT fail. */
  predicate FitsColumns(u: User)
  {
    && |u.name| <= NameWidth
    && |u.email| <= EmailWidth
    && (u.studentIdentifier.Some? ==> |u.studentIdentifier.value| <= IdentifierWidth)
  }

  /**
   * What the schema lets the INSERT through: texts that fit their columns, a
   * role of the ENUM and a fresh student identifier.
   */
  predicate SchemaAdmits(rows: seq<User>, u: User)
  {
    FitsColumns(u)
    && !u.role.Other?
    && forall i :: 0 <= i < |rows| ==> !SameIdentifier(rows[i].studentIdentifier, u.studentIdentifier)
  }

  /** The checks of `register`, in the order the code makes them. */
  function Check(rows: seq<User>, form: RegistrationForm): (v: Verdict)
    ensures v == EmailTaken <==> EmailInUse(rows, Lower(form.email))
    ensures v == StudentIdMissing <==> !EmailInUse(rows, Lower(form.email)) && MissingStudentId(form)
    ensures v == Accepted <==>
              !EmailInUse(rows, Lower(form.email)) && !MissingStudentId(form) && SchemaAdmits(rows, NewUser(0, form, ""))
    ensures v == Accepted ==> forall id, h :: SchemaAdmits(rows, NewUser(id, form, h))
  {
    if EmailInUse(rows, Lower(form.email)) then EmailTaken
    else if MissingStudentId(form) then StudentIdMissing
    else if !SchemaAdmits(rows, NewUser(0, form, "")) then StoreRejected
    else Accepted
  }

  /**
   * The invariant of the users table: ids below the next auto-increment value
   * and distinct, texts within their column widths, e-mails stored lower-case
   * and distinct, roles from the ENUM,
   * a non-empty student identifier exactly on student rows, and no student
   * identifier twice, letter case aside.
   */
  predicate TableInvariant(rows: seq<User>, nextId: UserId)
  {
    (forall i :: 0 <= i < |rows| ==>
       && rows[i].id < nextId
       && FitsColumns(rows[i])
       && IsLower(rows[i].email)
       && !rows[i].role.Other?
       && (rows[i].studentIdentifier.Some? <==> rows[i].role == Student)
       && (rows[i].studentIdentifier.Some? ==> rows[i].studentIdentifier.value != ""))
    && (forall i, j :: 0 <= i < j < |rows| ==>
          && rows[i].id != rows[j].id
          && rows[i].email != rows[j].email
          && !SameIdentifier(rows[i].studentIdentifier, rows[j].studentIdentifier))
  }

  /** An accepted registration keeps the table invariant. */
  lemma AcceptedKeepsInvariant(rows: seq<User>, nextId: UserId, form: RegistrationForm, passwordHash: string)
    requires TableInvariant(rows, nextId)
    requires Check(rows, form) == Accepted
    ensures TableInvariant(rows + [NewUser(nextId, form, passwordHash)], nextId + 1)
  {
    var u := NewUser(nextId, form, passwordHash);
    assert SchemaAdmits(rows, u);
    assert !EmailInUse(rows, u.email);
    assert !MissingStudentId(form);
    var r := rows + [u];
    forall i | 0 <= i < |r|
      ensures && r[i].id < nextId + 1
              && FitsColumns(r[i])
              && IsLower(r[i].email)
              && !r[i].role.Other?
              && (r[i].studentIdentifier.Some? <==> r[i].role == Student)
              && (r[i].studentIdentifier.Some? ==> r[i].studentIdentifier.value != "")
    {
      if i < |rows| {
        assert r[i] == rows[i];
      } else {
        assert r[i] == u;
      }
    }
    forall i, j | 0 <= i < j < |r|
      ensures && r[i].id != r[j].id
              && r[i].email != r[j].email
              && !SameIdentifier(r[i].studentIdentifier, r[j].studentIdentifier)
    {
      assert r[i] == rows[i];
      if j < |rows| {
        assert r[j] == rows[j];
      } else {
        assert r[j] == u;
      }
    }
  }

  /**
   * E-mail uniqueness ignores ASCII case: once a row holds an address, every
   * spelling of it that differs only in letter case is refused.
   */
  lemma EmailUniquenessIgnoresCase(rows: seq<User>, nextId: UserId, form: RegistrationForm, i: nat)
    requires TableInvariant(rows, nextId)
    requires i < |rows| && Lower(rows[i].email) == Lower(form.email)
    ensures Check(rows, form) == EmailTaken
  {
    LowerOfLower(rows[i].email);
  }

  /** A name, e-mail or student identifier too long for its column is never accepted. */
  lemma OverlongFieldRefused(rows: seq<User>, form: RegistrationForm)
    requires || |Strip(form.name)| > NameWidth
             || |form.email| > EmailWidth
             || (ParseRole(form.role) == Student && form.studentIdentifier.Some?
                 && |form.studentIdentifier.value| > IdentifierWidth)
    ensures Check(rows, form) != Accepted
  {
    assert !FitsColumns(NewUser(0, form, ""));
  }

  /**
   * Student identifier uniqueness ignores ASCII case as well: a student
   * registering "S1" next to a stored "s1" is refused by the UNIQUE index.
   */
  lemma StudentIdUniquenessIgnoresCase(rows: seq<User>, form: RegistrationForm, i: nat)
    requires i < |rows| && rows[i].studentIdentifier.Some?
    requires ParseRole(form.role) == Student && form.studentIdentifier.Some?
    requires Lower(form.studentIdentifier.value) == Lower(rows[i].studentIdentifier.value)
    ensures Check(rows, form) != Accepted
  {
    assert SameIdentifier(rows[i].studentIdentifier, NewUser(0, form, "").studentIdentifier);
  }

  /** The user table; `register` appends to it. */
  class UserTable {
    var rows: seq<User>
    var nextId: UserId

    ghost predicate Valid()
      reads this
    {
      TableInvariant(rows, nextId)
    }

    constructor ()
      ensures Valid() && rows == []
    {
      rows := [];
      nextId := 1;
    }

    /**
     * `register` on a POST: refuses a taken e-mail first, then a student
     * without an identifier, and otherwise inserts the new row.
     */
    method Register(form: RegistrationForm, passwordHash: string) returns (v: Verdict)
      requires Valid()
      modifies this
      ensures Valid()
      ensures v == Check(old(rows), form)
      ensures v == Accepted ==>
                rows == old(rows) + [NewUser(old(nextId), form, passwordHash)] && nextId == old(nextId) + 1
      ensures v != Accepted ==> rows == old(rows) && nextId == old(nextId)
    {
      v := Check(rows, form);
      if v == Accepted {
        AcceptedKeepsInvariant(rows, nextId, form, passwordHash);
        rows := rows + [NewUser(nextId, form, passwordHash)];
        nextId := nextId + 1;
      }
    }
  }
}
