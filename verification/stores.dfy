/** The department-scoped stores of backend/api_routes.py: replacing a
    department's saved timetable (`save_timetables`), and creating and listing
    scheduling constraints (`create_constraint`, `get_constraints`). Tables are
    sequences of rows in insertion order. */
module Stores {
  import opened Common

  // ---------------------------------------------------------------------------
  // Saved timetables

  /** A row of the `timetables` table. */
  datatype SavedRow = SavedRow(dept: int, day: string, timeSlot: string, subjectId: int, staffId: int, classroomId: int)

  /** A submitted entry: every field present, or some key missing (which makes
      the insert raise). */
  datatype EntryIn = Complete(day: string, timeSlot: string, subjectId: int, staffId: int, classroomId: int)
                   | Incomplete

  datatype SaveError = DeptRequired | ServerError

  /** `not department_id`: missing, null or 0. */
  predicate NoDept(dept: Json<int>) {
    !dept.Given? || dept.value == 0
  }

  /** The rows of department `d`, in table order. */
  function RowsOf(rows: seq<SavedRow>, d: int): (r: seq<SavedRow>)
    ensures |r| <= |rows|
    ensures forall k :: 0 <= k < |r| ==> r[k].dept == d
    decreases |rows|
  {
    if rows == [] then []
    else if rows[|rows| - 1].dept == d then RowsOf(rows[..|rows| - 1], d) + [rows[|rows| - 1]]
    else RowsOf(rows[..|rows| - 1], d)
  }

  /** The rows of every department but `d`, in table order. */
  function RowsNotOf(rows: seq<SavedRow>, d: int): (r: seq<SavedRow>)
    ensures |r| <= |rows|
    ensures forall k :: 0 <= k < |r| ==> r[k].dept != d
    decreases |rows|
  {
    if rows == [] then []
    else if rows[|rows| - 1].dept != d then RowsNotOf(rows[..|rows| - 1], d) + [rows[|rows| - 1]]
    else RowsNotOf(rows[..|rows| - 1], d)
  }

  predicate AllComplete(entries: seq<EntryIn>) {
    forall k :: 0 <= k < |entries| ==> entries[k].Complete?
  }

  /** The inserted rows for department `d`. */
  function RowsFor(d: int, entries: seq<EntryIn>): (r: seq<SavedRow>)
    requires AllComplete(entries)
    ensures |r| == |entries|
    ensures forall k :: 0 <= k < |r| ==> r[k].dept == d
    decreases |entries|
  {
    if entries == [] then []
    else
      var e := entries[|entries| - 1];
      RowsFor(d, entries[..|entries| - 1]) + [SavedRow(d, e.day, e.timeSlot, e.subjectId, e.staffId, e.classroomId)]
  }

  /** `save_timetables`: a missing department is rejected; a null entry list or
      an entry with a missing key raises before the commit, so nothing changes;
      otherwise the department's rows are deleted and the entries inserted. */
  function SaveTimetable(rows: seq<SavedRow>, dept: Json<int>, entries: Json<seq<EntryIn>>): (r: Result<seq<SavedRow>, SaveError>)
    ensures NoDept(dept) <==> r == Err(DeptRequired)
    ensures r.Ok? <==> !NoDept(dept) && !entries.Null? && (entries.Given? ==> AllComplete(entries.value))
  {
    if NoDept(dept) then Err(DeptRequired)
    else
      var list := match entries case Absent => [] case Null => [] case Given(es) => es;
      if entries.Null? || !AllComplete(list) then Err(ServerError)
      else Ok(RowsNotOf(rows, dept.value) + RowsFor(dept.value, list))
  }

  lemma {:induction false} RowsOfAppend(a: seq<SavedRow>, b: seq<SavedRow>, d: int)
    ensures RowsOf(a + b, d) == RowsOf(a, d) + RowsOf(b, d)
    ensures RowsNotOf(a + b, d) == RowsNotOf(a, d) + RowsNotOf(b, d)
    decreases |b|
  {
    if b != [] {
      var b' := b[..|b| - 1];
      assert (a + b)[..|a + b| - 1] == a + b';
      assert (a + b)[|a + b| - 1] == b[|b| - 1];
      RowsOfAppend(a, b', d);
    } else {
      assert a + b == a;
    }
  }

  lemma {:induction false} RowsOfHomogeneous(rows: seq<SavedRow>, d: int, d': int)
    requires forall k :: 0 <= k < |rows| ==> rows[k].dept == d
    ensures RowsOf(rows, d) == rows
    ensures d' != d ==> RowsOf(rows, d') == [] && RowsNotOf(rows, d') == rows
    decreases |rows|
  {
    if rows != [] {
      RowsOfHomogeneous(rows[..|rows| - 1], d, d');
    }
  }

  lemma {:induction false} RowsOfOthers(rows: seq<SavedRow>, d: int, d': int)
    requires d' != d
    ensures RowsOf(RowsNotOf(rows, d), d') == RowsOf(rows, d')
    ensures RowsOf(RowsNotOf(rows, d), d) == []
    decreases |rows|
  {
    if rows != [] {
      var init := rows[..|rows| - 1];
      RowsOfOthers(init, d, d');
      if rows[|rows| - 1].dept != d {
        RowsOfAppend(RowsNotOf(init, d), [rows[|rows| - 1]], d');
        RowsOfAppend(RowsNotOf(init, d), [rows[|rows| - 1]], d);
      }
    }
  }

  /** After a save, the department's rows are exactly the submitted entries, in
      order, and every other department's rows are as they were. */
  lemma SaveReplaces(rows: seq<SavedRow>, dept: Json<int>, entries: Json<seq<EntryIn>>, other: int)
    requires SaveTimetable(rows, dept, entries).Ok? && other != dept.value
    ensures RowsOf(SaveTimetable(rows, dept, entries).value, dept.value) ==
            RowsFor(dept.value, if entries.Given? then entries.value else [])
    ensures RowsOf(SaveTimetable(rows, dept, entries).value, other) == RowsOf(rows, other)
  {
    var d := dept.value;
    var list := if entries.Given? then entries.value else [];
    var kept := RowsNotOf(rows, d);
    var added := RowsFor(d, list);
    RowsOfAppend(kept, added, d);
    RowsOfAppend(kept, added, other);
    RowsOfOthers(rows, d, other);
    RowsOfHomogeneous(added, d, other);
  }

  // ---------------------------------------------------------------------------
  // Constraints

  /** A row of the `constraints` table; `dept` is `None` for a global
      constraint. The table's CHECK constraints admit only the roles in
      `ConstraintRoles` and the types in `SubjectTypes`, and both limits are
      NOT NULL. */
  datatype ConstraintRec = ConstraintRec(
    dept: Option<int>,
    role: string,
    subjectType: string,
    maxSubjects: int,
    maxHours: int,
    createdBy: int)

  const ConstraintRoles: seq<string> := ["assistant_professor", "professor", "hod"]
  const SubjectTypes: seq<string> := ["theory", "lab", "both"]

  /** What the table accepts as a row. */
  predicate SchemaOk(c: ConstraintRec) {
    c.role in ConstraintRoles && c.subjectType in SubjectTypes
  }

  /** The `users` columns the constraint routes read. */
  datatype User = User(dept: Option<int>, role: string)

  datatype ConstraintRequest = ConstraintRequest(
    role: Json<string>,
    subjectType: Json<string>,
    dept: Json<int>,
    maxSubjects: Json<int>,
    maxHours: Json<int>)

  /** `SchemaRejected` is the 500 the route returns when the INSERT breaks a
      CHECK or NOT NULL constraint of the table. */
  datatype ConstraintError = RoleAndTypeRequired | UserNotFound | SchemaRejected

  const MainAdmin: string := "main_admin"
  /** `data.get('max_subjects', 1)`. */
  const DefaultMaxSubjects: int := 1
  /** `data.get('max_hours', 8)`. */
  const DefaultMaxHoursPerWeek: int := 8

  predicate Blank(f: Json<string>) {
    !f.Given? || f.value == ""
  }

  /** `data.get(key, default)`: the default only for a missing key; `null` is stored as NULL. */
  function WithDefault(f: Json<int>, default: int): (v: Option<int>)
    ensures f.Absent? ==> v == Some(default)
    ensures f.Null? ==> v.None?
    ensures f.Given? ==> v == Some(f.value)
  {
    match f
    case Absent => Some(default)
    case Null => None
    case Given(x) => Some(x)
  }

  /** The department a new constraint is filed under: whatever a main admin
      passes (none for a global constraint), and the creator's own department
      for anyone else. */
  function ConstraintDept(user: User, req: ConstraintRequest): (d: Option<int>)
    ensures user.role != MainAdmin ==> d == user.dept
    ensures user.role == MainAdmin ==> (d.None? <==> !req.dept.Given?)
  {
    if user.role == MainAdmin then (if req.dept.Given? then Some(req.dept.value) else None) else user.dept
  }

  /** `create_constraint`: appends one row, or leaves the table as it was
      when the row breaks the table's schema. */
  function CreateConstraint(store: seq<ConstraintRec>, users: map<int, User>, uid: int, req: ConstraintRequest)
    : (r: Result<seq<ConstraintRec>, ConstraintError>)
    ensures r.Ok? <==> && !Blank(req.role) && !Blank(req.subjectType) && uid in users
                       && req.role.value in ConstraintRoles && req.subjectType.value in SubjectTypes
                       && !req.maxSubjects.Null? && !req.maxHours.Null?
    ensures Blank(req.role) || Blank(req.subjectType) ==> r == Err(RoleAndTypeRequired)
    ensures r.Ok? ==> |r.value| == |store| + 1 && r.value[..|store|] == store && SchemaOk(r.value[|store|])
    ensures r.Ok? ==> && r.value[|store|].createdBy == uid && r.value[|store|].role == req.role.value
                      && r.value[|store|].subjectType == req.subjectType.value
  {
    if Blank(req.role) || Blank(req.subjectType) then Err(RoleAndTypeRequired)
    else if uid !in users then Err(UserNotFound)
    else
      var maxSubjects := WithDefault(req.maxSubjects, DefaultMaxSubjects);
      var maxHours := WithDefault(req.maxHours, DefaultMaxHoursPerWeek);
      if maxSubjects.None? || maxHours.None? then Err(SchemaRejected)
      else
        var c := ConstraintRec(ConstraintDept(users[uid], req), req.role.value, req.subjectType.value,
                               maxSubjects.value, maxHours.value, uid);
        if !SchemaOk(c) then Err(SchemaRejected) else Ok(store + [c])
  }

  /** Every row the route ever adds satisfies the schema, so a table built
      by it holds only schema-conforming rows. */
  lemma CreatePreservesSchema(store: seq<ConstraintRec>, users: map<int, User>, uid: int, req: ConstraintRequest)
    requires forall k :: 0 <= k < |store| ==> SchemaOk(store[k])
    ensures match CreateConstraint(store, users, uid, req)
            case Ok(t) => forall k :: 0 <= k < |t| ==> SchemaOk(t[k])
            case Err(_) => true
  {
  }

  /** What a new constraint holds: the defaults for omitted limits, and a
      department chosen by `ConstraintDept`. */
  lemma CreatedConstraint(store: seq<ConstraintRec>, users: map<int, User>, uid: int, req: ConstraintRequest)
    requires CreateConstraint(store, users, uid, req).Ok?
    ensures var c := CreateConstraint(store, users, uid, req).value[|store|];
            && c.maxSubjects == (if req.maxSubjects.Given? then req.maxSubjects.value else 1)
            && c.maxHours == (if req.maxHours.Given? then req.maxHours.value else 8)
            && (users[uid].role != MainAdmin ==> c.dept == users[uid].dept)
            && (users[uid].role == MainAdmin && !req.dept.Given? ==> c.dept.None?)
  {
  }

  /** The rows `get_constraints` returns to `user`: everything for a main
      admin; otherwise the user's department's rows and the global ones (a user
      with no department sees only the global ones, as SQL `= NULL` fails). */
  predicate VisibleTo(user: User, c: ConstraintRec) {
    user.role == MainAdmin || c.dept.None? || (user.dept.Some? && c.dept == user.dept)
  }

  function Visible(store: seq<ConstraintRec>, user: User): (r: seq<ConstraintRec>)
    ensures |r| <= |store|
    ensures forall k :: 0 <= k < |r| ==> VisibleTo(user, r[k])
    decreases |store|
  {
    if store == [] then []
    else if VisibleTo(user, store[|store| - 1]) then Visible(store[..|store| - 1], user) + [store[|store| - 1]]
    else Visible(store[..|store| - 1], user)
  }

  /** A row is listed exactly when it is visible to the user. */
  lemma {:induction false} VisibleIff(store: seq<ConstraintRec>, user: User, c: ConstraintRec)
    ensures c in Visible(store, user) <==> c in store && VisibleTo(user, c)
    decreases |store|
  {
    if store != [] {
      var init := store[..|store| - 1];
      VisibleIff(init, user, c);
      assert store == init + [store[|store| - 1]];
    }
  }

  /** A department admin or staff member never sees another department's
      constraint, and a constraint they create is seen by everyone in their
      department. */
  lemma ScopedCreation(store: seq<ConstraintRec>, users: map<int, User>, uid: int, req: ConstraintRequest,
                       viewer: User)
    requires CreateConstraint(store, users, uid, req).Ok? && users[uid].role != MainAdmin
    requires users[uid].dept.Some? && viewer.dept == users[uid].dept
    ensures CreateConstraint(store, users, uid, req).value[|store|] in Visible(CreateConstraint(store, users, uid, req).value, viewer)
  {
    var r := CreateConstraint(store, users, uid, req).value;
    VisibleIff(r, viewer, r[|store|]);
  }

  lemma HiddenFromOtherDepartments(store: seq<ConstraintRec>, viewer: User, c: ConstraintRec)
    requires viewer.role != MainAdmin && c.dept.Some? && c.dept != viewer.dept
    ensures c !in Visible(store, viewer)
  {
    VisibleIff(store, viewer, c);
  }
}
