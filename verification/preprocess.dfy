/** The four preprocessing passes of the generator, which turn database rows
    into lookup tables (backend/enhanced_admin_routes.py, `_process_*`). Each
    pass is a left fold in row order, so a later row for the same key wins. */
module Preprocess {
  import opened Common
  import opened Text
  import opened Records
  import opened OrderedMap

  function RuleOf(c: ConstraintRow): Rule {
    Rule(c.maxSubjects, c.maxHoursPerWeek, c.subjectTypes.GetOr([]), c.labFacultyRequired)
  }

  /** Row `i` is the last one in `cs` for its role. */
  ghost predicate LastForRole(cs: seq<ConstraintRow>, i: int) {
    0 <= i < |cs| && forall j :: i < j < |cs| ==> cs[j].role != cs[i].role
  }

  /** `_process_constraints`: one rule per role, taken from the role's last row;
      a missing subject-type list becomes empty. */
  function ProcessConstraints(cs: seq<ConstraintRow>): (rules: map<string, Rule>)
    ensures cs != [] ==> cs[|cs| - 1].role in rules
  {
    if cs == [] then map[]
    else
      var c := cs[|cs| - 1];
      ProcessConstraints(cs[..|cs| - 1])[c.role := RuleOf(c)]
  }

  /** A role has a rule exactly when some row names it. */
  lemma {:induction false} ConstraintRoles(cs: seq<ConstraintRow>, role: string)
    ensures role in ProcessConstraints(cs) <==> exists i :: 0 <= i < |cs| && cs[i].role == role
  {
    if cs != [] {
      var init := cs[..|cs| - 1];
      ConstraintRoles(init, role);
      if exists i :: 0 <= i < |init| && init[i].role == role {
        var i :| 0 <= i < |init| && init[i].role == role;
        assert cs[i] == init[i];
      }
      if exists i :: 0 <= i < |cs| && cs[i].role == role {
        var i :| 0 <= i < |cs| && cs[i].role == role;
        if i < |init| {
          assert init[i] == cs[i];
        }
      }
    }
  }

  /** The rule of a role is built from the last row for that role. */
  lemma {:induction false} ConstraintLastWins(cs: seq<ConstraintRow>, i: int)
    requires LastForRole(cs, i)
    ensures cs[i].role in ProcessConstraints(cs)
    ensures ProcessConstraints(cs)[cs[i].role] == RuleOf(cs[i])
  {
    var init := cs[..|cs| - 1];
    if i < |cs| - 1 {
      assert LastForRole(init, i) by {
        forall j | i < j < |init| ensures init[j].role != init[i].role {
          assert init[j] == cs[j];
        }
      }
      ConstraintLastWins(init, i);
      assert init[i] == cs[i];
    }
  }

  /** A rule lists subject types only when some row for its role carried a list. */
  lemma {:induction false} TypesFromRows(cs: seq<ConstraintRow>, role: string)
    requires role in ProcessConstraints(cs) && ProcessConstraints(cs)[role].subjectTypes != []
    ensures exists i :: 0 <= i < |cs| && cs[i].role == role && cs[i].subjectTypes.Some?
  {
    var init := cs[..|cs| - 1];
    var c := cs[|cs| - 1];
    if c.role != role {
      TypesFromRows(init, role);
      var i :| 0 <= i < |init| && init[i].role == role && init[i].subjectTypes.Some?;
      assert cs[i] == init[i];
    }
  }

  /** A staff row takes part in scheduling only when it carries preference text. */
  predicate Submitted(s: StaffRow) {
    s.preferences.Some?
  }

  function InfoOf(s: StaffRow): StaffInfo
    requires Submitted(s)
  {
    var prefs := match s.preferences.value
      case Decoded(ids) => ids
      case Malformed => [];
    StaffInfo(s.name, s.staffRole, prefs)
  }

  ghost predicate LastSubmitted(rows: seq<StaffRow>, i: int) {
    0 <= i < |rows| && Submitted(rows[i])
    && forall j :: i < j < |rows| && Submitted(rows[j]) ==> rows[j].id != rows[i].id
  }

  /** `_process_staff_preferences`: staff with no preference text are absent;
      text that does not decode gives an empty list; the iteration order is the
      order in which staff ids first appear. */
  function ProcessStaffPreferences(rows: seq<StaffRow>): (prefs: OMap<int, StaffInfo>)
    ensures Valid(prefs)
  {
    if rows == [] then Empty()
    else
      var prev := ProcessStaffPreferences(rows[..|rows| - 1]);
      var s := rows[|rows| - 1];
      if Submitted(s) then Put(prev, s.id, InfoOf(s)) else prev
  }

  /** A staff member is present exactly when some row for them carries preferences. */
  lemma {:induction false} StaffPresent(rows: seq<StaffRow>, id: int)
    ensures id in ProcessStaffPreferences(rows).values <==>
            exists i :: 0 <= i < |rows| && rows[i].id == id && Submitted(rows[i])
  {
    if rows != [] {
      var init := rows[..|rows| - 1];
      StaffPresent(init, id);
      if exists i :: 0 <= i < |init| && init[i].id == id && Submitted(init[i]) {
        var i :| 0 <= i < |init| && init[i].id == id && Submitted(init[i]);
        assert rows[i] == init[i];
      }
      if exists i :: 0 <= i < |rows| && rows[i].id == id && Submitted(rows[i]) {
        var i :| 0 <= i < |rows| && rows[i].id == id && Submitted(rows[i]);
        if i < |init| {
          assert init[i] == rows[i];
        }
      }
    }
  }

  /** A staff member's record comes from their last row with preferences. */
  lemma {:induction false} StaffLastWins(rows: seq<StaffRow>, i: int)
    requires LastSubmitted(rows, i)
    ensures rows[i].id in ProcessStaffPreferences(rows).values
    ensures ProcessStaffPreferences(rows).values[rows[i].id] == InfoOf(rows[i])
  {
    var init := rows[..|rows| - 1];
    if i < |rows| - 1 {
      assert LastSubmitted(init, i) by {
        forall j | i < j < |init| && Submitted(init[j]) ensures init[j].id != init[i].id {
          assert init[j] == rows[j];
        }
      }
      StaffLastWins(init, i);
      assert init[i] == rows[i];
    }
  }

  function SubjectInfoOf(s: SubjectRow): SubjectInfo {
    SubjectInfo(s.name, s.code, s.credits, s.credits * HoursPerCredit)
  }

  ghost predicate LastSubject(rows: seq<SubjectRow>, i: int) {
    0 <= i < |rows| && forall j :: i < j < |rows| ==> rows[j].id != rows[i].id
  }

  /** `_process_subjects`: each subject needs two weekly hours per credit. */
  function ProcessSubjects(rows: seq<SubjectRow>): (subjects: map<int, SubjectInfo>)
    ensures rows != [] ==> rows[|rows| - 1].id in subjects
  {
    if rows == [] then map[]
    else
      var s := rows[|rows| - 1];
      ProcessSubjects(rows[..|rows| - 1])[s.id := SubjectInfoOf(s)]
  }

  /** A subject is present exactly when some row has its id. */
  lemma {:induction false} SubjectPresent(rows: seq<SubjectRow>, id: int)
    ensures id in ProcessSubjects(rows) <==> exists i :: 0 <= i < |rows| && rows[i].id == id
  {
    if rows != [] {
      var init := rows[..|rows| - 1];
      SubjectPresent(init, id);
      if exists i :: 0 <= i < |init| && init[i].id == id {
        var i :| 0 <= i < |init| && init[i].id == id;
        assert rows[i] == init[i];
      }
      if exists i :: 0 <= i < |rows| && rows[i].id == id {
        var i :| 0 <= i < |rows| && rows[i].id == id;
        if i < |init| {
          assert init[i] == rows[i];
        }
      }
    }
  }

  /** A subject's record comes from its last row. */
  lemma {:induction false} SubjectLastWins(rows: seq<SubjectRow>, i: int)
    requires LastSubject(rows, i)
    ensures rows[i].id in ProcessSubjects(rows)
    ensures ProcessSubjects(rows)[rows[i].id] == SubjectInfoOf(rows[i])
  {
    var init := rows[..|rows| - 1];
    if i < |rows| - 1 {
      assert LastSubject(init, i) by {
        forall j | i < j < |init| ensures init[j].id != init[i].id {
          assert init[j] == rows[j];
        }
      }
      SubjectLastWins(init, i);
      assert init[i] == rows[i];
    }
  }

  /** Every processed subject needs `credits * 2` weekly hours. */
  lemma {:induction false} SubjectHours(rows: seq<SubjectRow>, id: int)
    requires id in ProcessSubjects(rows)
    ensures ProcessSubjects(rows)[id].hoursPerWeek == 2 * ProcessSubjects(rows)[id].credits
  {
    var init := rows[..|rows| - 1];
    if id != rows[|rows| - 1].id {
      SubjectHours(init, id);
    }
  }

  /** The name test shared by room classification and the lab view. */
  predicate IsLabName(name: string) {
    Contains(Lower(name), "lab")
  }

  function ClassroomInfoOf(c: ClassroomRow): ClassroomInfo {
    ClassroomInfo(c.name, c.capacity, if IsLabName(c.name) then Lab else Lecture)
  }

  ghost predicate LastClassroom(rows: seq<ClassroomRow>, i: int) {
    0 <= i < |rows| && forall j :: i < j < |rows| ==> rows[j].id != rows[i].id
  }

  /** `_process_classrooms`: rooms in first-registration order, each classified
      as a lab exactly when its lower-cased name contains "lab". */
  function ProcessClassrooms(rows: seq<ClassroomRow>): (rooms: OMap<int, ClassroomInfo>)
    ensures Valid(rooms)
  {
    if rows == [] then Empty()
    else
      var c := rows[|rows| - 1];
      Put(ProcessClassrooms(rows[..|rows| - 1]), c.id, ClassroomInfoOf(c))
  }

  /** A room is present exactly when some row has its id. */
  lemma {:induction false} ClassroomPresent(rows: seq<ClassroomRow>, id: int)
    ensures id in ProcessClassrooms(rows).values <==> exists i :: 0 <= i < |rows| && rows[i].id == id
  {
    if rows != [] {
      var init := rows[..|rows| - 1];
      ClassroomPresent(init, id);
      if exists i :: 0 <= i < |init| && init[i].id == id {
        var i :| 0 <= i < |init| && init[i].id == id;
        assert rows[i] == init[i];
      }
      if exists i :: 0 <= i < |rows| && rows[i].id == id {
        var i :| 0 <= i < |rows| && rows[i].id == id;
        if i < |init| {
          assert init[i] == rows[i];
        }
      }
    }
  }

  /** A room's record comes from its last row, classified by name. */
  lemma {:induction false} ClassroomLastWins(rows: seq<ClassroomRow>, i: int)
    requires LastClassroom(rows, i)
    ensures rows[i].id in ProcessClassrooms(rows).values
    ensures ProcessClassrooms(rows).values[rows[i].id] == ClassroomInfoOf(rows[i])
    ensures ProcessClassrooms(rows).values[rows[i].id].kind == Lab <==> IsLabName(rows[i].name)
  {
    var init := rows[..|rows| - 1];
    if i < |rows| - 1 {
      assert LastClassroom(init, i) by {
        forall j | i < j < |init| ensures init[j].id != init[i].id {
          assert init[j] == rows[j];
        }
      }
      ClassroomLastWins(init, i);
      assert init[i] == rows[i];
    }
  }

  /** The first registered room keeps first place in the iteration order, and
      with no rooms the order is empty. */
  lemma {:induction false} FirstRoomIsFirstRow(rows: seq<ClassroomRow>)
    ensures rows == [] <==> ProcessClassrooms(rows).keys == []
    ensures rows != [] ==> ProcessClassrooms(rows).keys[0] == rows[0].id
  {
    if rows != [] {
      var init := rows[..|rows| - 1];
      FirstRoomIsFirstRow(init);
      if init != [] {
        assert init[0] == rows[0];
      }
    }
  }

  /** Every processed room is classified as a lab exactly when its name
      passes the lab test. */
  lemma {:induction false} KindMatchesName(rows: seq<ClassroomRow>, id: int)
    requires id in ProcessClassrooms(rows).values
    ensures ProcessClassrooms(rows).values[id].kind == Lab <==> IsLabName(ProcessClassrooms(rows).values[id].name)
  {
    var init := rows[..|rows| - 1];
    if id != rows[|rows| - 1].id {
      KindMatchesName(init, id);
    }
  }
}
