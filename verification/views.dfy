/** The four projections of a generated timetable
    (backend/enhanced_admin_routes.py, `_generate_*_timetable`): a student
    grid keyed by day then period, and per-staff, per-classroom and per-lab
    grids, each with the owner's name. Every projection is a left fold over
    the entries, so a later entry for the same cell overwrites an earlier one,
    while an owner's name is fixed by the owner's first entry. */
module Views {
  import opened Records
  import opened Preprocess
  import Scheduler

  /** A cell of the student view. */
  datatype StudentCell = StudentCell(subject: string, staff: string, classroom: string)
  /** A cell of a staff member's view. */
  datatype StaffCell = StaffCell(subject: string, classroom: string)
  /** A cell of a classroom's (or lab's) view. */
  datatype RoomCell = RoomCell(subject: string, staff: string)

  /** `{day: {time_slot: cell}}`. */
  type Grid<C> = map<string, map<int, C>>

  /** `{'name': ..., 'schedule': grid}` of one staff member or room. */
  datatype Owned<C> = Owned(name: string, schedule: Grid<C>)

  predicate Has<C>(g: Grid<C>, s: Slot) {
    s.day in g && s.period in g[s.day]
  }

  /** Writes cell `c` at slot `s`, creating the day's row when it is missing. */
  function PutCell<C>(g: Grid<C>, s: Slot, c: C): (r: Grid<C>)
    ensures Has(r, s) && r[s.day][s.period] == c
    ensures forall t :: t != s ==> (Has(r, t) <==> Has(g, t))
    ensures forall t :: t != s && Has(g, t) ==> Has(r, t) && r[t.day][t.period] == g[t.day][t.period]
  {
    if s.day in g then g[s.day := g[s.day][s.period := c]] else g[s.day := map[s.period := c]]
  }

  function StudentCellOf(e: Entry): StudentCell {
    StudentCell(e.subjectName, e.staffName, e.classroomName)
  }

  /** `_generate_student_timetable`. */
  function StudentView(tt: seq<Entry>): Grid<StudentCell>
    decreases |tt|
  {
    if tt == [] then map[]
    else PutCell(StudentView(tt[..|tt| - 1]), tt[|tt| - 1].slot, StudentCellOf(tt[|tt| - 1]))
  }

  /** No entry after position `i` uses the same (day, period) cell. */
  ghost predicate LastAt(tt: seq<Entry>, i: int) {
    0 <= i < |tt| && forall j :: i < j < |tt| ==> tt[j].slot != tt[i].slot
  }

  /** The student view shows, at each used cell, the last entry for that cell. */
  lemma {:induction false} StudentCellAt(tt: seq<Entry>, i: int)
    requires LastAt(tt, i)
    ensures Has(StudentView(tt), tt[i].slot)
    ensures StudentView(tt)[tt[i].slot.day][tt[i].slot.period] == StudentCellOf(tt[i])
    decreases |tt|
  {
    var init := tt[..|tt| - 1];
    if i < |tt| - 1 {
      assert LastAt(init, i) by {
        forall j | i < j < |init| ensures init[j].slot != init[i].slot {
          assert init[j] == tt[j];
        }
      }
      StudentCellAt(init, i);
      assert init[i] == tt[i];
    }
  }

  /** Every cell of the student view comes from some entry at that cell. */
  lemma {:induction false} StudentCellFrom(tt: seq<Entry>, s: Slot)
    requires Has(StudentView(tt), s)
    ensures exists i :: 0 <= i < |tt| && tt[i].slot == s
    decreases |tt|
  {
    var init := tt[..|tt| - 1];
    if tt[|tt| - 1].slot != s {
      StudentCellFrom(init, s);
      var i :| 0 <= i < |init| && init[i].slot == s;
      assert tt[i] == init[i];
    }
  }

  /** The shared fold of the staff, classroom and lab views: entries passing
      `keep` are grouped by `key`; a group's name comes from its first entry. */
  function OwnerView<C>(tt: seq<Entry>, keep: Entry -> bool, key: Entry -> int, name: Entry -> string,
                        cell: Entry -> C): map<int, Owned<C>>
    decreases |tt|
  {
    if tt == [] then map[]
    else
      var prev := OwnerView(tt[..|tt| - 1], keep, key, name, cell);
      var e := tt[|tt| - 1];
      if !keep(e) then prev
      else
        var o := if key(e) in prev then prev[key(e)] else Owned(name(e), map[]);
        prev[key(e) := Owned(o.name, PutCell(o.schedule, e.slot, cell(e)))]
  }

  /** A group exists exactly for the keys of kept entries. */
  lemma OwnerKeys<C>(tt: seq<Entry>, keep: Entry -> bool, key: Entry -> int,
                                       name: Entry -> string, cell: Entry -> C, k: int)
    ensures k in OwnerView(tt, keep, key, name, cell) <==>
            exists i :: 0 <= i < |tt| && keep(tt[i]) && key(tt[i]) == k
    decreases |tt|
  {
    if tt != [] {
      var init := tt[..|tt| - 1];
      OwnerKeys(init, keep, key, name, cell, k);
      if exists i :: 0 <= i < |init| && keep(init[i]) && key(init[i]) == k {
        var i :| 0 <= i < |init| && keep(init[i]) && key(init[i]) == k;
        assert tt[i] == init[i];
      }
      if exists i :: 0 <= i < |tt| && keep(tt[i]) && key(tt[i]) == k {
        var i :| 0 <= i < |tt| && keep(tt[i]) && key(tt[i]) == k;
        if i < |init| {
          assert init[i] == tt[i];
        }
      }
    }
  }

  /** Entry `i` is the first kept entry of its group. */
  ghost predicate FirstOfGroup(tt: seq<Entry>, keep: Entry -> bool, key: Entry -> int, i: int) {
    0 <= i < |tt| && keep(tt[i]) && forall j :: 0 <= j < i && keep(tt[j]) ==> key(tt[j]) != key(tt[i])
  }

  /** A group's name is the name of its first entry. */
  lemma {:induction false} OwnerName<C>(tt: seq<Entry>, keep: Entry -> bool, key: Entry -> int,
                                       name: Entry -> string, cell: Entry -> C, i: int)
    requires FirstOfGroup(tt, keep, key, i)
    ensures key(tt[i]) in OwnerView(tt, keep, key, name, cell)
    ensures OwnerView(tt, keep, key, name, cell)[key(tt[i])].name == name(tt[i])
    decreases |tt|
  {
    var init := tt[..|tt| - 1];
    if i < |tt| - 1 {
      assert FirstOfGroup(init, keep, key, i) by {
        forall j | 0 <= j < i && keep(init[j]) ensures key(init[j]) != key(init[i]) {
          assert init[j] == tt[j];
        }
      }
      OwnerName(init, keep, key, name, cell, i);
      assert init[i] == tt[i];
    } else {
      OwnerKeys(init, keep, key, name, cell, key(tt[i]));
    }
  }

  /** Entry `i` is kept and no later kept entry of its group uses its cell. */
  ghost predicate LastOfGroupAt(tt: seq<Entry>, keep: Entry -> bool, key: Entry -> int, i: int) {
    0 <= i < |tt| && keep(tt[i])
    && forall j :: i < j < |tt| && keep(tt[j]) && key(tt[j]) == key(tt[i]) ==> tt[j].slot != tt[i].slot
  }

  /** A group's grid shows, at each used cell, the group's last entry for it. */
  lemma {:induction false} OwnerCellAt<C>(tt: seq<Entry>, keep: Entry -> bool, key: Entry -> int,
                                         name: Entry -> string, cell: Entry -> C, i: int)
    requires LastOfGroupAt(tt, keep, key, i)
    ensures key(tt[i]) in OwnerView(tt, keep, key, name, cell)
    ensures Has(OwnerView(tt, keep, key, name, cell)[key(tt[i])].schedule, tt[i].slot)
    ensures OwnerView(tt, keep, key, name, cell)[key(tt[i])].schedule[tt[i].slot.day][tt[i].slot.period] == cell(tt[i])
    decreases |tt|
  {
    var init := tt[..|tt| - 1];
    if i < |tt| - 1 {
      assert LastOfGroupAt(init, keep, key, i) by {
        forall j | i < j < |init| && keep(init[j]) && key(init[j]) == key(init[i])
          ensures init[j].slot != init[i].slot
        {
          assert init[j] == tt[j];
        }
      }
      OwnerCellAt(init, keep, key, name, cell, i);
      assert init[i] == tt[i];
    }
  }

  /** Every cell of a group's grid comes from a kept entry of that group at that cell. */
  lemma {:induction false} OwnerCellFrom<C>(tt: seq<Entry>, keep: Entry -> bool, key: Entry -> int,
                                           name: Entry -> string, cell: Entry -> C, k: int, s: Slot)
    requires k in OwnerView(tt, keep, key, name, cell)
    requires Has(OwnerView(tt, keep, key, name, cell)[k].schedule, s)
    ensures exists i :: 0 <= i < |tt| && keep(tt[i]) && key(tt[i]) == k && tt[i].slot == s
    decreases |tt|
  {
    var init := tt[..|tt| - 1];
    var e := tt[|tt| - 1];
    if !(keep(e) && key(e) == k && e.slot == s) {
      if !keep(e) || key(e) != k {
        OwnerCellFrom(init, keep, key, name, cell, k, s);
      } else {
        OwnerKeys(init, keep, key, name, cell, k);
        if k in OwnerView(init, keep, key, name, cell) {
          OwnerCellFrom(init, keep, key, name, cell, k, s);
        }
      }
      var i :| 0 <= i < |init| && keep(init[i]) && key(init[i]) == k && init[i].slot == s;
      assert tt[i] == init[i];
    }
  }

  function StaffCellOf(e: Entry): StaffCell {
    StaffCell(e.subjectName, e.classroomName)
  }

  function RoomCellOf(e: Entry): RoomCell {
    RoomCell(e.subjectName, e.staffName)
  }

  function KeepAll(e: Entry): bool { true }
  function StaffKey(e: Entry): int { e.staffId }
  function StaffName(e: Entry): string { e.staffName }
  function RoomKey(e: Entry): int { e.classroomId }
  function RoomName(e: Entry): string { e.classroomName }

  /** The lab test on an entry: its room's name, lower-cased, contains "lab". */
  function InLab(e: Entry): bool { IsLabName(e.classroomName) }

  /** `_generate_staff_timetable`: grouped by staff id. */
  function StaffView(tt: seq<Entry>): map<int, Owned<StaffCell>> {
    OwnerView(tt, KeepAll, StaffKey, StaffName, StaffCellOf)
  }

  /** `_generate_classroom_timetable`: grouped by classroom id. */
  function ClassroomView(tt: seq<Entry>): map<int, Owned<RoomCell>> {
    OwnerView(tt, KeepAll, RoomKey, RoomName, RoomCellOf)
  }

  /** `_generate_lab_timetable`: grouped by classroom id, keeping only entries
      whose room name contains "lab" in lower case. */
  function LabView(tt: seq<Entry>): map<int, Owned<RoomCell>> {
    OwnerView(tt, InLab, RoomKey, RoomName, RoomCellOf)
  }

  /** A group's name is the name of one of its kept entries. */
  lemma {:induction false} OwnerNameFrom<C>(tt: seq<Entry>, keep: Entry -> bool, key: Entry -> int,
                                           name: Entry -> string, cell: Entry -> C, k: int)
    requires k in OwnerView(tt, keep, key, name, cell)
    ensures exists i :: 0 <= i < |tt| && keep(tt[i]) && key(tt[i]) == k
                        && name(tt[i]) == OwnerView(tt, keep, key, name, cell)[k].name
    decreases |tt|
  {
    var init := tt[..|tt| - 1];
    var e := tt[|tt| - 1];
    var prev := OwnerView(init, keep, key, name, cell);
    if k in prev {
      OwnerNameFrom(init, keep, key, name, cell, k);
      var i :| 0 <= i < |init| && keep(init[i]) && key(init[i]) == k && name(init[i]) == prev[k].name;
      assert tt[i] == init[i];
    } else {
      assert 0 <= |tt| - 1 < |tt| && keep(tt[|tt| - 1]) && key(tt[|tt| - 1]) == k;
    }
  }

  /** All entries for one room carry that room's name, as the generator's
      entries do (the name is looked up from the room's id). */
  ghost predicate ConsistentRoomNames(tt: seq<Entry>) {
    forall i, j :: 0 <= i < |tt| && 0 <= j < |tt| && tt[i].classroomId == tt[j].classroomId ==>
      tt[i].classroomName == tt[j].classroomName
  }

  /** The rooms of a classroom view whose name passes the lab test. */
  function LabPart(v: map<int, Owned<RoomCell>>): (r: map<int, Owned<RoomCell>>)
    ensures forall k :: k in r <==> k in v && IsLabName(v[k].name)
    ensures forall k :: k in r ==> r[k] == v[k]
  {
    map k | k in v && IsLabName(v[k].name) :: v[k]
  }

  /** The name of a room in the classroom view is the name its entries carry. */
  lemma RoomNameInView(tt: seq<Entry>, i: int)
    requires ConsistentRoomNames(tt) && 0 <= i < |tt|
    requires tt[i].classroomId in ClassroomView(tt)
    ensures ClassroomView(tt)[tt[i].classroomId].name == tt[i].classroomName
  {
    OwnerNameFrom(tt, KeepAll, RoomKey, RoomName, RoomCellOf, tt[i].classroomId);
  }

  /** Replacing one room of a classroom view by a group with the same name
      changes its lab part in the same way. */
  lemma LabPartStep(all: map<int, Owned<RoomCell>>, k: int, o: Owned<RoomCell>)
    requires k in all ==> all[k].name == o.name
    ensures IsLabName(o.name) ==> LabPart(all[k := o]) == LabPart(all)[k := o]
    ensures !IsLabName(o.name) ==> LabPart(all[k := o]) == LabPart(all)
  {
  }

  lemma ConsistentPrefix(tt: seq<Entry>)
    requires tt != [] && ConsistentRoomNames(tt)
    ensures ConsistentRoomNames(tt[..|tt| - 1])
  {
    var init := tt[..|tt| - 1];
    forall a, b | 0 <= a < |init| && 0 <= b < |init| && init[a].classroomId == init[b].classroomId
      ensures init[a].classroomName == init[b].classroomName
    {
      assert init[a] == tt[a] && init[b] == tt[b];
    }
  }

  /** A room already in the view of a prefix carries the name of the next entry for it. */
  lemma PrefixRoomName(tt: seq<Entry>)
    requires tt != [] && ConsistentRoomNames(tt)
    ensures tt[|tt| - 1].classroomId in ClassroomView(tt[..|tt| - 1]) ==>
            ClassroomView(tt[..|tt| - 1])[tt[|tt| - 1].classroomId].name == tt[|tt| - 1].classroomName
  {
    var init := tt[..|tt| - 1];
    var k := tt[|tt| - 1].classroomId;
    if k in ClassroomView(init) {
      OwnerNameFrom(init, KeepAll, RoomKey, RoomName, RoomCellOf, k);
      var i :| 0 <= i < |init| && init[i].classroomId == k && init[i].classroomName == ClassroomView(init)[k].name;
      assert tt[i] == init[i];
    }
  }

  /** When every entry for a room carries that room's name, the lab view is
      exactly the classroom view restricted to rooms whose name passes the lab
      test, the same test that classifies rooms as labs. */
  lemma {:induction false} LabIsRestriction(tt: seq<Entry>)
    requires ConsistentRoomNames(tt)
    ensures LabView(tt) == LabPart(ClassroomView(tt))
    decreases |tt|
  {
    if tt != [] {
      var init := tt[..|tt| - 1];
      var e := tt[|tt| - 1];
      var k := e.classroomId;
      ConsistentPrefix(tt);
      LabIsRestriction(init);
      PrefixRoomName(tt);
      var all := ClassroomView(init);
      var o := if k in all then all[k] else Owned(e.classroomName, map[]);
      var o' := Owned(o.name, PutCell(o.schedule, e.slot, RoomCellOf(e)));
      assert ClassroomView(tt) == all[k := o'];
      LabPartStep(all, k, o');
    }
  }

  /** In a timetable with at most one entry per cell, as the generator
      produces, every entry appears in the student view, in its staff
      member's view and in its room's view, and in the lab view when its
      room's name passes the lab test. */
  lemma EntryShown(tt: seq<Entry>, i: int)
    requires Scheduler.DistinctSlots(tt) && 0 <= i < |tt|
    ensures Has(StudentView(tt), tt[i].slot)
    ensures StudentView(tt)[tt[i].slot.day][tt[i].slot.period] == StudentCellOf(tt[i])
    ensures tt[i].staffId in StaffView(tt) && Has(StaffView(tt)[tt[i].staffId].schedule, tt[i].slot)
    ensures StaffView(tt)[tt[i].staffId].schedule[tt[i].slot.day][tt[i].slot.period] == StaffCellOf(tt[i])
    ensures tt[i].classroomId in ClassroomView(tt) && Has(ClassroomView(tt)[tt[i].classroomId].schedule, tt[i].slot)
    ensures ClassroomView(tt)[tt[i].classroomId].schedule[tt[i].slot.day][tt[i].slot.period] == RoomCellOf(tt[i])
    ensures InLab(tt[i]) <==> tt[i].classroomId in LabView(tt) && Has(LabView(tt)[tt[i].classroomId].schedule, tt[i].slot)
    ensures InLab(tt[i]) ==>
              LabView(tt)[tt[i].classroomId].schedule[tt[i].slot.day][tt[i].slot.period] == RoomCellOf(tt[i])
  {
    StudentCellAt(tt, i);
    OwnerCellAt(tt, KeepAll, StaffKey, StaffName, StaffCellOf, i);
    OwnerCellAt(tt, KeepAll, RoomKey, RoomName, RoomCellOf, i);
    if InLab(tt[i]) {
      OwnerCellAt(tt, InLab, RoomKey, RoomName, RoomCellOf, i);
    } else if tt[i].classroomId in LabView(tt) && Has(LabView(tt)[tt[i].classroomId].schedule, tt[i].slot) {
      OwnerCellFrom(tt, InLab, RoomKey, RoomName, RoomCellOf, tt[i].classroomId, tt[i].slot);
    }
  }
}
