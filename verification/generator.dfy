/** `generate_comprehensive_timetables` (backend/enhanced_admin_routes.py):
    preprocess the department's rows, run the greedy allocator, and project
    the entries into the student, staff, classroom and lab views. */
module Generator {
  import opened Common
  import opened Records
  import opened OrderedMap
  import opened Preprocess
  import opened Scheduler
  import opened Views

  /** The department's rows as the generate route reads them. */
  datatype Inputs = Inputs(
    constraints: seq<ConstraintRow>,
    config: Option<Config>,
    staff: seq<StaffRow>,
    subjects: seq<SubjectRow>,
    classrooms: seq<ClassroomRow>)

  /** The four views, keyed 'student', 'staff', 'classroom' and 'lab'. */
  datatype Timetables = Timetables(
    student: Grid<StudentCell>,
    staff: map<int, Owned<StaffCell>>,
    classroom: map<int, Owned<RoomCell>>,
    lab: map<int, Owned<RoomCell>>)

  function Rooms(inp: Inputs): OMap<int, ClassroomInfo> {
    ProcessClassrooms(inp.classrooms)
  }

  /** The entry list the allocator builds from the preprocessed rows. */
  function Entries(inp: Inputs): (tt: seq<Entry>)
    ensures forall i :: 0 <= i < |tt| ==> tt[i].slot.day in WorkingDays(inp.config)
  {
    var staff := ProcessStaffPreferences(inp.staff);
    var tt := BaseTimetable(ProcessConstraints(inp.constraints), staff,
                            ProcessSubjects(inp.subjects), Rooms(inp), inp.config);
    NoDoubleBooking(ProcessConstraints(inp.constraints), staff, ProcessSubjects(inp.subjects), Rooms(inp), inp.config);
    tt
  }

  function Generate(inp: Inputs): (t: Timetables) {
    var tt := Entries(inp);
    Timetables(StudentView(tt), StaffView(tt), ClassroomView(tt), LabView(tt))
  }

  /** Every generated entry shows up once in each view it belongs to: in the
      student grid, in its staff member's grid and its room's grid at its
      (day, period) cell, and in the lab grid exactly when its room is a lab
      by name. */
  lemma EveryEntryShown(inp: Inputs, i: int)
    requires 0 <= i < |Entries(inp)|
    ensures var e := Entries(inp)[i];
            var t := Generate(inp);
            Has(t.student, e.slot) && t.student[e.slot.day][e.slot.period] == StudentCell(e.subjectName, e.staffName, e.classroomName)
            && e.staffId in t.staff && Has(t.staff[e.staffId].schedule, e.slot)
            && t.staff[e.staffId].schedule[e.slot.day][e.slot.period] == StaffCell(e.subjectName, e.classroomName)
            && e.classroomId in t.classroom && Has(t.classroom[e.classroomId].schedule, e.slot)
            && t.classroom[e.classroomId].schedule[e.slot.day][e.slot.period] == RoomCell(e.subjectName, e.staffName)
            && (IsLabName(e.classroomName) <==> e.classroomId in t.lab && Has(t.lab[e.classroomId].schedule, e.slot))
  {
    var staff := ProcessStaffPreferences(inp.staff);
    NoDoubleBooking(ProcessConstraints(inp.constraints), staff, ProcessSubjects(inp.subjects), Rooms(inp), inp.config);
    EntryShown(Entries(inp), i);
  }

  /** All entries sit in the first registered room under its name. */
  lemma EntriesInFirstRoom(inp: Inputs)
    ensures forall i :: 0 <= i < |Entries(inp)| ==> InFirstRoom(Rooms(inp), Entries(inp)[i])
  {
    var staff := ProcessStaffPreferences(inp.staff);
    NoDoubleBooking(ProcessConstraints(inp.constraints), staff, ProcessSubjects(inp.subjects), Rooms(inp), inp.config);
  }

  /** The lab view is the classroom view restricted to rooms whose name passes
      the lab test, and those are exactly the rooms preprocessing classifies
      as labs. */
  lemma LabViewIsLabRooms(inp: Inputs)
    ensures Generate(inp).lab == LabPart(Generate(inp).classroom)
    ensures forall k :: k in Generate(inp).classroom ==>
              k in Rooms(inp).values && (k in Generate(inp).lab <==> Rooms(inp).values[k].kind == Lab)
  {
    var tt := Entries(inp);
    var rooms := Rooms(inp);
    EntriesInFirstRoom(inp);
    LabIsRestriction(tt);
    forall k | k in ClassroomView(tt)
      ensures k in rooms.values && (k in LabView(tt) <==> rooms.values[k].kind == Lab)
    {
      OwnerKeys(tt, KeepAll, RoomKey, RoomName, RoomCellOf, k);
      var i :| 0 <= i < |tt| && tt[i].classroomId == k;
      assert InFirstRoom(rooms, tt[i]);
      RoomNameInView(tt, i);
      KindMatchesName(inp.classrooms, k);
    }
  }

  /** With no classrooms nothing is scheduled and every view is empty. */
  lemma NoRoomsNoTimetable(inp: Inputs)
    requires inp.classrooms == []
    ensures Entries(inp) == []
    ensures Generate(inp) == Timetables(map[], map[], map[], map[])
  {
    FirstRoomIsFirstRow(inp.classrooms);
    EntriesNamed(ProcessConstraints(inp.constraints), ProcessStaffPreferences(inp.staff),
                 ProcessSubjects(inp.subjects), Rooms(inp), inp.config);
  }
}
