/** The data model of the timetable generator: the database rows it reads,
    the lookup records its preprocessing builds, and the entries it emits. */
module Records {
  import opened Common

  /** Credit-to-hours multiplier of `_process_subjects`. */
  const HoursPerCredit: int := 2
  /** Hours assumed for a preferred subject that is not a department subject. */
  const UnknownSubjectHours: int := 3
  /** Weekly cap for a role with no constraint rule. */
  const DefaultMaxHours: int := 8
  /** Schedule used when the department has no timetable configuration. */
  const DefaultPeriodsPerDay: int := 7
  const DefaultWorkingDays: seq<string> := ["Monday", "Tuesday", "Wednesday", "Thursday", "Friday"]

  /** A row of `enhanced_constraints`; `subjectTypes` is the decoded JSON
      column, `None` when it is NULL or empty text. */
  datatype ConstraintRow = ConstraintRow(
    role: string,
    maxSubjects: int,
    maxHoursPerWeek: int,
    subjectTypes: Option<seq<string>>,
    labFacultyRequired: int)

  datatype Rule = Rule(maxSubjects: int, maxHours: int, subjectTypes: seq<string>, labFacultyRequired: int)

  /** The aggregated preference text of one staff member: decodable to a list of
      subject ids, or text that `json.loads` rejects. */
  datatype PrefText = Decoded(ids: seq<int>) | Malformed

  /** A staff row joined with its submissions; `preferences` is `None` when the
      aggregated text is NULL or empty. */
  datatype StaffRow = StaffRow(id: int, name: string, staffRole: Option<string>, preferences: Option<PrefText>)

  datatype StaffInfo = StaffInfo(name: string, role: Option<string>, prefs: seq<int>)

  datatype SubjectRow = SubjectRow(id: int, name: string, code: string, credits: int)

  datatype SubjectInfo = SubjectInfo(name: string, code: string, credits: int, hoursPerWeek: int)

  datatype ClassroomRow = ClassroomRow(id: int, name: string, capacity: int)

  datatype RoomKind = Lab | Lecture

  datatype ClassroomInfo = ClassroomInfo(name: string, capacity: int, kind: RoomKind)

  /** A row of `timetable_configurations`; `workingDays` is the decoded JSON list. */
  datatype Config = Config(periodsPerDay: int, workingDays: seq<string>)

  /** A (day, period) cell of the weekly grid; period `p` is the slot labelled "Period p". */
  datatype Slot = Slot(day: string, period: int)

  /** One generated timetable entry. */
  datatype Entry = Entry(
    slot: Slot,
    subjectId: int,
    staffId: int,
    classroomId: int,
    subjectName: string,
    staffName: string,
    classroomName: string)
}
