/** The greedy allocator `_generate_base_timetable`
    (backend/enhanced_admin_routes.py). Staff are visited in dictionary order,
    each staff member's preferred subjects in list order, and for each subject
    the weekly grid is scanned day by day, period by period. Occupancy is kept
    per (day, period) for the whole department, so at most one class runs in
    any period whatever the number of rooms. */
module Scheduler {
  import opened Common
  import opened Records
  import opened OrderedMap

  // ---------------------------------------------------------------------------
  // Configuration and lookups

  function PeriodsPerDay(config: Option<Config>): int {
    match config
    case Some(c) => c.periodsPerDay
    case None => DefaultPeriodsPerDay
  }

  function WorkingDays(config: Option<Config>): seq<string> {
    match config
    case Some(c) => c.workingDays
    case None => DefaultWorkingDays
  }

  /** `range(n)` shifted by one: the period numbers 1..n, empty when n <= 0. */
  function Periods(n: int): (ps: seq<int>)
    ensures |ps| == if n > 0 then n else 0
    ensures forall k :: 0 <= k < |ps| ==> ps[k] == k + 1
  {
    if n <= 0 then [] else Periods(n - 1) + [n]
  }

  function DayRow(day: string, n: int): (row: seq<Slot>)
    ensures |row| == |Periods(n)|
    ensures forall k :: 0 <= k < |row| ==> row[k] == Slot(day, k + 1)
  {
    var ps := Periods(n);
    seq(|ps|, k requires 0 <= k < |ps| => Slot(day, ps[k]))
  }

  /** The scan order of the nested day/period loops, flattened. */
  function GridOf(days: seq<string>, n: int): (g: seq<Slot>)
    ensures |g| == |days| * |Periods(n)|
    ensures forall s :: s in g <==> s.day in days && 1 <= s.period <= n
  {
    if days == [] then []
    else
      var row := DayRow(days[0], n);
      var rest := GridOf(days[1..], n);
      assert forall s :: s in row <==> s.day == days[0] && 1 <= s.period <= n by {
        forall s: Slot | s.day == days[0] && 1 <= s.period <= n ensures s in row {
          assert row[s.period - 1] == s;
        }
      }
      assert |days| * |Periods(n)| == |Periods(n)| + (|days| - 1) * |Periods(n)|;
      assert forall d :: d in days <==> d == days[0] || d in days[1..];
      row + rest
  }

  /** Weekly hours a preferred subject needs: two per credit, or 3 for an id
      that is not a department subject. */
  function HoursNeeded(subjects: map<int, SubjectInfo>, id: int): int {
    if id in subjects then subjects[id].hoursPerWeek else UnknownSubjectHours
  }

  function SubjectName(subjects: map<int, SubjectInfo>, id: int): string {
    if id in subjects then subjects[id].name else ""
  }

  /** The weekly cap of a role: its rule's `max_hours`, or 8 with no rule. */
  function MaxHours(rules: map<string, Rule>, role: Option<string>): int {
    if role.Some? && role.value in rules then rules[role.value].maxHours else DefaultMaxHours
  }

  function Max(a: int, b: int): int {
    if a < b then b else a
  }

  /** The largest hour need among a preference list (0 for none). */
  function MaxNeed(subjects: map<int, SubjectInfo>, prefs: seq<int>): (m: int)
    ensures m >= 0
    ensures forall k :: 0 <= k < |prefs| ==> HoursNeeded(subjects, prefs[k]) <= m
  {
    if prefs == [] then 0 else Max(HoursNeeded(subjects, prefs[0]), MaxNeed(subjects, prefs[1..]))
  }

  // ---------------------------------------------------------------------------
  // Room choice

  /** `_is_classroom_available`: no entry so far books room `c` at slot `s`. */
  function IsClassroomAvailable(c: int, s: Slot, tt: seq<Entry>): bool {
    if tt == [] then true
    else !(tt[0].classroomId == c && tt[0].slot == s) && IsClassroomAvailable(c, s, tt[1..])
  }

  /** A room is available at `s` exactly when no entry books it there. */
  lemma {:induction false} AvailableIff(c: int, s: Slot, tt: seq<Entry>)
    ensures IsClassroomAvailable(c, s, tt) <==> forall i :: 0 <= i < |tt| ==> !(tt[i].classroomId == c && tt[i].slot == s)
  {
    if tt != [] {
      AvailableIff(c, s, tt[1..]);
      assert forall i :: 1 <= i < |tt| ==> tt[i] == tt[1..][i - 1];
    }
  }

  /** The first room, in iteration order, that is free at `s`. */
  function FirstAvailableRoom(rooms: seq<int>, s: Slot, tt: seq<Entry>): (r: Option<int>)
    ensures r.Some? ==> r.value in rooms
  {
    if rooms == [] then None
    else if IsClassroomAvailable(rooms[0], s, tt) then Some(rooms[0])
    else FirstAvailableRoom(rooms[1..], s, tt)
  }

  /** The choice is `None` exactly when no room is free, and otherwise the
      free room of least position in the iteration order. */
  lemma {:induction false} FirstAvailableRoomSpec(rooms: seq<int>, s: Slot, tt: seq<Entry>)
    ensures FirstAvailableRoom(rooms, s, tt).None? <==>
              forall k :: 0 <= k < |rooms| ==> !IsClassroomAvailable(rooms[k], s, tt)
    ensures FirstAvailableRoom(rooms, s, tt).Some? ==>
              exists k :: 0 <= k < |rooms| && rooms[k] == FirstAvailableRoom(rooms, s, tt).value
                          && IsClassroomAvailable(rooms[k], s, tt)
                          && forall j :: 0 <= j < k ==> !IsClassroomAvailable(rooms[j], s, tt)
  {
    if rooms != [] && !IsClassroomAvailable(rooms[0], s, tt) {
      var r := FirstAvailableRoom(rooms[1..], s, tt);
      FirstAvailableRoomSpec(rooms[1..], s, tt);
      assert forall k :: 1 <= k < |rooms| ==> rooms[k] == rooms[1..][k - 1];
      if r.Some? {
        var k :| 0 <= k < |rooms| - 1 && rooms[1..][k] == r.value
                  && IsClassroomAvailable(rooms[1..][k], s, tt)
                  && forall j :: 0 <= j < k ==> !IsClassroomAvailable(rooms[1..][j], s, tt);
        assert rooms[k + 1] == r.value;
      }
    } else if rooms != [] {
      assert rooms[0] == FirstAvailableRoom(rooms, s, tt).value;
    }
  }

  /** The (day, period) cells the entries occupy. */
  function SlotsOf(tt: seq<Entry>): (cells: set<Slot>)
    ensures forall i :: 0 <= i < |tt| ==> tt[i].slot in cells
  {
    if tt == [] then {} else SlotsOf(tt[..|tt| - 1]) + {tt[|tt| - 1].slot}
  }

  lemma {:induction false} SlotsOfIff(tt: seq<Entry>, s: Slot)
    ensures s in SlotsOf(tt) <==> exists i :: 0 <= i < |tt| && tt[i].slot == s
  {
    if tt != [] {
      SlotsOfIff(tt[..|tt| - 1], s);
      if s in SlotsOf(tt[..|tt| - 1]) {
        var i :| 0 <= i < |tt| - 1 && tt[..|tt| - 1][i].slot == s;
        assert tt[i].slot == s;
      }
    }
  }

  /** When no entry occupies slot `s`, every room is free there, so the room
      chosen is the first one in iteration order. */
  lemma RoomAtFreeSlot(rooms: seq<int>, s: Slot, tt: seq<Entry>)
    requires s !in SlotsOf(tt)
    ensures FirstAvailableRoom(rooms, s, tt) == if rooms == [] then None else Some(rooms[0])
  {
    if rooms != [] {
      AvailableIff(rooms[0], s, tt);
    }
  }

  // ---------------------------------------------------------------------------
  // Run state

  /** Fixed inputs of one run. */
  datatype Setup = Setup(grid: seq<Slot>, subjects: map<int, SubjectInfo>, rooms: OMap<int, ClassroomInfo>)

  /** The (subject, staff) pair being placed. */
  datatype Lesson = Lesson(subjectId: int, subjectName: string, staffId: int, staffName: string)

  /** The timetable built so far and the occupied (day, period) cells. */
  datatype Run = Run(timetable: seq<Entry>, occupied: set<Slot>)

  /** The occupancy table records exactly the cells the timetable uses. */
  predicate Synced(run: Run) {
    run.occupied == SlotsOf(run.timetable)
  }

  /** Rooms can be booked at all: there is a first room and its id is truthy. */
  predicate Usable(rooms: OMap<int, ClassroomInfo>) {
    |rooms.keys| > 0 && rooms.keys[0] != 0
  }

  predicate Of(lesson: Lesson, e: Entry) {
    e.subjectId == lesson.subjectId && e.subjectName == lesson.subjectName
    && e.staffId == lesson.staffId && e.staffName == lesson.staffName
  }

  /** Entry `e` sits in the first room, under that room's name. */
  predicate InFirstRoom(rooms: OMap<int, ClassroomInfo>, e: Entry) {
    Usable(rooms) && rooms.keys[0] in rooms.values
    && e.classroomId == rooms.keys[0] && e.classroomName == rooms.values[rooms.keys[0]].name
  }

  lemma SlotsOfAppend(tt: seq<Entry>, e: Entry)
    ensures SlotsOf(tt + [e]) == SlotsOf(tt) + {e.slot}
  {
    assert (tt + [e])[..|tt|] == tt;
  }

  // ---------------------------------------------------------------------------
  // The three nested loops

  /** The entry `_generate_base_timetable` appends for a lesson in room `c` at cell `s`. */
  function Booking(setup: Setup, lesson: Lesson, s: Slot, c: int): (e: Entry)
    requires c in setup.rooms.values
    ensures Of(lesson, e) && e.slot == s && e.classroomId == c
  {
    Entry(s, lesson.subjectId, lesson.staffId, c, lesson.subjectName, lesson.staffName, setup.rooms.values[c].name)
  }

  /** The run after booking room `c` at cell `s` for the lesson. */
  function Commit(setup: Setup, lesson: Lesson, s: Slot, c: int, run: Run): (run': Run)
    requires c in setup.rooms.values
    ensures |run'.timetable| == |run.timetable| + 1
  {
    Run(run.timetable + [Booking(setup, lesson, s, c)], run.occupied + {s})
  }

  /** Placing at a free cell: the first room is the one chosen, the occupancy
      stays in step, the timetable grows by exactly that booking, and the
      well-formedness of `Good` carries over. */
  lemma CommitFacts(setup: Setup, lesson: Lesson, s: Slot, run: Run)
    requires Valid(setup.rooms) && Synced(run) && s !in run.occupied && Usable(setup.rooms)
    ensures FirstAvailableRoom(setup.rooms.keys, s, run.timetable) == Some(setup.rooms.keys[0])
    ensures Synced(Commit(setup, lesson, s, setup.rooms.keys[0], run))
    ensures Extends(run, Commit(setup, lesson, s, setup.rooms.keys[0], run))
    ensures Commit(setup, lesson, s, setup.rooms.keys[0], run).timetable[|run.timetable|]
            == Booking(setup, lesson, s, setup.rooms.keys[0])
    ensures Good(setup, run) && s in setup.grid ==> Good(setup, Commit(setup, lesson, s, setup.rooms.keys[0], run))
  {
    var e := Booking(setup, lesson, s, setup.rooms.keys[0]);
    RoomAtFreeSlot(setup.rooms.keys, s, run.timetable);
    SlotsOfAppend(run.timetable, e);
    var run' := Commit(setup, lesson, s, setup.rooms.keys[0], run);
    assert run'.timetable[..|run.timetable|] == run.timetable;
    if Good(setup, run) && s in setup.grid {
      forall k | 0 <= k < |run'.timetable| ensures Placed(setup, run'.timetable[k]) {
        if k < |run.timetable| {
          assert run'.timetable[k] == run.timetable[k];
        }
      }
    }
  }

  /** Places one preferred subject: scans the grid from cell `i`, booking each
      free cell in the first available room until `placed` reaches `need`.
      Returns the new run and the hours placed. The day loop's and the period
      loop's `break` on `assigned_hours >= hours_needed` are one test here,
      since the grid is the two loops flattened. */
  function Fill(setup: Setup, lesson: Lesson, need: int, i: nat, run: Run, placed: int): (out: (Run, int))
    requires i <= |setup.grid| && Valid(setup.rooms)
    ensures out.1 >= placed && |out.0.timetable| >= |run.timetable|
    decreases |setup.grid| - i
  {
    if i == |setup.grid| || placed >= need then (run, placed)
    else if setup.grid[i] in run.occupied then Fill(setup, lesson, need, i + 1, run, placed)
    else
      var s := setup.grid[i];
      var room := FirstAvailableRoom(setup.rooms.keys, s, run.timetable);
      if room.Some? && room.value != 0 then
        Fill(setup, lesson, need, i + 1, Commit(setup, lesson, s, room.value, run), placed + 1)
      else Fill(setup, lesson, need, i + 1, run, placed)
  }

  /** Walks one staff member's preference list. A new subject is started only
      while `workload < cap`; workload then rises by one per entry and is not
      re-checked until the next subject. Unknown subjects need 3 hours and
      carry an empty name. */
  function SchedulePrefs(setup: Setup, staffId: int, staffName: string, cap: int, prefs: seq<int>,
                         run: Run, workload: int): (out: (Run, int))
    requires Valid(setup.rooms)
    ensures out.1 >= workload && |out.0.timetable| >= |run.timetable|
    decreases |prefs|
  {
    if prefs == [] || workload >= cap then (run, workload)
    else
      var filled := Fill(setup, Lesson(prefs[0], SubjectName(setup.subjects, prefs[0]), staffId, staffName),
                         HoursNeeded(setup.subjects, prefs[0]), 0, run, 0);
      SchedulePrefs(setup, staffId, staffName, cap, prefs[1..], filled.0, workload + filled.1)
  }

  /** The staff loop over the preference map's keys in insertion order; each
      staff member starts at workload 0 under their role's cap. */
  function ScheduleStaff(setup: Setup, rules: map<string, Rule>, staff: OMap<int, StaffInfo>,
                         ks: seq<int>, run: Run): (out: Run)
    requires forall k :: 0 <= k < |ks| ==> ks[k] in staff.values
    requires Valid(setup.rooms)
    ensures |out.timetable| >= |run.timetable|
    decreases |ks|
  {
    if ks == [] then run
    else
      var info := staff.values[ks[0]];
      var run1 := SchedulePrefs(setup, ks[0], info.name, MaxHours(rules, info.role), info.prefs, run, 0).0;
      ScheduleStaff(setup, rules, staff, ks[1..], run1)
  }

  function SetupOf(subjects: map<int, SubjectInfo>, rooms: OMap<int, ClassroomInfo>, config: Option<Config>): Setup {
    Setup(GridOf(WorkingDays(config), PeriodsPerDay(config)), subjects, rooms)
  }

  /** `_generate_base_timetable`: the timetable, from an empty grid. */
  function BaseTimetable(rules: map<string, Rule>, staff: OMap<int, StaffInfo>,
                         subjects: map<int, SubjectInfo>, rooms: OMap<int, ClassroomInfo>,
                         config: Option<Config>): (tt: seq<Entry>)
    requires Valid(staff) && Valid(rooms)
  {
    ScheduleStaff(SetupOf(subjects, rooms, config), rules, staff, staff.keys, Run([], {})).timetable
  }

  // ---------------------------------------------------------------------------
  // What one call of each loop does

  /** `out` continues `run`: the earlier entries are kept, in order. */
  ghost predicate Extends(run: Run, out: Run) {
    |run.timetable| <= |out.timetable| && out.timetable[..|run.timetable|] == run.timetable
  }

  /** The outcome of `Fill` from `run` with `placed` hours already placed:
      occupancy stays in step, entries are only appended, each new entry is
      the lesson, the count rises by the number of new entries and stops at
      the need, nothing happens without a usable room, and stopping short of
      the need means every grid cell is taken. */
  ghost predicate FillOk(setup: Setup, lesson: Lesson, need: int, run: Run, placed: int, out: (Run, int)) {
    && Synced(out.0)
    && Extends(run, out.0)
    && |out.0.timetable| - |run.timetable| == out.1 - placed
    && (forall k :: |run.timetable| <= k < |out.0.timetable| ==> Of(lesson, out.0.timetable[k]))
    && (out.1 == placed || placed < out.1 <= need)
    && (!Usable(setup.rooms) ==> out == (run, placed))
    && (out.1 < need && Usable(setup.rooms) ==>
          forall k :: 0 <= k < |setup.grid| ==> setup.grid[k] in out.0.occupied)
  }

  lemma ExtendsTrans(a: Run, b: Run, c: Run)
    requires Extends(a, b) && Extends(b, c)
    ensures Extends(a, c)
  {
    assert c.timetable[..|a.timetable|] == c.timetable[..|b.timetable|][..|a.timetable|];
  }

  /** One booking followed by a run that meets `FillOk` meets it from the start. */
  lemma CommitThenFill(setup: Setup, lesson: Lesson, need: int, run: Run, placed: int, run': Run, out: (Run, int))
    requires Usable(setup.rooms) && placed < need
    requires Extends(run, run') && |run'.timetable| == |run.timetable| + 1 && Of(lesson, run'.timetable[|run.timetable|])
    requires FillOk(setup, lesson, need, run', placed + 1, out)
    ensures FillOk(setup, lesson, need, run, placed, out)
  {
    ExtendsTrans(run, run', out.0);
    assert out.0.timetable[|run.timetable|] == run'.timetable[|run.timetable|] by {
      assert out.0.timetable[..|run'.timetable|] == run'.timetable;
      assert out.0.timetable[|run.timetable|] == out.0.timetable[..|run'.timetable|][|run.timetable|];
    }
  }

  lemma {:induction false} FillFacts(setup: Setup, lesson: Lesson, need: int, i: nat, run: Run, placed: int)
    requires i <= |setup.grid| && Valid(setup.rooms) && Synced(run)
    requires placed < need && Usable(setup.rooms) ==>
               forall j :: 0 <= j < i ==> setup.grid[j] in run.occupied
    ensures FillOk(setup, lesson, need, run, placed, Fill(setup, lesson, need, i, run, placed))
    decreases |setup.grid| - i, 1
  {
    if i == |setup.grid| || placed >= need {
      assert run.timetable[..|run.timetable|] == run.timetable;
    } else if setup.grid[i] in run.occupied {
      FillFacts(setup, lesson, need, i + 1, run, placed);
    } else {
      var s := setup.grid[i];
      if Usable(setup.rooms) {
        FillFactsAtFree(setup, lesson, need, i, run, placed);
      } else {
        RoomAtFreeSlot(setup.rooms.keys, s, run.timetable);
        FillFacts(setup, lesson, need, i + 1, run, placed);
      }
    }
  }

  /** The booking case of `FillFacts`: cell `i` is free and a room is usable. */
  lemma {:induction false} FillFactsAtFree(setup: Setup, lesson: Lesson, need: int, i: nat, run: Run, placed: int)
    requires i < |setup.grid| && Valid(setup.rooms) && Synced(run) && Usable(setup.rooms)
    requires placed < need && setup.grid[i] !in run.occupied
    requires forall j :: 0 <= j < i ==> setup.grid[j] in run.occupied
    ensures FillOk(setup, lesson, need, run, placed, Fill(setup, lesson, need, i, run, placed))
    decreases |setup.grid| - i, 0
  {
    var s := setup.grid[i];
    var run' := Commit(setup, lesson, s, setup.rooms.keys[0], run);
    CommitFacts(setup, lesson, s, run);
    FillFacts(setup, lesson, need, i + 1, run', placed + 1);
    CommitThenFill(setup, lesson, need, run, placed, run', Fill(setup, lesson, need, i + 1, run', placed + 1));
  }

  /** Number of entries of one staff member. */
  function Workload(tt: seq<Entry>, staffId: int): (w: nat)
    ensures w <= |tt|
  {
    if tt == [] then 0 else (if tt[0].staffId == staffId then 1 else 0) + Workload(tt[1..], staffId)
  }

  /** Number of entries of one (staff, subject) pair. */
  function Hours(tt: seq<Entry>, staffId: int, subjectId: int): (h: nat)
    ensures h <= Workload(tt, staffId)
  {
    if tt == [] then 0
    else (if tt[0].staffId == staffId && tt[0].subjectId == subjectId then 1 else 0) + Hours(tt[1..], staffId, subjectId)
  }

  lemma {:induction false} CountsAppend(a: seq<Entry>, b: seq<Entry>, staffId: int, subjectId: int)
    ensures Workload(a + b, staffId) == Workload(a, staffId) + Workload(b, staffId)
    ensures Hours(a + b, staffId, subjectId) == Hours(a, staffId, subjectId) + Hours(b, staffId, subjectId)
  {
    if a == [] {
      assert a + b == b;
    } else {
      assert (a + b)[0] == a[0];
      assert (a + b)[1..] == a[1..] + b;
      CountsAppend(a[1..], b, staffId, subjectId);
    }
  }

  lemma {:induction false} CountsOfOthers(tt: seq<Entry>, staffId: int, subjectId: int)
    requires forall k :: 0 <= k < |tt| ==> tt[k].staffId != staffId || tt[k].subjectId != subjectId
    ensures Hours(tt, staffId, subjectId) == 0
    ensures (forall k :: 0 <= k < |tt| ==> tt[k].staffId != staffId) ==> Workload(tt, staffId) == 0
  {
    if tt != [] {
      CountsOfOthers(tt[1..], staffId, subjectId);
    }
  }

  lemma {:induction false} CountsOfOwn(tt: seq<Entry>, staffId: int, subjectId: int)
    requires forall k :: 0 <= k < |tt| ==> tt[k].staffId == staffId
    ensures Workload(tt, staffId) == |tt|
    ensures (forall k :: 0 <= k < |tt| ==> tt[k].subjectId == subjectId) ==> Hours(tt, staffId, subjectId) == |tt|
  {
    if tt != [] {
      CountsOfOwn(tt[1..], staffId, subjectId);
    }
  }

  /** Entry `e` belongs to the given staff member and one of their preferred subjects. */
  predicate Taught(subjects: map<int, SubjectInfo>, staffId: int, staffName: string, prefs: seq<int>, e: Entry) {
    e.staffId == staffId && e.staffName == staffName && e.subjectId in prefs
    && e.subjectName == SubjectName(subjects, e.subjectId)
  }

  /** The outcome of `SchedulePrefs`: occupancy stays in step, entries are only
      appended, each new one is this staff member teaching a preferred
      subject, the workload counts them, a member already at the cap gets
      nothing, and otherwise the workload stays below the cap plus the
      largest subject need. */
  ghost predicate PrefsOk(setup: Setup, staffId: int, staffName: string, cap: int, prefs: seq<int>,
                          run: Run, workload: int, out: (Run, int)) {
    && Synced(out.0)
    && Extends(run, out.0)
    && |out.0.timetable| - |run.timetable| == out.1 - workload
    && (forall k :: |run.timetable| <= k < |out.0.timetable| ==>
          Taught(setup.subjects, staffId, staffName, prefs, out.0.timetable[k]))
    && (workload >= cap ==> out.1 == workload)
    && (out.1 == workload || out.1 < cap + MaxNeed(setup.subjects, prefs))
    && (!Usable(setup.rooms) ==> out.0 == run)
  }

  /** One subject's `Fill` followed by a walk of the rest of the list that
      meets `PrefsOk` meets it for the whole list. */
  lemma FillThenPrefs(setup: Setup, staffId: int, staffName: string, cap: int, prefs: seq<int>,
                      run: Run, workload: int, filled: (Run, int), out: (Run, int))
    requires prefs != [] && workload < cap
    requires FillOk(setup, Lesson(prefs[0], SubjectName(setup.subjects, prefs[0]), staffId, staffName),
                    HoursNeeded(setup.subjects, prefs[0]), run, 0, filled)
    requires PrefsOk(setup, staffId, staffName, cap, prefs[1..], filled.0, workload + filled.1, out)
    ensures PrefsOk(setup, staffId, staffName, cap, prefs, run, workload, out)
  {
    ExtendsTrans(run, filled.0, out.0);
    var tt := out.0.timetable;
    forall m | |run.timetable| <= m < |tt| ensures Taught(setup.subjects, staffId, staffName, prefs, tt[m]) {
      if m < |filled.0.timetable| {
        assert tt[m] == tt[..|filled.0.timetable|][m];
      } else {
        assert tt[m].subjectId in prefs[1..];
      }
    }
    assert MaxNeed(setup.subjects, prefs) >= HoursNeeded(setup.subjects, prefs[0]);
    assert MaxNeed(setup.subjects, prefs) >= MaxNeed(setup.subjects, prefs[1..]);
  }

  lemma {:induction false} PrefsFacts(setup: Setup, staffId: int, staffName: string, cap: int, prefs: seq<int>,
                                      run: Run, workload: int)
    requires Valid(setup.rooms) && Synced(run)
    ensures PrefsOk(setup, staffId, staffName, cap, prefs, run, workload,
                    SchedulePrefs(setup, staffId, staffName, cap, prefs, run, workload))
    decreases |prefs|
  {
    var out := SchedulePrefs(setup, staffId, staffName, cap, prefs, run, workload);
    if prefs == [] || workload >= cap {
      assert run.timetable[..|run.timetable|] == run.timetable;
    } else {
      var lesson := Lesson(prefs[0], SubjectName(setup.subjects, prefs[0]), staffId, staffName);
      var need := HoursNeeded(setup.subjects, prefs[0]);
      var filled := Fill(setup, lesson, need, 0, run, 0);
      FillFacts(setup, lesson, need, 0, run, 0);
      PrefsFacts(setup, staffId, staffName, cap, prefs[1..], filled.0, workload + filled.1);
      assert out == SchedulePrefs(setup, staffId, staffName, cap, prefs[1..], filled.0, workload + filled.1);
      FillThenPrefs(setup, staffId, staffName, cap, prefs, run, workload, filled, out);
    }
  }

  /** Cuts the entries added after `a` into those added up to `b` and the rest. */
  lemma Suffixes(tt: seq<Entry>, a: seq<Entry>, b: seq<Entry>)
    requires |a| <= |b| <= |tt| && tt[..|b|] == b && b[..|a|] == a
    ensures tt[|a|..] == b[|a|..] + tt[|b|..]
  {
    assert tt[|a|..|b|] == b[|a|..];
  }

  /** Counting over a block of one pair's entries followed by entries of other subjects. */
  lemma BlockThenOthers(block: seq<Entry>, rest: seq<Entry>, staffId: int, j: int, s: int)
    requires forall m :: 0 <= m < |block| ==> block[m].staffId == staffId && block[m].subjectId == j
    requires forall m :: 0 <= m < |rest| ==> rest[m].subjectId != j
    ensures Hours(block + rest, staffId, s) == if s == j then |block| else Hours(rest, staffId, s)
  {
    CountsAppend(block, rest, staffId, s);
    CountsOfOthers(rest, staffId, j);
    CountsOfOwn(block, staffId, j);
    if s != j {
      CountsOfOthers(block, staffId, s);
    }
  }

  /** One step of the per-subject bound: the entries added after `a` are a
      block of subject `j` (up to `b`), then entries of later subjects, which
      already meet the bound for subject `s`. */
  lemma HoursStep(subjects: map<int, SubjectInfo>, staffId: int, j: int, later: seq<int>,
                  a: seq<Entry>, b: seq<Entry>, tt: seq<Entry>, s: int)
    requires |a| <= |b| <= |tt| && tt[..|b|] == b && b[..|a|] == a
    requires forall m :: |a| <= m < |b| ==> b[m].staffId == staffId && b[m].subjectId == j
    requires |b| - |a| <= Max(0, HoursNeeded(subjects, j))
    requires j !in later && forall m :: |b| <= m < |tt| ==> tt[m].subjectId in later
    requires Hours(tt[|b|..], staffId, s) <= Max(0, HoursNeeded(subjects, s))
    ensures Hours(tt[|a|..], staffId, s) <= Max(0, HoursNeeded(subjects, s))
  {
    Suffixes(tt, a, b);
    var block, rest := b[|a|..], tt[|b|..];
    assert forall m :: 0 <= m < |rest| ==> rest[m] == tt[|b| + m];
    BlockThenOthers(block, rest, staffId, j, s);
  }

  lemma FillSynced(setup: Setup, lesson: Lesson, need: int, run: Run)
    requires Valid(setup.rooms) && Synced(run)
    ensures Synced(Fill(setup, lesson, need, 0, run, 0).0)
  {
    FillFacts(setup, lesson, need, 0, run, 0);
  }

  /** What `HoursStep` needs of the first subject's block. */
  lemma FillBlock(setup: Setup, lesson: Lesson, need: int, run: Run)
    requires Valid(setup.rooms) && Synced(run)
    ensures var out := Fill(setup, lesson, need, 0, run, 0).0;
            |run.timetable| <= |out.timetable| && out.timetable[..|run.timetable|] == run.timetable
            && |out.timetable| - |run.timetable| <= Max(0, need)
            && forall m :: |run.timetable| <= m < |out.timetable| ==>
                 out.timetable[m].staffId == lesson.staffId && out.timetable[m].subjectId == lesson.subjectId
  {
    FillFacts(setup, lesson, need, 0, run, 0);
  }

  /** What `HoursStep` needs of the walk over the later subjects. */
  lemma LaterSubjects(setup: Setup, staffId: int, staffName: string, cap: int, prefs: seq<int>,
                      run: Run, workload: int)
    requires Valid(setup.rooms) && Synced(run)
    ensures var out := SchedulePrefs(setup, staffId, staffName, cap, prefs, run, workload).0;
            |run.timetable| <= |out.timetable| && out.timetable[..|run.timetable|] == run.timetable
            && forall m :: |run.timetable| <= m < |out.timetable| ==> out.timetable[m].subjectId in prefs
  {
    PrefsFacts(setup, staffId, staffName, cap, prefs, run, workload);
  }

  /** The step of `PrefsHoursBound`: the first subject's block, then the
      rest of the list, which meets the bound by induction. */
  lemma PrefsHoursStep(setup: Setup, staffId: int, staffName: string, cap: int, prefs: seq<int>,
                       run: Run, workload: int, filled: (Run, int), s: int)
    requires Valid(setup.rooms) && Synced(run) && prefs != [] && prefs[0] !in prefs[1..]
    requires filled == Fill(setup, Lesson(prefs[0], SubjectName(setup.subjects, prefs[0]), staffId, staffName),
                            HoursNeeded(setup.subjects, prefs[0]), 0, run, 0)
    requires Hours(SchedulePrefs(setup, staffId, staffName, cap, prefs[1..], filled.0, workload + filled.1).0.timetable[|filled.0.timetable|..],
                   staffId, s) <= Max(0, HoursNeeded(setup.subjects, s))
    ensures Hours(SchedulePrefs(setup, staffId, staffName, cap, prefs[1..], filled.0, workload + filled.1).0.timetable[|run.timetable|..],
                  staffId, s) <= Max(0, HoursNeeded(setup.subjects, s))
  {
    var lesson := Lesson(prefs[0], SubjectName(setup.subjects, prefs[0]), staffId, staffName);
    FillBlock(setup, lesson, HoursNeeded(setup.subjects, prefs[0]), run);
    FillSynced(setup, lesson, HoursNeeded(setup.subjects, prefs[0]), run);
    LaterSubjects(setup, staffId, staffName, cap, prefs[1..], filled.0, workload + filled.1);
    var out := SchedulePrefs(setup, staffId, staffName, cap, prefs[1..], filled.0, workload + filled.1);
    HoursStep(setup.subjects, staffId, prefs[0], prefs[1..], run.timetable, filled.0.timetable, out.0.timetable, s);
  }

  /** With no subject listed twice, a staff member gets at most a subject's
      weekly need of that subject: `Fill` stops at the need, and a later
      subject never adds to an earlier one. */
  lemma {:induction false} PrefsHoursBound(setup: Setup, staffId: int, staffName: string, cap: int,
                                           prefs: seq<int>, run: Run, workload: int, s: int)
    requires Valid(setup.rooms) && Synced(run) && NoDup(prefs)
    ensures Hours(SchedulePrefs(setup, staffId, staffName, cap, prefs, run, workload).0.timetable[|run.timetable|..],
                  staffId, s) <= Max(0, HoursNeeded(setup.subjects, s))
    decreases |prefs|
  {
    var out := SchedulePrefs(setup, staffId, staffName, cap, prefs, run, workload);
    if prefs == [] || workload >= cap {
      assert out.0.timetable[|run.timetable|..] == [];
    } else {
      var j := prefs[0];
      var lesson := Lesson(j, SubjectName(setup.subjects, j), staffId, staffName);
      var filled := Fill(setup, lesson, HoursNeeded(setup.subjects, j), 0, run, 0);
      FillSynced(setup, lesson, HoursNeeded(setup.subjects, j), run);
      NoDupTail(prefs);
      PrefsHoursBound(setup, staffId, staffName, cap, prefs[1..], filled.0, workload + filled.1, s);
      PrefsHoursStep(setup, staffId, staffName, cap, prefs, run, workload, filled, s);
      assert out == SchedulePrefs(setup, staffId, staffName, cap, prefs[1..], filled.0, workload + filled.1);
    }
  }

  /** The weekly-hours outcome for one staff member: nothing when the cap is
      not positive, and otherwise below the cap plus one subject's need (a
      subject is started below the cap and then placed in full). */
  predicate WorkloadOk(subjects: map<int, SubjectInfo>, cap: int, prefs: seq<int>, w: int) {
    (cap <= 0 ==> w == 0) && (w == 0 || w < cap + MaxNeed(subjects, prefs))
  }

  /** Entry `e` belongs to one of the staff members `ks`, under that member's name. */
  predicate Staffed(subjects: map<int, SubjectInfo>, staff: OMap<int, StaffInfo>, ks: seq<int>, e: Entry) {
    e.staffId in ks && e.staffId in staff.values && e.staffName == staff.values[e.staffId].name
    && e.subjectName == SubjectName(subjects, e.subjectId)
  }

  /** The outcome of `ScheduleStaff`: occupancy in step, entries only appended,
      each new one staffed by a listed member, and nothing without a usable room. */
  ghost predicate StaffRunOk(setup: Setup, staff: OMap<int, StaffInfo>, ks: seq<int>, run: Run, out: Run) {
    && Synced(out)
    && Extends(run, out)
    && (forall k :: |run.timetable| <= k < |out.timetable| ==> Staffed(setup.subjects, staff, ks, out.timetable[k]))
    && (!Usable(setup.rooms) ==> out == run)
  }

  lemma {:induction false} StaffFacts(setup: Setup, rules: map<string, Rule>, staff: OMap<int, StaffInfo>,
                                      ks: seq<int>, run: Run)
    requires forall k :: 0 <= k < |ks| ==> ks[k] in staff.values
    requires Valid(setup.rooms) && Synced(run)
    ensures StaffRunOk(setup, staff, ks, run, ScheduleStaff(setup, rules, staff, ks, run))
    decreases |ks|
  {
    var out := ScheduleStaff(setup, rules, staff, ks, run);
    if ks == [] {
      assert run.timetable[..|run.timetable|] == run.timetable;
    } else {
      var info := staff.values[ks[0]];
      var cap := MaxHours(rules, info.role);
      var run1 := SchedulePrefs(setup, ks[0], info.name, cap, info.prefs, run, 0).0;
      PrefsFacts(setup, ks[0], info.name, cap, info.prefs, run, 0);
      StaffFacts(setup, rules, staff, ks[1..], run1);
      assert out == ScheduleStaff(setup, rules, staff, ks[1..], run1);
      ExtendsTrans(run, run1, out);
      var tt := out.timetable;
      forall m | |run.timetable| <= m < |tt| ensures Staffed(setup.subjects, staff, ks, tt[m]) {
        if m < |run1.timetable| {
          assert tt[m] == tt[..|run1.timetable|][m];
          assert Taught(setup.subjects, ks[0], info.name, info.prefs, tt[m]);
        } else {
          assert tt[m].staffId in ks[1..];
        }
      }
    }
  }

  /** Per staff member: the workload bound of `WorkloadOk`, and with a
      duplicate-free preference list the per-subject bound. */
  ghost predicate StaffOk(setup: Setup, rules: map<string, Rule>, info: StaffInfo, tt: seq<Entry>, id: int) {
    WorkloadOk(setup.subjects, MaxHours(rules, info.role), info.prefs, Workload(tt, id))
    && (NoDup(info.prefs) ==> forall j :: Hours(tt, id, j) <= Max(0, HoursNeeded(setup.subjects, j)))
  }

  /** Counting one staff member's entries over their own block followed by other staff's entries. */
  lemma OwnThenOthers(block: seq<Entry>, rest: seq<Entry>, t: int)
    requires forall m :: 0 <= m < |block| ==> block[m].staffId == t
    requires forall m :: 0 <= m < |rest| ==> rest[m].staffId != t
    ensures Workload(block + rest, t) == |block|
    ensures forall j :: Hours(block + rest, t, j) == Hours(block, t, j)
  {
    CountsOfOwn(block, t, 0);
    CountsAppend(block, rest, t, 0);
    CountsOfOthers(rest, t, 0);
    forall j ensures Hours(block + rest, t, j) == Hours(block, t, j) {
      CountsAppend(block, rest, t, j);
      CountsOfOthers(rest, t, j);
    }
  }

  /** Counting one staff member's entries past a block of other staff's entries. */
  lemma OthersThenOwn(block: seq<Entry>, rest: seq<Entry>, t: int)
    requires forall m :: 0 <= m < |block| ==> block[m].staffId != t
    ensures Workload(block + rest, t) == Workload(rest, t)
    ensures forall j :: Hours(block + rest, t, j) == Hours(rest, t, j)
  {
    CountsAppend(block, rest, t, 0);
    CountsOfOthers(block, t, 0);
    forall j ensures Hours(block + rest, t, j) == Hours(rest, t, j) {
      CountsAppend(block, rest, t, j);
      CountsOfOthers(block, t, j);
    }
  }

  /** Assembles the per-member bounds: the first member's own block, then the
      later members' entries, which the first member does not appear in. */
  lemma BoundsJoin(setup: Setup, rules: map<string, Rule>, staff: OMap<int, StaffInfo>, ks: seq<int>,
                   block: seq<Entry>, rest: seq<Entry>)
    requires ks != [] && NoDup(ks)
    requires forall k :: 0 <= k < |ks| ==> ks[k] in staff.values
    requires forall m :: 0 <= m < |block| ==> block[m].staffId == ks[0]
    requires forall m :: 0 <= m < |rest| ==> rest[m].staffId in ks[1..]
    requires WorkloadOk(setup.subjects, MaxHours(rules, staff.values[ks[0]].role), staff.values[ks[0]].prefs, |block|)
    requires NoDup(staff.values[ks[0]].prefs) ==> forall j :: Hours(block, ks[0], j) <= Max(0, HoursNeeded(setup.subjects, j))
    requires forall k :: 0 <= k < |ks| - 1 ==> StaffOk(setup, rules, staff.values[ks[1..][k]], rest, ks[1..][k])
    ensures forall k :: 0 <= k < |ks| ==> StaffOk(setup, rules, staff.values[ks[k]], block + rest, ks[k])
  {
    forall k | 0 <= k < |ks| ensures StaffOk(setup, rules, staff.values[ks[k]], block + rest, ks[k]) {
      if k == 0 {
        assert forall m :: 0 <= m < |rest| ==> rest[m].staffId != ks[0];
        OwnThenOthers(block, rest, ks[0]);
      } else {
        assert ks[k] == ks[1..][k - 1];
        OthersThenOwn(block, rest, ks[k]);
      }
    }
  }

  /** The bounds of one member's own block of entries. */
  lemma OwnBlockBounds(setup: Setup, staffId: int, info: StaffInfo, cap: int, run: Run)
    requires Valid(setup.rooms) && Synced(run)
    ensures PrefsOk(setup, staffId, info.name, cap, info.prefs, run, 0,
                    SchedulePrefs(setup, staffId, info.name, cap, info.prefs, run, 0))
    ensures WorkloadOk(setup.subjects, cap, info.prefs,
                       |SchedulePrefs(setup, staffId, info.name, cap, info.prefs, run, 0).0.timetable| - |run.timetable|)
    ensures NoDup(info.prefs) ==> forall j ::
              Hours(SchedulePrefs(setup, staffId, info.name, cap, info.prefs, run, 0).0.timetable[|run.timetable|..], staffId, j)
              <= Max(0, HoursNeeded(setup.subjects, j))
  {
    PrefsFacts(setup, staffId, info.name, cap, info.prefs, run, 0);
    if NoDup(info.prefs) {
      forall j ensures Hours(SchedulePrefs(setup, staffId, info.name, cap, info.prefs, run, 0).0.timetable[|run.timetable|..], staffId, j)
                       <= Max(0, HoursNeeded(setup.subjects, j)) {
        PrefsHoursBound(setup, staffId, info.name, cap, info.prefs, run, 0, j);
      }
    }
  }

  /** Reindexes "staff `t` from position `from` on" onto the suffix `tt[from..]`. */
  lemma SuffixOwner(tt: seq<Entry>, from: int, t: int)
    requires 0 <= from <= |tt|
    requires forall m :: from <= m < |tt| ==> tt[m].staffId == t
    ensures forall m :: 0 <= m < |tt| - from ==> tt[from..][m].staffId == t
  {
    forall m | 0 <= m < |tt| - from ensures tt[from..][m].staffId == t {
      assert tt[from..][m] == tt[from + m];
    }
  }

  /** Reindexes a staff-id fact from positions `from..` of `tt` onto the suffix `tt[from..]`. */
  lemma SuffixStaff(tt: seq<Entry>, from: int, ids: seq<int>)
    requires 0 <= from <= |tt|
    requires forall m :: from <= m < |tt| ==> tt[m].staffId in ids
    ensures forall m :: 0 <= m < |tt| - from ==> tt[from..][m].staffId in ids
  {
    forall m | 0 <= m < |tt| - from ensures tt[from..][m].staffId in ids {
      assert tt[from..][m] == tt[from + m];
    }
  }

  /** `BoundsJoin` stated over the three stages of the run: before the first
      member, after their block, and at the end. */
  lemma BoundsAt(setup: Setup, rules: map<string, Rule>, staff: OMap<int, StaffInfo>, ks: seq<int>,
                 run: Run, run1: Run, out: Run)
    requires ks != [] && NoDup(ks)
    requires forall k :: 0 <= k < |ks| ==> ks[k] in staff.values
    requires Extends(run, run1) && Extends(run1, out)
    requires forall m :: |run.timetable| <= m < |run1.timetable| ==> run1.timetable[m].staffId == ks[0]
    requires forall m :: |run1.timetable| <= m < |out.timetable| ==> out.timetable[m].staffId in ks[1..]
    requires WorkloadOk(setup.subjects, MaxHours(rules, staff.values[ks[0]].role), staff.values[ks[0]].prefs,
                        |run1.timetable| - |run.timetable|)
    requires NoDup(staff.values[ks[0]].prefs) ==> forall j ::
               Hours(run1.timetable[|run.timetable|..], ks[0], j) <= Max(0, HoursNeeded(setup.subjects, j))
    requires forall k :: 0 <= k < |ks| - 1 ==>
               StaffOk(setup, rules, staff.values[ks[1..][k]], out.timetable[|run1.timetable|..], ks[1..][k])
    ensures forall k :: 0 <= k < |ks| ==>
              StaffOk(setup, rules, staff.values[ks[k]], out.timetable[|run.timetable|..], ks[k])
  {
    Suffixes(out.timetable, run.timetable, run1.timetable);
    SuffixOwner(run1.timetable, |run.timetable|, ks[0]);
    SuffixStaff(out.timetable, |run1.timetable|, ks[1..]);
    BoundsJoin(setup, rules, staff, ks, run1.timetable[|run.timetable|..], out.timetable[|run1.timetable|..]);
  }

  lemma {:induction false} StaffBounds(setup: Setup, rules: map<string, Rule>, staff: OMap<int, StaffInfo>,
                                       ks: seq<int>, run: Run)
    requires forall k :: 0 <= k < |ks| ==> ks[k] in staff.values
    requires Valid(setup.rooms) && Synced(run) && NoDup(ks)
    ensures forall k :: 0 <= k < |ks| ==>
              StaffOk(setup, rules, staff.values[ks[k]], ScheduleStaff(setup, rules, staff, ks, run).timetable[|run.timetable|..], ks[k])
    decreases |ks|
  {
    if ks != [] {
      var info := staff.values[ks[0]];
      var cap := MaxHours(rules, info.role);
      var run1 := SchedulePrefs(setup, ks[0], info.name, cap, info.prefs, run, 0).0;
      OwnBlockBounds(setup, ks[0], info, cap, run);
      StaffFacts(setup, rules, staff, ks[1..], run1);
      StaffBounds(setup, rules, staff, ks[1..], run1);
      var out := ScheduleStaff(setup, rules, staff, ks[1..], run1);
      assert ScheduleStaff(setup, rules, staff, ks, run) == out;
      BoundsAt(setup, rules, staff, ks, run, run1, out);
    }
  }

  // ---------------------------------------------------------------------------
  // No double booking

  predicate DistinctSlots(tt: seq<Entry>) {
    forall i, j :: 0 <= i < j < |tt| ==> tt[i].slot != tt[j].slot
  }

  /** Entry `e` lies on the grid and sits in the first room. */
  predicate Placed(setup: Setup, e: Entry) {
    e.slot in setup.grid && InFirstRoom(setup.rooms, e)
  }

  /** Every entry is `Placed`, and the occupancy table has one cell per
      entry, which (with `Synced`) means no two entries share a cell. */
  ghost predicate Good(setup: Setup, run: Run) {
    Valid(setup.rooms) && |run.occupied| == |run.timetable|
    && forall k :: 0 <= k < |run.timetable| ==> Placed(setup, run.timetable[k])
  }

  /** There are at most as many occupied cells as entries, and as many exactly
      when no two entries share a cell. */
  lemma {:induction false} SlotsCount(tt: seq<Entry>)
    ensures |SlotsOf(tt)| <= |tt|
    ensures |SlotsOf(tt)| == |tt| ==> DistinctSlots(tt)
    decreases |tt|
  {
    if tt != [] {
      var init := tt[..|tt| - 1];
      var x := tt[|tt| - 1].slot;
      SlotsCount(init);
      if |SlotsOf(tt)| == |tt| {
        assert x !in SlotsOf(init);
        forall a, b | 0 <= a < b < |tt| ensures tt[a].slot != tt[b].slot {
          assert tt[a] == init[a];
          if b == |tt| - 1 {
            assert init[a].slot in SlotsOf(init);
          } else {
            assert tt[b] == init[b];
          }
        }
      }
    }
  }

  /** A `Good`, in-step run has no two entries in one cell, and every entry
      is on the grid and in the first room. */
  lemma GoodMeans(setup: Setup, run: Run)
    requires Synced(run) && Good(setup, run)
    ensures DistinctSlots(run.timetable)
    ensures forall i :: 0 <= i < |run.timetable| ==>
              run.timetable[i].slot in setup.grid && InFirstRoom(setup.rooms, run.timetable[i])
  {
    SlotsCount(run.timetable);
  }

  lemma {:induction false} FillKeepsGood(setup: Setup, lesson: Lesson, need: int, i: nat, run: Run, placed: int)
    requires i <= |setup.grid| && Valid(setup.rooms) && Synced(run) && Good(setup, run)
    ensures Good(setup, Fill(setup, lesson, need, i, run, placed).0)
    decreases |setup.grid| - i, 1
  {
    if i == |setup.grid| || placed >= need {
    } else if setup.grid[i] in run.occupied {
      FillKeepsGood(setup, lesson, need, i + 1, run, placed);
    } else {
      var s := setup.grid[i];
      if Usable(setup.rooms) {
        FillKeepsGoodAtFree(setup, lesson, need, i, run, placed);
      } else {
        RoomAtFreeSlot(setup.rooms.keys, s, run.timetable);
        FillKeepsGood(setup, lesson, need, i + 1, run, placed);
      }
    }
  }

  /** The booking case of `FillKeepsGood`. */
  lemma {:induction false} FillKeepsGoodAtFree(setup: Setup, lesson: Lesson, need: int, i: nat, run: Run, placed: int)
    requires i < |setup.grid| && Valid(setup.rooms) && Synced(run) && Good(setup, run) && Usable(setup.rooms)
    requires placed < need && setup.grid[i] !in run.occupied
    ensures Good(setup, Fill(setup, lesson, need, i, run, placed).0)
    decreases |setup.grid| - i, 0
  {
    var s := setup.grid[i];
    var run' := Commit(setup, lesson, s, setup.rooms.keys[0], run);
    CommitFacts(setup, lesson, s, run);
    FillKeepsGood(setup, lesson, need, i + 1, run', placed + 1);
  }

  lemma {:induction false} PrefsKeepGood(setup: Setup, staffId: int, staffName: string, cap: int, prefs: seq<int>,
                                         run: Run, workload: int)
    requires Valid(setup.rooms) && Synced(run) && Good(setup, run)
    ensures Good(setup, SchedulePrefs(setup, staffId, staffName, cap, prefs, run, workload).0)
    decreases |prefs|
  {
    if prefs != [] && workload < cap {
      var lesson := Lesson(prefs[0], SubjectName(setup.subjects, prefs[0]), staffId, staffName);
      var need := HoursNeeded(setup.subjects, prefs[0]);
      var filled := Fill(setup, lesson, need, 0, run, 0);
      FillFacts(setup, lesson, need, 0, run, 0);
      FillKeepsGood(setup, lesson, need, 0, run, 0);
      PrefsKeepGood(setup, staffId, staffName, cap, prefs[1..], filled.0, workload + filled.1);
    }
  }

  lemma {:induction false} StaffKeepGood(setup: Setup, rules: map<string, Rule>, staff: OMap<int, StaffInfo>,
                                         ks: seq<int>, run: Run)
    requires forall k :: 0 <= k < |ks| ==> ks[k] in staff.values
    requires Valid(setup.rooms) && Synced(run) && Good(setup, run)
    ensures Good(setup, ScheduleStaff(setup, rules, staff, ks, run))
    decreases |ks|
  {
    if ks != [] {
      var info := staff.values[ks[0]];
      var cap := MaxHours(rules, info.role);
      PrefsFacts(setup, ks[0], info.name, cap, info.prefs, run, 0);
      PrefsKeepGood(setup, ks[0], info.name, cap, info.prefs, run, 0);
      StaffKeepGood(setup, rules, staff, ks[1..], SchedulePrefs(setup, ks[0], info.name, cap, info.prefs, run, 0).0);
    }
  }

  // ---------------------------------------------------------------------------
  // Earliest free cell

  /** Entry `m` sits in the earliest grid cell that the entries before it
      leave free: its cell is on the grid and free, and no free cell comes
      before it in the grid. */
  ghost predicate TookEarliest(grid: seq<Slot>, tt: seq<Entry>, m: int) {
    && 0 <= m < |tt|
    && tt[m].slot in grid
    && tt[m].slot !in SlotsOf(tt[..m])
    && forall j :: 0 <= j < |grid| && grid[j] !in SlotsOf(tt[..m]) ==> tt[m].slot in grid[..j + 1]
  }

  /** Every entry from position `from` on took the earliest free cell. */
  ghost predicate EarliestFrom(grid: seq<Slot>, tt: seq<Entry>, from: int) {
    forall m :: from <= m < |tt| ==> TookEarliest(grid, tt, m)
  }

  /** Whether entry `m` took the earliest cell depends only on the entries up to it. */
  lemma EarliestKept(grid: seq<Slot>, tt: seq<Entry>, tt': seq<Entry>, m: int)
    requires 0 <= m < |tt| <= |tt'| && tt'[..|tt|] == tt
    ensures TookEarliest(grid, tt', m) <==> TookEarliest(grid, tt, m)
  {
    assert tt'[..m] == tt[..m];
    assert tt'[m] == tt[m];
  }

  lemma {:induction false} FillEarliest(setup: Setup, lesson: Lesson, need: int, i: nat, run: Run, placed: int)
    requires i <= |setup.grid| && Valid(setup.rooms) && Synced(run)
    requires placed < need && Usable(setup.rooms) ==>
               forall j :: 0 <= j < i ==> setup.grid[j] in run.occupied
    ensures EarliestFrom(setup.grid, Fill(setup, lesson, need, i, run, placed).0.timetable, |run.timetable|)
    decreases |setup.grid| - i, 1
  {
    if i == |setup.grid| || placed >= need {
    } else if setup.grid[i] in run.occupied {
      FillEarliest(setup, lesson, need, i + 1, run, placed);
    } else if Usable(setup.rooms) {
      FillEarliestAtFree(setup, lesson, need, i, run, placed);
    } else {
      RoomAtFreeSlot(setup.rooms.keys, setup.grid[i], run.timetable);
      FillEarliest(setup, lesson, need, i + 1, run, placed);
    }
  }

  /** Booking the free cell `i` when every cell before it is taken takes
      the earliest free cell. */
  lemma CommitEarliest(setup: Setup, lesson: Lesson, i: nat, run: Run)
    requires i < |setup.grid| && Valid(setup.rooms) && Synced(run) && Usable(setup.rooms)
    requires setup.grid[i] !in run.occupied
    requires forall j :: 0 <= j < i ==> setup.grid[j] in run.occupied
    ensures TookEarliest(setup.grid, Commit(setup, lesson, setup.grid[i], setup.rooms.keys[0], run).timetable,
                         |run.timetable|)
  {
    var grid := setup.grid;
    var tt := Commit(setup, lesson, grid[i], setup.rooms.keys[0], run).timetable;
    var m := |run.timetable|;
    assert tt[..m] == run.timetable;
    forall j | 0 <= j < |grid| && grid[j] !in SlotsOf(tt[..m]) ensures grid[i] in grid[..j + 1] {
      assert grid[..j + 1][i] == grid[i];
    }
  }

  lemma FillExtends(setup: Setup, lesson: Lesson, need: int, i: nat, run: Run, placed: int)
    requires i <= |setup.grid| && Valid(setup.rooms) && Synced(run)
    requires placed < need && Usable(setup.rooms) ==>
               forall j :: 0 <= j < i ==> setup.grid[j] in run.occupied
    ensures Extends(run, Fill(setup, lesson, need, i, run, placed).0)
  {
    FillFacts(setup, lesson, need, i, run, placed);
  }

  /** At a free cell with a usable room, `Fill` books that cell in the first
      room and carries on from the next cell. */
  lemma FillAtFree(setup: Setup, lesson: Lesson, need: int, i: nat, run: Run, placed: int)
    requires i < |setup.grid| && Valid(setup.rooms) && Synced(run) && Usable(setup.rooms)
    requires placed < need && setup.grid[i] !in run.occupied
    ensures Fill(setup, lesson, need, i, run, placed)
            == Fill(setup, lesson, need, i + 1, Commit(setup, lesson, setup.grid[i], setup.rooms.keys[0], run), placed + 1)
  {
    RoomAtFreeSlot(setup.rooms.keys, setup.grid[i], run.timetable);
  }

  lemma CommitSynced(setup: Setup, lesson: Lesson, s: Slot, run: Run)
    requires Valid(setup.rooms) && Usable(setup.rooms) && Synced(run)
    ensures Synced(Commit(setup, lesson, s, setup.rooms.keys[0], run))
  {
    SlotsOfAppend(run.timetable, Booking(setup, lesson, s, setup.rooms.keys[0]));
  }

  /** An entry that took the earliest cell, followed by entries that did too. */
  lemma EarliestStep(grid: seq<Slot>, t1: seq<Entry>, t2: seq<Entry>, m: nat)
    requires |t1| == m + 1 <= |t2| && t2[..|t1|] == t1
    requires TookEarliest(grid, t1, m) && EarliestFrom(grid, t2, m + 1)
    ensures EarliestFrom(grid, t2, m)
  {
    EarliestKept(grid, t1, t2, m);
  }

  /** The booking case of `FillEarliest`. */
  lemma {:induction false} FillEarliestAtFree(setup: Setup, lesson: Lesson, need: int, i: nat, run: Run, placed: int)
    requires i < |setup.grid| && Valid(setup.rooms) && Synced(run) && Usable(setup.rooms)
    requires placed < need && setup.grid[i] !in run.occupied
    requires forall j :: 0 <= j < i ==> setup.grid[j] in run.occupied
    ensures EarliestFrom(setup.grid, Fill(setup, lesson, need, i, run, placed).0.timetable, |run.timetable|)
    decreases |setup.grid| - i, 0
  {
    var run' := Commit(setup, lesson, setup.grid[i], setup.rooms.keys[0], run);
    CommitSynced(setup, lesson, setup.grid[i], run);
    FillAtFree(setup, lesson, need, i, run, placed);
    var out := Fill(setup, lesson, need, i + 1, run', placed + 1).0;
    FillExtends(setup, lesson, need, i + 1, run', placed + 1);
    FillEarliest(setup, lesson, need, i + 1, run', placed + 1);
    CommitEarliest(setup, lesson, i, run);
    EarliestStep(setup.grid, run'.timetable, out.timetable, |run.timetable|);
  }

  lemma {:induction false} PrefsEarliest(setup: Setup, staffId: int, staffName: string, cap: int, prefs: seq<int>,
                                         run: Run, workload: int)
    requires Valid(setup.rooms) && Synced(run)
    ensures EarliestFrom(setup.grid, SchedulePrefs(setup, staffId, staffName, cap, prefs, run, workload).0.timetable,
                         |run.timetable|)
    decreases |prefs|
  {
    if prefs != [] && workload < cap {
      var lesson := Lesson(prefs[0], SubjectName(setup.subjects, prefs[0]), staffId, staffName);
      var need := HoursNeeded(setup.subjects, prefs[0]);
      var filled := Fill(setup, lesson, need, 0, run, 0);
      FillSynced(setup, lesson, need, run);
      FillEarliest(setup, lesson, need, 0, run, 0);
      var out := SchedulePrefs(setup, staffId, staffName, cap, prefs[1..], filled.0, workload + filled.1).0;
      LaterSubjects(setup, staffId, staffName, cap, prefs[1..], filled.0, workload + filled.1);
      PrefsEarliest(setup, staffId, staffName, cap, prefs[1..], filled.0, workload + filled.1);
      forall m | |run.timetable| <= m < |filled.0.timetable| ensures TookEarliest(setup.grid, out.timetable, m) {
        EarliestKept(setup.grid, filled.0.timetable, out.timetable, m);
      }
    }
  }

  lemma {:induction false} StaffEarliest(setup: Setup, rules: map<string, Rule>, staff: OMap<int, StaffInfo>,
                                         ks: seq<int>, run: Run)
    requires forall k :: 0 <= k < |ks| ==> ks[k] in staff.values
    requires Valid(setup.rooms) && Synced(run)
    ensures EarliestFrom(setup.grid, ScheduleStaff(setup, rules, staff, ks, run).timetable, |run.timetable|)
    decreases |ks|
  {
    if ks != [] {
      var info := staff.values[ks[0]];
      var cap := MaxHours(rules, info.role);
      var run1 := SchedulePrefs(setup, ks[0], info.name, cap, info.prefs, run, 0).0;
      PrefsFacts(setup, ks[0], info.name, cap, info.prefs, run, 0);
      PrefsEarliest(setup, ks[0], info.name, cap, info.prefs, run, 0);
      var out := ScheduleStaff(setup, rules, staff, ks[1..], run1);
      StaffFacts(setup, rules, staff, ks[1..], run1);
      StaffEarliest(setup, rules, staff, ks[1..], run1);
      forall m | |run.timetable| <= m < |run1.timetable| ensures TookEarliest(setup.grid, out.timetable, m) {
        EarliestKept(setup.grid, run1.timetable, out.timetable, m);
      }
    }
  }

  // ---------------------------------------------------------------------------
  // The generator pass as a whole

  /** Every entry names a staff member who submitted preferences, under that
      member's name, and the subject's name (empty for an unknown subject);
      with no usable room the timetable is empty. */
  lemma EntriesNamed(rules: map<string, Rule>, staff: OMap<int, StaffInfo>,
                     subjects: map<int, SubjectInfo>, rooms: OMap<int, ClassroomInfo>, config: Option<Config>)
    requires Valid(staff) && Valid(rooms)
    ensures forall k :: 0 <= k < |BaseTimetable(rules, staff, subjects, rooms, config)| ==>
              Staffed(subjects, staff, staff.keys, BaseTimetable(rules, staff, subjects, rooms, config)[k])
    ensures !Usable(rooms) ==> BaseTimetable(rules, staff, subjects, rooms, config) == []
  {
    assert SlotsOf([]) == {};
    StaffFacts(SetupOf(subjects, rooms, config), rules, staff, staff.keys, Run([], {}));
  }

  /** No two entries share a (day, period) cell, every entry lies within the
      configured week, and every entry is in the first registered room. */
  lemma NoDoubleBooking(rules: map<string, Rule>, staff: OMap<int, StaffInfo>,
                        subjects: map<int, SubjectInfo>, rooms: OMap<int, ClassroomInfo>, config: Option<Config>)
    requires Valid(staff) && Valid(rooms)
    ensures DistinctSlots(BaseTimetable(rules, staff, subjects, rooms, config))
    ensures forall k :: 0 <= k < |BaseTimetable(rules, staff, subjects, rooms, config)| ==>
              var e := BaseTimetable(rules, staff, subjects, rooms, config)[k];
              e.slot.day in WorkingDays(config) && 1 <= e.slot.period <= PeriodsPerDay(config)
              && InFirstRoom(rooms, e)
  {
    var setup := SetupOf(subjects, rooms, config);
    assert SlotsOf([]) == {};
    StaffKeepGood(setup, rules, staff, staff.keys, Run([], {}));
    StaffFacts(setup, rules, staff, staff.keys, Run([], {}));
    GoodMeans(setup, ScheduleStaff(setup, rules, staff, staff.keys, Run([], {})));
  }

  /** Every entry sits in the earliest (day, period) cell, in working-day
      then period order, that the entries before it leave free: each
      subject's scan restarts at the first cell and books free cells in order. */
  lemma EarliestCells(rules: map<string, Rule>, staff: OMap<int, StaffInfo>,
                      subjects: map<int, SubjectInfo>, rooms: OMap<int, ClassroomInfo>, config: Option<Config>)
    requires Valid(staff) && Valid(rooms)
    ensures var tt := BaseTimetable(rules, staff, subjects, rooms, config);
            forall m :: 0 <= m < |tt| ==> TookEarliest(GridOf(WorkingDays(config), PeriodsPerDay(config)), tt, m)
  {
    assert SlotsOf([]) == {};
    StaffEarliest(SetupOf(subjects, rooms, config), rules, staff, staff.keys, Run([], {}));
  }

  /** A set of cells drawn from a sequence has at most that many members. */
  lemma {:induction false} CellsWithin(cells: set<Slot>, g: seq<Slot>)
    requires forall c :: c in cells ==> c in g
    ensures |cells| <= |g|
    decreases |g|
  {
    if g != [] {
      var last := g[|g| - 1];
      var init := g[..|g| - 1];
      forall c | c in cells - {last} ensures c in init {
        var k :| 0 <= k < |g| && g[k] == c;
        assert init[k] == c;
      }
      CellsWithin(cells - {last}, init);
    } else {
      if c :| c in cells {
        assert false;
      }
    }
  }

  /** The timetable has at most one entry per cell of the configured week. */
  lemma EntryCountBound(rules: map<string, Rule>, staff: OMap<int, StaffInfo>,
                        subjects: map<int, SubjectInfo>, rooms: OMap<int, ClassroomInfo>, config: Option<Config>)
    requires Valid(staff) && Valid(rooms)
    ensures |BaseTimetable(rules, staff, subjects, rooms, config)| <=
            |WorkingDays(config)| * |Periods(PeriodsPerDay(config))|
  {
    var setup := SetupOf(subjects, rooms, config);
    assert SlotsOf([]) == {};
    StaffKeepGood(setup, rules, staff, staff.keys, Run([], {}));
    StaffFacts(setup, rules, staff, staff.keys, Run([], {}));
    var out := ScheduleStaff(setup, rules, staff, staff.keys, Run([], {}));
    forall c | c in out.occupied ensures c in setup.grid {
      SlotsOfIff(out.timetable, c);
    }
    CellsWithin(out.occupied, setup.grid);
  }

  /** Every staff member's workload stays within `WorkloadOk`, and with no
      duplicated preference no subject gets more than its weekly need. */
  lemma StaffLimits(rules: map<string, Rule>, staff: OMap<int, StaffInfo>,
                    subjects: map<int, SubjectInfo>, rooms: OMap<int, ClassroomInfo>, config: Option<Config>,
                    id: int)
    requires Valid(staff) && Valid(rooms) && id in staff.values
    ensures StaffOk(SetupOf(subjects, rooms, config), rules, staff.values[id],
                    BaseTimetable(rules, staff, subjects, rooms, config), id)
  {
    var setup := SetupOf(subjects, rooms, config);
    assert SlotsOf([]) == {};
    StaffBounds(setup, rules, staff, staff.keys, Run([], {}));
    var tt := ScheduleStaff(setup, rules, staff, staff.keys, Run([], {})).timetable;
    assert tt[0..] == tt;
    var k :| 0 <= k < |staff.keys| && staff.keys[k] == id;
  }
}
