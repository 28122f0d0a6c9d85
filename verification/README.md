# SRM timetable core, modelled in Dafny

This project models the decision logic of the SRM timetable application. The
application is a Flask backend with React dashboards. Each piece of logic is
written as pure functions over immutable records, and each comes with proofs of
what it does.

- **Timetable generator** (`AITimetableGenerator`). Despite its name, this is a
  deterministic greedy allocator:
  - Four preprocessing passes build Python dictionaries of constraint rules,
    staff preferences, subjects and classrooms. The model keeps their
    insertion order with an ordered map (`OrderedMap`).
  - The allocator walks staff, then each member's preferences, then the working
    days and periods. It books each free (day, period) cell in the first
    classroom not booked at that cell.
  - Four projections build the student, staff, classroom and lab views.
  - Modules: `Preprocess`, `Scheduler`, `Views`, `Generator`.
- **Subject selection** (`Selection`). This is the one-shot lock with a cap per
  staff role. It includes the comma-joined `subjects_selected` encoding.
- **Stores** (`Stores`). Saving a department timetable deletes the old rows
  and inserts the new ones. Constraint creation has defaults, and constraints
  are visible by department scope.
- **Choice forms** (`ChoiceForms`):
  - the unguarded status toggle, and the dashboard's draft→open→closed buttons;
  - the preference picker and the submission guard;
  - the submission upsert on the unique (form, staff) key;
  - the available-forms listing and the personal timetable lookup;
  - the open-query count.
- **Chat bots** (`Chatbot`). The three first-keyword help bots.
- **Accounts** (`Accounts`):
  - username derivation, and credential generation and export;
  - notification validation;
  - login normalisation and the user record that login and verify return;
  - staff registration.

`Text` holds the string operations the code relies on: `strip`, `lower`,
substring search, `split`/`join` and `str(int)`. Trimming takes the runtime
whose whitespace set applies: Python's `str.strip()` for the backend and
JavaScript's `String.prototype.trim()` for the dashboards. The two sets differ
in U+001C to U+001F, U+0085 and U+FEFF. `Common` holds `Option`,
`Result`, and `Json`, which tells apart a request field that is absent, `null`
or given. `Records` is the data model of the generator.

Some things are parameters or are left out:
- Random passwords and password hashing are function parameters.
- The database is a sequence or map passed in and returned.
- The JWT identity is a plain user id.
- Nothing is stored concurrently.

Two behaviours of the code are easy to misread, and the model follows the code:
- The weekly-hour cap is checked only before a member starts a new subject. A
  member can therefore go past the cap, by less than one subject's hours.
- The generate route reads only the department's own constraint rows. No
  global rule is ever merged in.

## Model

| member | source | states |
|---|---|---|
| OrderedMap.Put | backend/enhanced_admin_routes.py:754-758 | assigning a dict key replaces the value; a new key goes last and an existing key keeps its place |
| Preprocess.ConstraintRoles | backend/enhanced_admin_routes.py:709-710 | the rule map has a role exactly when some constraint row has that role |
| Preprocess.ConstraintLastWins | backend/enhanced_admin_routes.py:709-715 | a role's rule is built from the last row for that role |
| Preprocess.TypesFromRows | backend/enhanced_admin_routes.py:713 | a non-empty subject-type list comes from a row whose column was non-null; a null column gives `[]` |
| Preprocess.StaffPresent | backend/enhanced_admin_routes.py:721-722 | a staff member is in the preference map exactly when one of their rows carries preference text |
| Preprocess.StaffLastWins | backend/enhanced_admin_routes.py:721-735 | a member's entry has their name, role and decoded ids, or `[]` when the text fails to decode |
| Preprocess.SubjectPresent | backend/enhanced_admin_routes.py:741-742 | the subject map holds exactly the ids of the subject rows |
| Preprocess.SubjectLastWins | backend/enhanced_admin_routes.py:741-747 | a subject's entry is built from the last row with its id |
| Preprocess.SubjectHours | backend/enhanced_admin_routes.py:746 | every subject needs twice its credits in weekly hours |
| Preprocess.ClassroomPresent | backend/enhanced_admin_routes.py:753-754 | the room map holds exactly the ids of the classroom rows |
| Preprocess.ClassroomLastWins | backend/enhanced_admin_routes.py:753-758 | a room's entry comes from its last row; it is a lab exactly when its lower-cased name contains "lab" |
| Preprocess.FirstRoomIsFirstRow | backend/enhanced_admin_routes.py:753-754 | the first room in iteration order is the first row's room; no rows means no rooms |
| Preprocess.KindMatchesName | backend/enhanced_admin_routes.py:757 | every room is classified as a lab exactly when its stored name passes the lab test |
| Scheduler.Periods | backend/enhanced_admin_routes.py:772 | the slots are "Period 1" to "Period n", and there are none when n is not positive |
| Scheduler.GridOf | backend/enhanced_admin_routes.py:779 | the occupancy grid has exactly one cell per working day and period |
| Scheduler.AvailableIff | backend/enhanced_admin_routes.py:830-837 | a room is available at a cell exactly when no entry books that room at that cell |
| Scheduler.FirstAvailableRoomSpec | backend/enhanced_admin_routes.py:805-809 | the chosen room is the first one, in iteration order, available at the cell; none is chosen only when no room is available |
| Scheduler.RoomAtFreeSlot | backend/enhanced_admin_routes.py:803-809 | at a cell no entry occupies, the chosen room is always the first room |
| Scheduler.CommitFacts | backend/enhanced_admin_routes.py:811-826 | booking a free cell appends exactly one entry for the lesson in the first room and marks the cell occupied |
| Scheduler.FillFacts | backend/enhanced_admin_routes.py:794-826 | one subject's pass appends only that lesson's entries, never more than its need; it stops short only when every cell is taken; without rooms it books nothing |
| Scheduler.PrefsFacts | backend/enhanced_admin_routes.py:786-791 | a member at or over the cap gets no entries; otherwise the workload ends below the cap plus the largest need among their subjects; every entry is theirs, for a preferred subject |
| Scheduler.PrefsHoursBound | backend/enhanced_admin_routes.py:790-801 | with distinct preferences, no subject gets more hours than it needs (`credits × 2`, or 3 when unknown) |
| Scheduler.StaffFacts | backend/enhanced_admin_routes.py:782-826 | every entry belongs to a listed staff member under that member's name, and earlier entries are never changed |
| Scheduler.StaffBounds | backend/enhanced_admin_routes.py:782-826 | for each member, the workload bound, and the per-subject bound when preferences are distinct |
| Scheduler.FillKeepsGood | backend/enhanced_admin_routes.py:803-824 | a subject's pass keeps cells pairwise distinct, inside the grid, and in the first room |
| Scheduler.StaffKeepGood | backend/enhanced_admin_routes.py:782-826 | the whole staff walk keeps cells pairwise distinct, inside the grid, and in the first room |
| Scheduler.EntriesNamed | backend/enhanced_admin_routes.py:806-821 | every entry names a staff member from the preference map, with that member's name and the subject's name; with no classrooms there are no entries |
| Scheduler.NoDoubleBooking | backend/enhanced_admin_routes.py:779-824 | no two entries share a (day, period), so none share a room or a teacher at a cell; every entry lies on a working day, in a valid period, in the first room |
| Scheduler.EntryCountBound | backend/enhanced_admin_routes.py:795-801 | there are at most (working days × periods per day) entries |
| Scheduler.FillEarliest | backend/enhanced_admin_routes.py:795-826 | every entry one subject's pass adds sits in the earliest grid cell, in day-then-period order, that the entries before it left free |
| Scheduler.EarliestCells | backend/enhanced_admin_routes.py:779-826 | every entry of the timetable sits in the earliest (day, period) cell, in working-day-then-period order, that the entries before it left free |
| Scheduler.StaffLimits | backend/enhanced_admin_routes.py:784-801 | for every member, the workload is 0 when the cap is not positive and otherwise stays below cap + largest need; with distinct preferences each subject is capped by its need |
| Views.PutCell | backend/enhanced_admin_routes.py:847-854 | writing a cell sets that (day, period) and leaves every other cell as it was |
| Views.StudentCellAt | backend/enhanced_admin_routes.py:843-854 | the student grid cell holds the last entry written to it |
| Views.StudentCellFrom | backend/enhanced_admin_routes.py:843-854 | every student grid cell comes from some entry at that cell |
| Views.OwnerKeys | backend/enhanced_admin_routes.py:862-869 | a staff, classroom or lab view has an owner exactly when some kept entry has that owner |
| Views.OwnerName | backend/enhanced_admin_routes.py:865-869 | an owner's name is taken from that owner's first entry |
| Views.OwnerNameFrom | backend/enhanced_admin_routes.py:865-869 | every owner name is the name on one of that owner's entries |
| Views.OwnerCellAt | backend/enhanced_admin_routes.py:871-878 | an owner's cell holds their last entry at that (day, period) |
| Views.OwnerCellFrom | backend/enhanced_admin_routes.py:862-878 | every owner cell comes from one of that owner's entries at that cell |
| Views.LabPart | backend/enhanced_admin_routes.py:911 | the restriction keeps exactly the rooms whose name passes the lab test, unchanged |
| Views.LabIsRestriction | backend/enhanced_admin_routes.py:882-929 | the lab view is the classroom view restricted to lab-named rooms, when each room id has one name |
| Views.EntryShown | backend/enhanced_admin_routes.py:839-929 | with distinct cells, each entry shows in the student grid, in its staff member's grid and in its room's grid; it shows in the lab grid exactly when its room is a lab |
| Generator.Entries | backend/enhanced_admin_routes.py:692-694 | every generated entry lies on a working day |
| Generator.EveryEntryShown | backend/enhanced_admin_routes.py:682-704 | every generated entry appears once, unchanged, in each of the four views it belongs to |
| Generator.EntriesInFirstRoom | backend/enhanced_admin_routes.py:805-811 | every entry uses the department's first classroom |
| Generator.LabViewIsLabRooms | backend/enhanced_admin_routes.py:757 | the lab view is the part of the classroom view whose rooms were classified as labs |
| Generator.NoRoomsNoTimetable | backend/enhanced_admin_routes.py:806-811 | a department without classrooms gets no entries and four empty views |
| ChoiceForms.ParseStatus | backend/enhanced_admin_routes.py:77 | only "draft", "open" and "closed" are form statuses, each one its own |
| ChoiceForms.SetStatus | backend/enhanced_admin_routes.py:468 | the forms with the id get the new status; everything else is kept |
| ChoiceForms.Toggle | backend/enhanced_admin_routes.py:462-468 | the toggle fails exactly when the given status violates the CHECK constraint |
| ChoiceForms.ToggleSetsStatus | backend/enhanced_admin_routes.py:463-468 | any valid status is written whatever the current one; other forms are untouched |
| ChoiceForms.ToggleIdempotent | backend/enhanced_admin_routes.py:468 | toggling twice to the same status equals toggling once |
| ChoiceForms.BackendReopens | backend/enhanced_admin_routes.py:463-468 | the backend reopens a closed form |
| ChoiceForms.Actions | src/pages/EnhancedDepartmentAdminDashboard.tsx:812-835 | export is always offered, with at most one status button beside it |
| ChoiceForms.ActionsStepForward | src/pages/EnhancedDepartmentAdminDashboard.tsx:812-828 | a draft offers only "open", an open form only "closed", a closed form only export |
| ChoiceForms.UiNeverReopens | src/pages/EnhancedDepartmentAdminDashboard.tsx:812-835 | no sequence of button presses moves a form back, and a closed form stays closed |
| ChoiceForms.ToggleSubject | src/pages/EnhancedStaffDashboard.tsx:221-227 | the toggled id is present afterwards exactly when it was absent before, and other ids are unaffected; an unselected id is appended at the end, and a selected one is filtered out with the rest kept in order |
| ChoiceForms.RemoveAll | src/pages/EnhancedStaffDashboard.tsx:223 | filtering drops exactly the given id |
| ChoiceForms.RemoveKeepsOrder | src/pages/EnhancedStaffDashboard.tsx:222-223 | removing an id keeps the other ids in their relative order |
| ChoiceForms.ToggleNoDup | src/pages/EnhancedStaffDashboard.tsx:221-227 | toggling keeps the list free of duplicates |
| ChoiceForms.RemoveAppended | src/pages/EnhancedStaffDashboard.tsx:223-225 | removing an id just appended gives back the list it was appended to |
| ChoiceForms.ToggleTwice | src/pages/EnhancedStaffDashboard.tsx:221-227 | toggling an absent id twice restores the original list |
| ChoiceForms.SubmissionRequest | src/pages/EnhancedStaffDashboard.tsx:168-175 | a request is sent exactly when a form is selected and the selection is non-empty, and it carries the selection as is |
| ChoiceForms.Others | backend/enhanced_admin_routes.py:96 | the rows kept are exactly those for another (form, staff) pair |
| ChoiceForms.OthersUnique | backend/enhanced_admin_routes.py:96 | dropping one key's rows keeps the (form, staff) key unique |
| ChoiceForms.Submit | backend/enhanced_staff_routes.py:62-78 | a submission succeeds exactly when the form exists and is open, and it ends with this staff member's row for the form |
| ChoiceForms.SubmitUpserts | backend/enhanced_staff_routes.py:70-78 | the key stays unique and the member has exactly one row, holding the given list or `[]`; other rows stay |
| ChoiceForms.ResubmitReplaces | backend/enhanced_staff_routes.py:70-78 | submitting again equals submitting only the second answer |
| ChoiceForms.DashboardSubmitStoresList | backend/enhanced_staff_routes.py:74-78 | the dashboard's selection and notes are what gets stored |
| ChoiceForms.OfferedForms | backend/enhanced_staff_routes.py:36 | the result holds only open forms of the department, drawn from the table |
| ChoiceForms.OfferedIff | backend/enhanced_staff_routes.py:36 | a form is offered exactly when it is in the table, open, and of the member's department |
| ChoiceForms.InsertByDate | backend/enhanced_staff_routes.py:37 | insertion keeps close-date order and adds exactly the new form |
| ChoiceForms.SortByDate | backend/enhanced_staff_routes.py:37 | the result is in close-date order and has the same forms |
| ChoiceForms.InsertAddsOne | backend/enhanced_staff_routes.py:37 | insertion adds one copy of the form and nothing else |
| ChoiceForms.SortIsPermutation | backend/enhanced_staff_routes.py:37 | sorting is a permutation |
| ChoiceForms.Available | backend/enhanced_staff_routes.py:31-38 | the list is the sorted offered forms, each flagged submitted exactly when a row for this form and member exists |
| ChoiceForms.AvailableSpec | backend/enhanced_staff_routes.py:31-38 | the list holds exactly the open department forms, each as often as in the table, by close date, and is empty without a department |
| ChoiceForms.Newest | backend/enhanced_staff_routes.py:126-133 | the row picked is an approved staff timetable of the department with the latest creation time; none is picked only when there is no such row |
| ChoiceForms.MyTimetable | backend/enhanced_staff_routes.py:126-141 | a timetable is returned only from the newest approved staff row, under the user's id as text |
| ChoiceForms.AsJson | backend/enhanced_admin_routes.py:629 | the stored view has each staff id's grid under that id printed as text |
| ChoiceForms.MyTimetableFromView | backend/enhanced_staff_routes.py:137-141 | reading back a stored staff view gives exactly the user's own grid, or `{}` when the user is not in it |
| ChoiceForms.OpenCount | src/pages/EnhancedDepartmentAdminDashboard.tsx:630 | the count is at most the number of queries, and equals it exactly when all are open |
| ChoiceForms.OpenCountIsMultiplicity | src/pages/EnhancedDepartmentAdminDashboard.tsx:630 | the count is the number of queries whose status is open |
| Selection.Decode | backend/api_routes.py:45 | a NULL or empty column decodes to `[]`, anything else to a non-empty list; no part holds a comma |
| Selection.JoinDecode | backend/api_routes.py:45 | joining the decoded parts with commas gives back the stored text |
| Selection.DecodeEncode | backend/api_routes.py:167 | encoding then decoding gives back each id's text, when no item holds a comma and the list is not a single empty text |
| Selection.SingleEmptyIsLost | backend/api_routes.py:45 | the list of one empty text reads back as `[]` |
| Selection.NumbersEncodable | backend/api_routes.py:167 | any list of numeric ids round-trips |
| Selection.MaxSubjects | backend/api_routes.py:161 | the cap is 2 for assistant professors and 1 for everyone else |
| Selection.Select | backend/api_routes.py:144-172 | selection succeeds exactly when ids are given, the user exists and is unlocked, and the list is within the cap; on success the user is locked and no other user changes |
| Selection.SelectErrors | backend/api_routes.py:144-164 | no ids, an unknown user, a locked user and too many ids each give their own error |
| Selection.SelectedReadsBack | backend/api_routes.py:167-172 | after a selection, the stored column decodes to the selected ids |
| Selection.LockIsFinal | backend/api_routes.py:157-158 | once locked, a user's record never changes under any later selection requests |
| Stores.SaveTimetable | backend/api_routes.py:436-460 | a missing department is rejected; the save fails exactly then, or on a null list or an incomplete entry |
| Stores.SaveReplaces | backend/api_routes.py:446-460 | after a save, the department's rows are exactly the submitted entries, and every other department's rows are unchanged |
| Stores.WithDefault | backend/api_routes.py:571-572 | a missing field takes the default, null stays null, and a given value is kept |
| Stores.ConstraintDept | backend/api_routes.py:559-562 | a non-main-admin's constraint is in their own department; a main admin's is global exactly when no department is given |
| Stores.CreateConstraint | backend/api_routes.py:543-590 | creation succeeds exactly when role and subject type are non-blank, the user exists, the role and type are among those the table's CHECK constraints allow, and neither limit is null; a blank role or type is a 400; a success appends one schema-conforming row by that user with the given role and type |
| Stores.CreatePreservesSchema | backend/app.py:100-112 | a table whose rows satisfy the CHECK constraints still does after a creation |
| Stores.CreatedConstraint | backend/api_routes.py:558-573 | a given limit is stored as given, an omitted max_subjects is 1 and an omitted max_hours is 8, and the department follows the scoping rule |
| Stores.VisibleIff | backend/api_routes.py:487-505 | a constraint is listed exactly when the viewer is a main admin, or it is global or of the viewer's department |
| Stores.ScopedCreation | backend/api_routes.py:496-505 | a department admin sees the constraint they just created |
| Stores.HiddenFromOtherDepartments | backend/api_routes.py:496-505 | a non-main-admin never sees another department's constraint |
| Chatbot.FirstMatch | backend/admin_enhancements.py:562-565 | a match is a keyword position whose keyword occurs in the text |
| Chatbot.FirstMatchSpec | backend/admin_enhancements.py:559-565 | no match exactly when no keyword occurs; a match has no earlier keyword occurring |
| Chatbot.Topic | backend/admin_enhancements.py:559-565 | the reply is a table keyword or help |
| Chatbot.AdminChat | backend/admin_enhancements.py:539-565 | every reply of the admin bot is one of its keywords |
| Chatbot.AdminChatAccepts | backend/admin_enhancements.py:539-546 | the admin bot answers exactly the main admin's non-blank queries; a missing or blank query is rejected |
| Chatbot.AdminChatTopic | backend/admin_enhancements.py:543-565 | a non-blank query gets the reply of the first keyword in the lower-cased query |
| Chatbot.TopicOfStripped | backend/admin_enhancements.py:543-559 | stripping the query first never changes the reply, since no keyword holds whitespace |
| Chatbot.TablesAreWords | backend/admin_enhancements.py:549-556 | every keyword in the three tables is non-empty and has no whitespace |
| Chatbot.DashboardChat | src/pages/EnhancedStaffDashboard.tsx:230-250 | every dashboard reply is a table keyword or help |
| Chatbot.DashboardIgnoresBlank | src/pages/EnhancedDepartmentAdminDashboard.tsx:505 | a dashboard ignores exactly the blank queries |
| Chatbot.StaffChat | src/pages/EnhancedStaffDashboard.tsx:234-250 | the staff bot ignores exactly the blank queries and replies from choice, timetable, submission, deadline and help |
| Chatbot.SeparatorsBlankOnlyToPython | src/pages/EnhancedStaffDashboard.tsx:230 | a query of U+001C to U+001F separators is rejected as blank by the admin route but answered by a dashboard, whose `trim()` keeps them |
| Chatbot.DeptChat | src/pages/EnhancedDepartmentAdminDashboard.tsx:510-527 | the department bot ignores exactly the blank queries and replies from staff, constraint, choice, timetable, query and help |
| Accounts.Username | backend/admin_enhancements.py:95 | a username has no '@', is lower-case, and is no longer than the email |
| Accounts.UsernameOfAddress | backend/admin_enhancements.py:95 | the username of `local@domain` is the lower-cased local part |
| Accounts.UsernameWithoutAt | backend/admin_enhancements.py:95 | an address without '@' gives its whole text, lower-cased |
| Accounts.CandidatesOf | backend/admin_enhancements.py:140-147 | the candidates are exactly the staff and department admins with no credential row and no password hash |
| Accounts.NewCredentials | backend/admin_enhancements.py:154-156 | each candidate gets one unexported credential with the derived username and their password |
| Accounts.WithHashes | backend/admin_enhancements.py:107-110 | candidates get the hash of their new password, and other users are unchanged |
| Accounts.GenerateCredentials | backend/admin_enhancements.py:136-163 | generation succeeds exactly for a main admin; the count is the number of candidates, and the old credentials are kept as a prefix |
| Accounts.SecondBatchIsEmpty | backend/admin_enhancements.py:140-163 | after a batch no candidate remains, so a second run generates nothing |
| Accounts.BatchTouchesOnlyCandidates | backend/admin_enhancements.py:140-163 | non-candidates are unchanged; each new credential is unexported and belongs to a candidate under their username |
| Accounts.Unexported | backend/admin_enhancements.py:185-195 | the export sheet holds exactly the unexported credentials of existing users |
| Accounts.MarkAll | backend/admin_enhancements.py:241 | every credential row is marked exported and otherwise kept |
| Accounts.ExportCredentials | backend/admin_enhancements.py:175-241 | a non-main-admin is denied; otherwise the export fails with "nothing to export" exactly when the sheet would be empty |
| Accounts.ExportOnce | backend/admin_enhancements.py:197-241 | after an export every row is exported, and exporting again has nothing to export |
| Accounts.SendNotification | backend/admin_enhancements.py:323-342 | a stored notification has a stripped, non-empty title and message and a recipient type from staff, dept_admin and all |
| Accounts.FieldFilled | backend/admin_enhancements.py:328-332 | a field is filled after stripping exactly when it is given and not all whitespace |
| Accounts.NotificationAccepts | backend/admin_enhancements.py:328-336 | for a main admin, a notification is accepted exactly when title and message are not blank and the recipient type is valid |
| Accounts.RecordOf | backend/app.py:192-202 | the department is None exactly when the column is NULL or 0; the subjects are `[]` exactly when the column is NULL or empty |
| Accounts.RecordFaithful | backend/app.py:197-200 | the record's id and department identify the stored ones, and rejoining its subjects gives back the stored text |
| Accounts.FindByEmail | backend/app.py:169-176 | the user found has the exact email, and no user is found exactly when no user has it |
| Accounts.Authenticate | backend/app.py:179-202 | a login succeeds exactly when a user has the email, has a stored hash, and the password checks against it |
| Accounts.Login | backend/app.py:156-202 | a null email is a 500; otherwise the request is a 400 exactly when the email is missing or all whitespace or the password is missing, null or empty; any other request is decided by the password check on the normalised email; a login succeeds only when both fields were given |
| Accounts.NormalEmailIdempotent | backend/app.py:157 | normalising an email twice is normalising it once |
| Accounts.LoginIgnoresCaseAndSpace | backend/app.py:157 | emails that normalise alike log in alike |
| Accounts.LoginHidesWhichWasWrong | backend/app.py:179-190 | an unknown email and a wrong password both give the same "invalid credentials" error |
| Accounts.LoginReturnsOwnRecord | backend/app.py:179-202 | a successful login returns the record of a user with that normalised email whose password checked |
| Accounts.VerifyToken | backend/app.py:222-246 | verification fails exactly when no user has the id, and otherwise returns that user's record |
| Accounts.VerifyAfterLogin | backend/app.py:236-246 | with unique ids, verifying the logged-in user's id gives the record the login returned |
| Accounts.ValidateForm | backend/app.py:341-355 | a form passes exactly when all eight fields are filled and the role is one of the seven; a filled form with another role is an invalid role |
| Accounts.RegisterStaffAsWritten | backend/app.py:341-387 | a registration never succeeds: invalid forms get their validation error, and valid ones fail |
| Accounts.RegistrationAlwaysFails | backend/app.py:357-387 | a concrete valid form that the written route still rejects |
| Accounts.RegisterStaff | backend/app.py:341-385 | with the generation repaired: validation errors are kept; "already registered" exactly when the email or username is taken; success issues the text before '@' with the given password |
| Accounts.RegisterStaffAppends | backend/app.py:363-373 | a valid new registration appends one unregistered row with the form's email, role and password, keeping the table unique |
| Accounts.IssuedUsername | backend/app.py:358 | the issued username is the local part of the address, not lower-cased |
| Text.StripEmptyIff | backend/admin_enhancements.py:543-546 | a text strips to nothing exactly when it is all whitespace |
| Text.StripIndex | backend/admin_enhancements.py:328 | the stripped text is the original read from its first non-whitespace character |
| Text.StripSurround | backend/admin_enhancements.py:328 | everything after the stripped text is whitespace |
| Text.LowerStrip | backend/app.py:157 | lower-casing and stripping commute |
| Text.LowerIsLower | backend/app.py:157 | a lower-cased text is lower-case, and lower-casing it again changes nothing |
| Text.ContainsIff | backend/admin_enhancements.py:563 | the substring test holds exactly when the keyword occurs at some position |
| Text.JoinSplit | backend/api_routes.py:45 | splitting on a separator and rejoining gives back the text |
| Text.SplitJoin | backend/api_routes.py:167 | joining separator-free parts and splitting again gives back the parts |
| Text.IntTextInjective | backend/enhanced_staff_routes.py:139 | distinct integers print as distinct decimal texts |

## Left out

- Flask routing, JWT checks, SQLite connections and SQL text are not modelled. Tables are sequences or maps passed in and returned, and the JWT identity is a user id.
- `json.loads`/`json.dumps` are not modelled. Constraint subject types, staff preference texts and the configuration's working days arrive already decoded. A preference text that does not decode is `Malformed`.
- How `GROUP_CONCAT` joins several submissions into one preference text (backend/enhanced_admin_routes.py:602) is not modelled. The scheduler receives each member's decoded id list.
- The generate route's storage of four rows per run (backend/enhanced_admin_routes.py:623-631) is not modelled. Neither is its lack of serialisation between concurrent runs.
- Random passwords (`secrets`, `random`) and password hashing (werkzeug, SHA-256) are function parameters. The spreadsheet that the export writes (openpyxl) is not modelled; only the set of rows it would hold is.
- `ai_timetable.TimetableGenerator` is not part of this model, because its source is not available.
- Lower-casing is ASCII only. Python's and JavaScript's Unicode case mappings are not modelled. Whitespace is each runtime's full set.
- The `max_subjects` and `lab_faculty_required` fields of a rule are carried but never read, as in the scheduler.
- Close dates and creation times are integers. Ties in `ORDER BY` are broken by table order, which SQLite does not promise.
- The GET branch of `send_notification` is not modelled. It lists the last ten notifications.
- Staff registration requests and their status CHECK constraint (backend/enhanced_admin_routes.py:40) are not modelled. No listed operation reads or writes them.
- The "user not found" answers of the available-forms and constraint-listing routes are not modelled. Both take the user's department and role as given.
- UI rendering, fetch plumbing, the seed and one-off scripts, and the unregistered backend/routes/auth.py are not modelled. The staff registration dialog's `role`/`staff_role` field-name mismatch is not modelled either.
- Scheduler.StaffLimits: the per-subject bound is stated only for preference lists without duplicates. With a repeated subject id, the same subject is scheduled again, and the source gives no bound.
- Views.LabIsRestriction: holds only when each room id carries one name. Generated entries always do, because they take the name from the room map (Generator.LabViewIsLabRooms).
- Stores.Visible: lists rows in table order. `get_constraints` orders by `created_at DESC` (backend/api_routes.py:494, 504), but `created_at` is `CURRENT_TIMESTAMP` with one-second resolution. Rows created in the same second tie, and SQLite does not order ties, so no order is promised. Only which rows are listed is stated.
- Accounts.Unexported: lists rows in table order. The export query orders by `generated_at DESC` (backend/admin_enhancements.py:192), and rows generated within the same second, as one batch's rows usually are, tie in an order SQLite does not fix. Only which rows go on the sheet is stated.
- Accounts.Login: request fields are strings or absent or null. Non-string JSON values, which make `.strip()` raise, are not modelled.
- Accounts.CandidatesOf: `users.password_hash` is declared NOT NULL (backend/app.py:40). Under that schema the `password_hash IS NULL` filter matches no user. The model keeps the hash optional so the filter means something.

## Findings

| source | as written | input that shows it | evidently intended | confidence | as-written member | corrected member |
|---|---|---|---|---|---|---|
| backend/app.py:359 | `register_staff` calls `random.choices(string.ascii_letters + string.digits, k=8)`, but backend/app.py imports neither `random` nor `string` (lines 1-12). The `NameError` is caught by the generic handler, so every valid registration answers 500. | any complete form with a listed role, e.g. name "Asha", email "asha@srm.edu", role "professor" | a valid, untaken registration is stored and returns the local part of the email and an 8-character password; a taken email or username gives 409 | high (not executed) | Accounts.RegisterStaffAsWritten, Accounts.RegistrationAlwaysFails | Accounts.RegisterStaff, Accounts.RegisterStaffAppends |
