/** The subject-choice form lifecycle: the department dashboard's status
    buttons (src/pages/EnhancedDepartmentAdminDashboard.tsx), the unguarded
    status update behind them (`toggle_choice_form` in
    backend/enhanced_admin_routes.py), the staff dashboard's ordered
    preference picker and its submit guard (src/pages/EnhancedStaffDashboard.tsx),
    and the staff routes of backend/enhanced_staff_routes.py: submission upsert,
    the list of available forms, and the personal timetable lookup. */
module ChoiceForms {
  import opened Common
  import opened Text
  import opened Views

  // ---------------------------------------------------------------------------
  // Form status

  /** The values the table's CHECK constraint admits. */
  datatype FormStatus = Draft | Open | Closed

  function ParseStatus(s: string): (r: Option<FormStatus>)
    ensures r == Some(Draft) <==> s == "draft"
    ensures r == Some(Open) <==> s == "open"
    ensures r == Some(Closed) <==> s == "closed"
  {
    if s == "draft" then Some(Draft)
    else if s == "open" then Some(Open)
    else if s == "closed" then Some(Closed)
    else None
  }

  /** A row of `subject_choice_forms`; `status` is `None` when NULL. */
  datatype Form = Form(id: int, dept: int, status: Option<FormStatus>, closeDate: int)

  datatype ToggleError = CheckViolated

  /** The status column after `toggle_choice_form`: a missing or null status
      writes NULL (which the CHECK constraint lets through); text outside the
      three values violates the CHECK constraint and aborts. */
  function RequestedStatus(status: Json<string>): Result<Option<FormStatus>, ToggleError> {
    match status
    case Absent => Ok(None)
    case Null => Ok(None)
    case Given(s) => if ParseStatus(s).Some? then Ok(ParseStatus(s)) else Err(CheckViolated)
  }

  function SetStatus(forms: seq<Form>, id: int, st: Option<FormStatus>): (r: seq<Form>)
    ensures |r| == |forms|
    ensures forall k :: 0 <= k < |r| ==>
              (r[k].id == forms[k].id && r[k].dept == forms[k].dept && r[k].closeDate == forms[k].closeDate)
    ensures forall k :: 0 <= k < |r| ==> r[k].status == if forms[k].id == id then st else forms[k].status
    decreases |forms|
  {
    if forms == [] then []
    else
      var f := forms[|forms| - 1];
      SetStatus(forms[..|forms| - 1], id, st) + [if f.id == id then f.(status := st) else f]
  }

  /** `toggle_choice_form`: the requested status is written whatever the
      current one; an unknown id changes nothing and still succeeds. */
  function Toggle(forms: seq<Form>, id: int, status: Json<string>): (r: Result<seq<Form>, ToggleError>)
    ensures r.Err? <==> status.Given? && ParseStatus(status.value).None?
  {
    match RequestedStatus(status)
    case Err(e) => Err(e)
    case Ok(st) => Ok(SetStatus(forms, id, st))
  }

  /** No transition guard: any form, whatever its status, ends with the
      requested one, and the rest of the table is untouched. */
  lemma ToggleSetsStatus(forms: seq<Form>, id: int, s: string, k: int)
    requires ParseStatus(s).Some? && 0 <= k < |forms|
    ensures Toggle(forms, id, Given(s)).Ok?
    ensures forms[k].id == id ==> Toggle(forms, id, Given(s)).value[k].status == ParseStatus(s)
    ensures forms[k].id != id ==> Toggle(forms, id, Given(s)).value[k] == forms[k]
  {
  }

  /** Toggling to the same status twice is the same as once. */
  lemma ToggleIdempotent(forms: seq<Form>, id: int, status: Json<string>)
    requires Toggle(forms, id, status).Ok?
    ensures Toggle(Toggle(forms, id, status).value, id, status) == Toggle(forms, id, status)
  {
    var once := Toggle(forms, id, status).value;
    var twice := Toggle(once, id, status).value;
    assert |twice| == |once|;
    forall k | 0 <= k < |once| ensures twice[k] == once[k] {
    }
    assert twice == once;
  }

  /** The action buttons the department dashboard shows for a form. */
  datatype Action = MoveTo(target: FormStatus) | Export

  function Actions(status: FormStatus): (acts: seq<Action>)
    ensures Export in acts
    ensures |acts| <= 2
  {
    match status
    case Draft => [MoveTo(Open), Export]
    case Open => [MoveTo(Closed), Export]
    case Closed => [Export]
  }

  function Rank(s: FormStatus): int {
    match s
    case Draft => 0
    case Open => 1
    case Closed => 2
  }

  /** The dashboard offers each status exactly one step forward: draft to
      open, open to closed, and nothing once closed. */
  lemma ActionsStepForward(s: FormStatus, a: Action)
    requires a in Actions(s)
    ensures a.MoveTo? ==> Rank(a.target) == Rank(s) + 1
    ensures s == Closed ==> a == Export
  {
  }

  /** The status after pressing button `a`; a button the dashboard does not
      show for the current status does nothing. */
  function Press(s: FormStatus, a: Action): FormStatus {
    if a in Actions(s) && a.MoveTo? then a.target else s
  }

  function PressAll(s: FormStatus, presses: seq<Action>): FormStatus
    decreases |presses|
  {
    if presses == [] then s else PressAll(Press(s, presses[0]), presses[1..])
  }

  /** Through the dashboard a form never moves backwards, and a closed form
      stays closed, although the backend would accept any change. */
  lemma {:induction false} UiNeverReopens(s: FormStatus, presses: seq<Action>)
    ensures Rank(s) <= Rank(PressAll(s, presses))
    ensures s == Closed ==> PressAll(s, presses) == Closed
    decreases |presses|
  {
    if presses != [] {
      var a := presses[0];
      if a in Actions(s) {
        ActionsStepForward(s, a);
      }
      UiNeverReopens(Press(s, a), presses[1..]);
    }
  }

  lemma BackendReopens(forms: seq<Form>, k: int)
    requires 0 <= k < |forms| && forms[k].status == Some(Closed)
    ensures Toggle(forms, forms[k].id, Given("open")).value[k].status == Some(Open)
  {
  }

  // ---------------------------------------------------------------------------
  // Preference picking on the staff dashboard

  /** `handleSubjectToggle`: a selected id is removed, an unselected one is
      appended, so the list records click order. */
  function ToggleSubject(selected: seq<string>, id: string): (r: seq<string>)
    ensures forall x :: x in r <==> (x in selected && x != id) || (x == id && id !in selected)
    ensures id !in selected ==> r == selected + [id]
    ensures id in selected ==> r == RemoveAll(selected, id) && Subsequence(r, selected)
  {
    if id in selected then RemoveKeepsOrder(selected, id); RemoveAll(selected, id) else selected + [id]
  }

  /** `selected.filter(x => x !== id)`. */
  function RemoveAll(xs: seq<string>, id: string): (r: seq<string>)
    ensures forall x :: x in r <==> x in xs && x != id
    ensures |r| <= |xs|
    decreases |xs|
  {
    if xs == [] then []
    else if xs[0] == id then RemoveAll(xs[1..], id)
    else [xs[0]] + RemoveAll(xs[1..], id)
  }

  /** `ys` keeps some of the items of `xs`, in their relative order. */
  predicate Subsequence(ys: seq<string>, xs: seq<string>)
    decreases |xs|
  {
    if ys == [] then true
    else if xs == [] then false
    else (ys[0] == xs[0] && Subsequence(ys[1..], xs[1..])) || Subsequence(ys, xs[1..])
  }

  /** Removing keeps the other ids in their relative order. */
  lemma {:induction false} RemoveKeepsOrder(xs: seq<string>, id: string)
    ensures Subsequence(RemoveAll(xs, id), xs)
    decreases |xs|
  {
    if xs != [] {
      RemoveKeepsOrder(xs[1..], id);
      var rest := RemoveAll(xs[1..], id);
      if xs[0] != id {
        assert ([xs[0]] + rest)[1..] == rest;
      } else if rest != [] {
        assert Subsequence(rest, xs[1..]);
      }
    }
  }

  lemma {:induction false} RemoveNoDup(xs: seq<string>, id: string)
    requires NoDup(xs)
    ensures NoDup(RemoveAll(xs, id))
    decreases |xs|
  {
    if xs != [] {
      NoDupTail(xs);
      RemoveNoDup(xs[1..], id);
      if xs[0] != id {
        var rest := RemoveAll(xs[1..], id);
        assert xs[0] !in rest;
        var r := [xs[0]] + rest;
        forall i, j | 0 <= i < j < |r| ensures r[i] != r[j] {
          if i == 0 {
            assert r[j] == rest[j - 1];
            assert r[j] in rest;
          } else {
            assert r[i] == rest[i - 1] && r[j] == rest[j - 1];
          }
        }
      }
    }
  }

  /** Toggling keeps a duplicate-free list duplicate-free. */
  lemma ToggleNoDup(selected: seq<string>, id: string)
    requires NoDup(selected)
    ensures NoDup(ToggleSubject(selected, id))
  {
    if id in selected {
      RemoveNoDup(selected, id);
    } else {
      var r := selected + [id];
      forall i, j | 0 <= i < j < |r| ensures r[i] != r[j] {
        if j == |selected| {
          assert r[i] == selected[i];
        } else {
          assert r[i] == selected[i] && r[j] == selected[j];
        }
      }
    }
  }

  lemma {:induction false} RemoveAppended(xs: seq<string>, id: string)
    requires id !in xs
    ensures RemoveAll(xs + [id], id) == xs
    decreases |xs|
  {
    if xs == [] {
      assert RemoveAll([id], id) == RemoveAll([], id);
    } else {
      assert (xs + [id])[1..] == xs[1..] + [id];
      RemoveAppended(xs[1..], id);
      assert [xs[0]] + xs[1..] == xs;
    }
  }

  /** Clicking an unselected subject twice gives back the original list. */
  lemma ToggleTwice(selected: seq<string>, id: string)
    requires id !in selected
    ensures ToggleSubject(ToggleSubject(selected, id), id) == selected
  {
    RemoveAppended(selected, id);
  }

  /** The request `handleFormSubmission` sends: nothing without a chosen form
      or with no subject picked. */
  function SubmissionRequest(form: Option<int>, selected: seq<string>, notes: string): (r: Option<(int, seq<string>, string)>)
    ensures r.Some? <==> form.Some? && selected != []
    ensures r.Some? ==> r.value.1 == selected
  {
    if form.None? || |selected| == 0 then None else Some((form.value, selected, notes))
  }

  // ---------------------------------------------------------------------------
  // Submissions

  /** The stored `subject_preferences` text: `json.dumps` of the list, or of
      `None` when the request carried `null`. */
  datatype StoredPrefs = PrefList(ids: seq<string>) | PrefNull

  /** A row of `subject_choice_submissions`; `notes` is `None` when NULL. */
  datatype Submission = Submission(formId: int, staffId: int, prefs: StoredPrefs, notes: Option<string>)

  predicate SameKey(s: Submission, formId: int, staffId: int) {
    s.formId == formId && s.staffId == staffId
  }

  /** The table's UNIQUE(form_id, staff_id) constraint. */
  predicate UniqueKeys(subs: seq<Submission>) {
    forall i, j :: 0 <= i < j < |subs| ==> !SameKey(subs[j], subs[i].formId, subs[i].staffId)
  }

  /** The rows whose key differs from (formId, staffId), in table order. */
  function Others(subs: seq<Submission>, formId: int, staffId: int): (r: seq<Submission>)
    ensures |r| <= |subs|
    ensures forall k :: 0 <= k < |r| ==> !SameKey(r[k], formId, staffId)
    ensures forall s :: s in r <==> s in subs && !SameKey(s, formId, staffId)
    decreases |subs|
  {
    if subs == [] then []
    else
      var rest := Others(subs[..|subs| - 1], formId, staffId);
      assert subs == subs[..|subs| - 1] + [subs[|subs| - 1]];
      if SameKey(subs[|subs| - 1], formId, staffId) then rest else rest + [subs[|subs| - 1]]
  }

  datatype SubmitError = NotAvailable

  function IsOpen(forms: seq<Form>, formId: int): bool {
    exists k :: 0 <= k < |forms| && forms[k].id == formId && forms[k].status == Some(Open)
  }

  /** `submit_choice_form`: only a form that exists and is open takes
      submissions; `INSERT OR REPLACE` then deletes the staff member's earlier
      row for the form and appends the new one. */
  function Submit(forms: seq<Form>, subs: seq<Submission>, formId: int, staffId: int,
                  prefs: Json<seq<string>>, notes: Json<string>): (r: Result<seq<Submission>, SubmitError>)
    ensures r.Ok? <==> IsOpen(forms, formId)
    ensures r.Ok? ==> |r.value| >= 1 && SameKey(r.value[|r.value| - 1], formId, staffId)
  {
    if !IsOpen(forms, formId) then Err(NotAvailable)
    else
      var stored := match prefs case Absent => PrefList([]) case Null => PrefNull case Given(ids) => PrefList(ids);
      var text := match notes case Absent => Some("") case Null => None case Given(n) => Some(n);
      Ok(Others(subs, formId, staffId) + [Submission(formId, staffId, stored, text)])
  }

  /** A submission is an upsert: the key stays unique, the new row is the only
      one for its key, omitted preferences are stored as `[]`, and every other
      row is kept. */
  lemma SubmitUpserts(forms: seq<Form>, subs: seq<Submission>, formId: int, staffId: int,
                      prefs: Json<seq<string>>, notes: Json<string>)
    requires UniqueKeys(subs) && Submit(forms, subs, formId, staffId, prefs, notes).Ok?
    ensures var r := Submit(forms, subs, formId, staffId, prefs, notes).value;
            UniqueKeys(r)
            && (forall k :: 0 <= k < |r| - 1 ==> !SameKey(r[k], formId, staffId))
            && (prefs.Absent? ==> r[|r| - 1].prefs == PrefList([]))
            && (prefs.Given? ==> r[|r| - 1].prefs == PrefList(prefs.value))
            && (forall s :: s in subs && !SameKey(s, formId, staffId) ==> s in r)
  {
    var r := Submit(forms, subs, formId, staffId, prefs, notes).value;
    var rest := Others(subs, formId, staffId);
    OthersUnique(subs, formId, staffId);
    forall i, j | 0 <= i < j < |r| ensures !SameKey(r[j], r[i].formId, r[i].staffId) {
      if j == |r| - 1 {
        assert r[i] == rest[i];
      } else {
        assert r[i] == rest[i] && r[j] == rest[j];
      }
    }
  }

  lemma {:induction false} OthersUnique(subs: seq<Submission>, formId: int, staffId: int)
    requires UniqueKeys(subs)
    ensures UniqueKeys(Others(subs, formId, staffId))
    decreases |subs|
  {
    if subs != [] {
      var init := subs[..|subs| - 1];
      var last := subs[|subs| - 1];
      assert UniqueKeys(init) by {
        forall i, j | 0 <= i < j < |init| ensures !SameKey(init[j], init[i].formId, init[i].staffId) {
          assert init[i] == subs[i] && init[j] == subs[j];
        }
      }
      OthersUnique(init, formId, staffId);
      var rest := Others(init, formId, staffId);
      if !SameKey(last, formId, staffId) {
        var r := rest + [last];
        forall i, j | 0 <= i < j < |r| ensures !SameKey(r[j], r[i].formId, r[i].staffId) {
          if j == |r| - 1 {
            assert r[i] == rest[i] && rest[i] in init;
            var m :| 0 <= m < |init| && init[m] == rest[i];
            assert subs[m] == init[m];
          } else {
            assert r[i] == rest[i] && r[j] == rest[j];
          }
        }
      }
    }
  }

  /** Submitting again to the same form replaces the earlier answer: the table
      is as if only the second submission had been made. */
  lemma ResubmitReplaces(forms: seq<Form>, subs: seq<Submission>, formId: int, staffId: int,
                         p1: Json<seq<string>>, n1: Json<string>, p2: Json<seq<string>>, n2: Json<string>)
    requires Submit(forms, subs, formId, staffId, p1, n1).Ok?
    ensures Submit(forms, Submit(forms, subs, formId, staffId, p1, n1).value, formId, staffId, p2, n2)
            == Submit(forms, subs, formId, staffId, p2, n2)
  {
    var once := Submit(forms, subs, formId, staffId, p1, n1).value;
    var rest := Others(subs, formId, staffId);
    OthersAppendSame(rest, once[|once| - 1], formId, staffId);
    OthersIdempotent(subs, formId, staffId);
  }

  lemma OthersAppendSame(rest: seq<Submission>, s: Submission, formId: int, staffId: int)
    requires SameKey(s, formId, staffId)
    ensures Others(rest + [s], formId, staffId) == Others(rest, formId, staffId)
  {
    assert (rest + [s])[..|rest + [s]| - 1] == rest;
  }

  lemma {:induction false} OthersIdempotent(subs: seq<Submission>, formId: int, staffId: int)
    ensures Others(Others(subs, formId, staffId), formId, staffId) == Others(subs, formId, staffId)
    decreases |subs|
  {
    if subs != [] {
      var init := subs[..|subs| - 1];
      OthersIdempotent(init, formId, staffId);
      var rest := Others(init, formId, staffId);
      if !SameKey(subs[|subs| - 1], formId, staffId) {
        assert (rest + [subs[|subs| - 1]])[..|rest|] == rest;
      }
    }
  }

  /** What the staff dashboard sends, once the guard lets it through, is stored
      as the click-ordered list. */
  lemma DashboardSubmitStoresList(forms: seq<Form>, subs: seq<Submission>, staffId: int,
                                  form: Option<int>, selected: seq<string>, notes: string)
    requires SubmissionRequest(form, selected, notes).Some? && IsOpen(forms, form.value)
    ensures var req := SubmissionRequest(form, selected, notes).value;
            var r := Submit(forms, subs, req.0, staffId, Given(req.1), Given(req.2)).value;
            r[|r| - 1] == Submission(form.value, staffId, PrefList(selected), Some(notes))
  {
  }

  // ---------------------------------------------------------------------------
  // Available forms

  /** Whether the staff member has a row for the form (`has_submitted`). */
  predicate HasSubmitted(subs: seq<Submission>, formId: int, staffId: int) {
    exists k :: 0 <= k < |subs| && SameKey(subs[k], formId, staffId)
  }

  /** A form listed to a staff member: open and in the member's department. */
  predicate Offered(f: Form, dept: Option<int>) {
    dept.Some? && f.dept == dept.value && f.status == Some(Open)
  }

  function OfferedForms(forms: seq<Form>, dept: Option<int>): (r: seq<Form>)
    ensures forall k :: 0 <= k < |r| ==> Offered(r[k], dept)
    ensures multiset(r) <= multiset(forms)
    decreases |forms|
  {
    if forms == [] then []
    else
      var rest := OfferedForms(forms[..|forms| - 1], dept);
      assert forms == forms[..|forms| - 1] + [forms[|forms| - 1]];
      if Offered(forms[|forms| - 1], dept) then rest + [forms[|forms| - 1]] else rest
  }

  lemma {:induction false} OfferedIff(forms: seq<Form>, dept: Option<int>, f: Form)
    ensures f in OfferedForms(forms, dept) <==> f in forms && Offered(f, dept)
    decreases |forms|
  {
    if forms != [] {
      OfferedIff(forms[..|forms| - 1], dept, f);
      assert forms == forms[..|forms| - 1] + [forms[|forms| - 1]];
    }
  }

  predicate ByCloseDate(fs: seq<Form>) {
    forall i, j :: 0 <= i < j < |fs| ==> fs[i].closeDate <= fs[j].closeDate
  }

  function InsertByDate(f: Form, fs: seq<Form>): (r: seq<Form>)
    requires ByCloseDate(fs)
    ensures |r| == |fs| + 1 && ByCloseDate(r)
    ensures forall x :: x in r <==> x == f || x in fs
    decreases |fs|
  {
    if fs == [] || f.closeDate <= fs[0].closeDate then
      [f] + fs
    else
      var rest := InsertByDate(f, fs[1..]);
      assert fs == [fs[0]] + fs[1..];
      assert forall k :: 0 <= k < |rest| ==> fs[0].closeDate <= rest[k].closeDate by {
        forall k | 0 <= k < |rest| ensures fs[0].closeDate <= rest[k].closeDate {
          assert rest[k] in rest;
          if rest[k] != f {
            var i :| 0 <= i < |fs[1..]| && fs[1..][i] == rest[k];
            assert fs[1..][i] == fs[i + 1];
          }
        }
      }
      [fs[0]] + rest
  }

  function SortByDate(fs: seq<Form>): (r: seq<Form>)
    ensures |r| == |fs| && ByCloseDate(r)
    ensures forall x :: x in r <==> x in fs
    decreases |fs|
  {
    if fs == [] then []
    else
      assert fs == [fs[0]] + fs[1..];
      InsertByDate(fs[0], SortByDate(fs[1..]))
  }

  /** Inserting adds exactly one copy of the form. */
  lemma {:induction false} InsertAddsOne(f: Form, fs: seq<Form>)
    requires ByCloseDate(fs)
    ensures multiset(InsertByDate(f, fs)) == multiset(fs) + multiset{f}
    decreases |fs|
  {
    if fs != [] && f.closeDate > fs[0].closeDate {
      InsertAddsOne(f, fs[1..]);
      assert fs == [fs[0]] + fs[1..];
    }
  }

  /** Sorting is a permutation. */
  lemma {:induction false} SortIsPermutation(fs: seq<Form>)
    ensures multiset(SortByDate(fs)) == multiset(fs)
    decreases |fs|
  {
    if fs != [] {
      SortIsPermutation(fs[1..]);
      InsertAddsOne(fs[0], SortByDate(fs[1..]));
      assert fs == [fs[0]] + fs[1..];
    }
  }

  /** `get_available_choice_forms`: the open forms of the member's department,
      earliest close date first, each flagged with whether the member has
      already answered it. */
  function Available(forms: seq<Form>, subs: seq<Submission>, staffId: int, dept: Option<int>)
    : (r: seq<(Form, bool)>)
    ensures |r| == |SortByDate(OfferedForms(forms, dept))|
    ensures forall k :: 0 <= k < |r| ==> r[k].0 == SortByDate(OfferedForms(forms, dept))[k]
    ensures forall k :: 0 <= k < |r| ==> (r[k].1 <==> HasSubmitted(subs, r[k].0.id, staffId))
  {
    var sorted := SortByDate(OfferedForms(forms, dept));
    seq(|sorted|, k requires 0 <= k < |sorted| => (sorted[k], HasSubmitted(subs, sorted[k].id, staffId)))
  }

  /** The forms of a listing, without the answered flags. */
  function ListedForms(r: seq<(Form, bool)>): (fs: seq<Form>)
    ensures |fs| == |r| && forall k :: 0 <= k < |r| ==> fs[k] == r[k].0
  {
    seq(|r|, k requires 0 <= k < |r| => r[k].0)
  }

  /** The listing holds the open forms of the member's department, each as
      often as the table holds it, in close-date order. */
  lemma AvailableSpec(forms: seq<Form>, subs: seq<Submission>, staffId: int, dept: Option<int>, f: Form)
    ensures var r := Available(forms, subs, staffId, dept);
            (exists k :: 0 <= k < |r| && r[k].0 == f) <==> f in forms && Offered(f, dept)
    ensures multiset(ListedForms(Available(forms, subs, staffId, dept))) == multiset(OfferedForms(forms, dept))
    ensures var r := Available(forms, subs, staffId, dept);
            forall i, j :: 0 <= i < j < |r| ==> r[i].0.closeDate <= r[j].0.closeDate
    ensures dept.None? ==> Available(forms, subs, staffId, dept) == []
  {
    var offered := OfferedForms(forms, dept);
    var sorted := SortByDate(offered);
    var r := Available(forms, subs, staffId, dept);
    OfferedIff(forms, dept, f);
    SortIsPermutation(offered);
    assert ListedForms(r) == sorted;
    if f in sorted {
      var k :| 0 <= k < |sorted| && sorted[k] == f;
      assert r[k].0 == f;
    }
    if dept.None? {
      assert offered == [];
    }
  }

  // ---------------------------------------------------------------------------
  // A staff member's own timetable

  /** A row of `generated_timetables`; `staffData` is the staff view as stored
      JSON, whose keys are the staff ids printed as text. */
  datatype Generated = Generated(dept: int, kind: string, status: string, createdAt: int,
                                 staffData: map<string, Owned<StaffCell>>)

  predicate ApprovedStaffOf(g: Generated, dept: int) {
    g.dept == dept && g.kind == "staff" && g.status == "approved"
  }

  /** The row `ORDER BY created_at DESC LIMIT 1` picks among the approved staff
      timetables of the department (on equal times, the earliest in the table). */
  function Newest(rows: seq<Generated>, dept: int): (r: Option<Generated>)
    ensures r.Some? ==> r.value in rows && ApprovedStaffOf(r.value, dept)
    ensures r.Some? ==> forall g :: g in rows && ApprovedStaffOf(g, dept) ==> g.createdAt <= r.value.createdAt
    ensures r.None? <==> forall g :: g in rows ==> !ApprovedStaffOf(g, dept)
    decreases |rows|
  {
    if rows == [] then None
    else
      var rest := Newest(rows[1..], dept);
      assert forall g :: g in rows <==> g == rows[0] || g in rows[1..];
      if ApprovedStaffOf(rows[0], dept) && (rest.None? || rest.value.createdAt <= rows[0].createdAt) then Some(rows[0])
      else rest
  }

  /** `get_my_timetable`: the user's entry in the newest approved staff
      timetable of their department, or `{}` (here `None`) when there is no
      such timetable, no department, or no entry for the user. */
  function MyTimetable(rows: seq<Generated>, uid: int, dept: Option<int>): (r: Option<Owned<StaffCell>>)
    ensures r.Some? ==> dept.Some? && Newest(rows, dept.value).Some?
                        && IntText(uid) in Newest(rows, dept.value).value.staffData
  {
    if dept.None? then None
    else
      match Newest(rows, dept.value)
      case None => None
      case Some(g) => if IntText(uid) in g.staffData then Some(g.staffData[IntText(uid)]) else None
  }

  /** The staff view as `json.dumps` stores it, keys printed as text. */
  function AsJson(view: map<int, Owned<StaffCell>>): (m: map<string, Owned<StaffCell>>)
    ensures forall k :: k in view ==> IntText(k) in m && m[IntText(k)] == view[k]
  {
    IntTextInjective();
    map k | k in view :: IntText(k) := view[k]
  }

  /** Reading one's timetable back from a stored staff view gives exactly one's
      own grid, and `{}` for a staff member the view does not mention. */
  lemma MyTimetableFromView(rows: seq<Generated>, uid: int, dept: int, view: map<int, Owned<StaffCell>>)
    requires Newest(rows, dept).Some? && Newest(rows, dept).value.staffData == AsJson(view)
    ensures uid in view ==> MyTimetable(rows, uid, Some(dept)) == Some(view[uid])
    ensures uid !in view ==> MyTimetable(rows, uid, Some(dept)).None?
  {
    IntTextInjective();
  }

  // ---------------------------------------------------------------------------
  // Department queries

  /** The statuses the `department_queries` CHECK constraint admits. */
  datatype QueryStatus = QueryOpen | InProgress | Resolved

  /** The "Open Queries" card: `queries.filter(q => q.status === 'open').length`. */
  function OpenCount(qs: seq<QueryStatus>): (n: nat)
    ensures n <= |qs|
    ensures n == |qs| <==> forall k :: 0 <= k < |qs| ==> qs[k] == QueryOpen
    decreases |qs|
  {
    if qs == [] then 0
    else OpenCount(qs[..|qs| - 1]) + (if qs[|qs| - 1] == QueryOpen then 1 else 0)
  }

  /** The count is the number of open queries. */
  lemma {:induction false} OpenCountIsMultiplicity(qs: seq<QueryStatus>)
    ensures OpenCount(qs) == multiset(qs)[QueryOpen]
    decreases |qs|
  {
    if qs != [] {
      OpenCountIsMultiplicity(qs[..|qs| - 1]);
      assert qs == qs[..|qs| - 1] + [qs[|qs| - 1]];
    }
  }
}
