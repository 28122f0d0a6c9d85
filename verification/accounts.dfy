/** Account handling around the timetable: usernames and credential batches
    (backend/admin_enhancements.py), the main admin's notification form, and
    login, the user record and staff registration (backend/app.py). Password
    generation and hashing are foreign calls, passed in as functions. */
module Accounts {
  import opened Common
  import opened Text
  import Selection

  // ---------------------------------------------------------------------------
  // Usernames

  /** `email.split('@')[0].lower()`. */
  function Username(email: string): (u: string)
    ensures '@' !in u && IsLowerCase(u) && |u| <= |email|
  {
    SplitHead(email, '@');
    LowerIsLower(Split(email, '@')[0]);
    Lower(Split(email, '@')[0])
  }

  /** The username is the lower-cased text before the first '@'. */
  lemma UsernameOfAddress(local: string, domain: string)
    requires '@' !in local
    ensures Username(local + "@" + domain) == Lower(local)
  {
    SplitCons(local, domain, '@');
  }

  /** An address without '@' gives the whole address, lower-cased. */
  lemma UsernameWithoutAt(email: string)
    requires '@' !in email
    ensures Username(email) == Lower(email)
  {
    SplitPlain(email, '@');
  }

  // ---------------------------------------------------------------------------
  // Credential batches

  /** The `users` columns these routes read; `passwordHash` is `None` when NULL. */
  datatype User = User(
    id: int,
    name: string,
    email: string,
    role: string,
    passwordHash: Option<string>,
    dept: Option<int>,
    deptName: Option<string>,
    staffRole: Option<string>,
    selected: Option<string>,
    locked: bool)

  /** A row of `credentials_export`. */
  datatype Credential = Credential(userId: int, username: string, password: string, exported: bool)

  datatype AdminError = AccessDenied | NothingToExport

  predicate IsMainAdmin(role: Option<string>) {
    role == Some("main_admin")
  }

  predicate HasCredential(creds: seq<Credential>, id: int) {
    exists k :: 0 <= k < |creds| && creds[k].userId == id
  }

  /** A staff member or department admin with no exported-credential row and
      no password hash. */
  predicate Candidate(creds: seq<Credential>, u: User) {
    (u.role == "staff" || u.role == "dept_admin") && !HasCredential(creds, u.id) && u.passwordHash.None?
  }

  function CandidatesOf(users: seq<User>, creds: seq<Credential>): (r: seq<User>)
    ensures |r| <= |users|
    ensures forall u :: u in r <==> u in users && Candidate(creds, u)
    decreases |users|
  {
    if users == [] then []
    else
      var rest := CandidatesOf(users[..|users| - 1], creds);
      assert users == users[..|users| - 1] + [users[|users| - 1]];
      if Candidate(creds, users[|users| - 1]) then rest + [users[|users| - 1]] else rest
  }

  lemma {:induction false} NoCandidates(users: seq<User>, creds: seq<Credential>)
    requires forall k :: 0 <= k < |users| ==> !Candidate(creds, users[k])
    ensures CandidatesOf(users, creds) == []
    decreases |users|
  {
    if users != [] {
      NoCandidates(users[..|users| - 1], creds);
    }
  }

  /** The users table after every candidate got the hash of their password. */
  function WithHashes(users: seq<User>, creds: seq<Credential>, password: int -> string, hash: string -> string)
    : (r: seq<User>)
    ensures |r| == |users|
    ensures forall k :: 0 <= k < |r| ==>
              r[k] == if Candidate(creds, users[k]) then users[k].(passwordHash := Some(hash(password(users[k].id))))
                      else users[k]
    decreases |users|
  {
    if users == [] then []
    else
      var u := users[|users| - 1];
      WithHashes(users[..|users| - 1], creds, password, hash)
        + [if Candidate(creds, u) then u.(passwordHash := Some(hash(password(u.id)))) else u]
  }

  function NewCredentials(cands: seq<User>, password: int -> string): (r: seq<Credential>)
    ensures |r| == |cands|
    ensures forall k :: 0 <= k < |r| ==>
              r[k] == Credential(cands[k].id, Username(cands[k].email), password(cands[k].id), false)
    decreases |cands|
  {
    if cands == [] then []
    else
      var u := cands[|cands| - 1];
      NewCredentials(cands[..|cands| - 1], password)
        + [Credential(u.id, Username(u.email), password(u.id), false)]
  }

  datatype Batch = Batch(users: seq<User>, creds: seq<Credential>, count: int)

  /** `generate_credentials`: main admins only. Each candidate, chosen before
      the loop, gets a generated password whose hash is stored and an
      unexported credential row; the count is the number of candidates. The
      password generator (`password`) and SHA-256 (`hash`) are parameters. */
  function GenerateCredentials(role: Option<string>, users: seq<User>, creds: seq<Credential>,
                               password: int -> string, hash: string -> string): (r: Result<Batch, AdminError>)
    ensures r.Ok? <==> IsMainAdmin(role)
    ensures r.Ok? ==> r.value.count == |CandidatesOf(users, creds)|
    ensures r.Ok? ==> |r.value.creds| == |creds| + r.value.count && r.value.creds[..|creds|] == creds
  {
    if !IsMainAdmin(role) then Err(AccessDenied)
    else
      var cands := CandidatesOf(users, creds);
      Ok(Batch(WithHashes(users, creds, password, hash), creds + NewCredentials(cands, password), |cands|))
  }

  /** A second batch right after the first finds nobody left: every former
      candidate now has a password hash and a credential row. */
  lemma SecondBatchIsEmpty(role: Option<string>, users: seq<User>, creds: seq<Credential>,
                           password: int -> string, hash: string -> string)
    requires GenerateCredentials(role, users, creds, password, hash).Ok?
    ensures var b := GenerateCredentials(role, users, creds, password, hash).value;
            CandidatesOf(b.users, b.creds) == []
  {
    var b := GenerateCredentials(role, users, creds, password, hash).value;
    forall k | 0 <= k < |b.users|
      ensures !Candidate(b.creds, b.users[k])
    {
      if !Candidate(creds, users[k]) && HasCredential(creds, users[k].id) {
        var j :| 0 <= j < |creds| && creds[j].userId == users[k].id;
        assert b.creds[j] == creds[j];
      }
    }
    NoCandidates(b.users, b.creds);
  }

  /** Only candidates change, and each new credential row belongs to a
      candidate, under the candidate's username, unexported. */
  lemma BatchTouchesOnlyCandidates(role: Option<string>, users: seq<User>, creds: seq<Credential>,
                                   password: int -> string, hash: string -> string, k: int)
    requires GenerateCredentials(role, users, creds, password, hash).Ok? && 0 <= k < |users|
    ensures var b := GenerateCredentials(role, users, creds, password, hash).value;
            (!Candidate(creds, users[k]) ==> b.users[k] == users[k])
            && (Candidate(creds, users[k]) ==> b.users[k].passwordHash.Some? && b.users[k].id == users[k].id)
    ensures var b := GenerateCredentials(role, users, creds, password, hash).value;
            forall j :: |creds| <= j < |b.creds| ==>
              !b.creds[j].exported
              && exists u :: u in users && Candidate(creds, u) && b.creds[j].userId == u.id
                             && b.creds[j].username == Username(u.email)
  {
    var b := GenerateCredentials(role, users, creds, password, hash).value;
    var cands := CandidatesOf(users, creds);
    forall j | |creds| <= j < |b.creds|
      ensures !b.creds[j].exported
              && exists u :: u in users && Candidate(creds, u) && b.creds[j].userId == u.id
                             && b.creds[j].username == Username(u.email)
    {
      var u := cands[j - |creds|];
      assert u in cands;
    }
  }

  /** The spreadsheet rows and the credential table after `export_credentials`. */
  datatype Export = Export(sheet: seq<Credential>, creds: seq<Credential>)

  predicate HasUser(users: seq<User>, id: int) {
    exists k :: 0 <= k < |users| && users[k].id == id
  }

  /** The unexported rows that join to a user: the rows of the sheet. */
  function Unexported(creds: seq<Credential>, users: seq<User>): (r: seq<Credential>)
    ensures forall c :: c in r <==> c in creds && !c.exported && HasUser(users, c.userId)
    decreases |creds|
  {
    if creds == [] then []
    else
      var c := creds[|creds| - 1];
      var rest := Unexported(creds[..|creds| - 1], users);
      assert creds == creds[..|creds| - 1] + [c];
      if !c.exported && HasUser(users, c.userId) then rest + [c] else rest
  }

  function MarkAll(creds: seq<Credential>): (r: seq<Credential>)
    ensures |r| == |creds|
    ensures forall k :: 0 <= k < |r| ==> r[k] == creds[k].(exported := true)
    decreases |creds|
  {
    if creds == [] then [] else MarkAll(creds[..|creds| - 1]) + [creds[|creds| - 1].(exported := true)]
  }

  /** `export_credentials`: main admins only; with no unexported row to show
      the answer is 404; otherwise the sheet lists those rows and every
      unexported row is then marked exported. */
  function ExportCredentials(role: Option<string>, users: seq<User>, creds: seq<Credential>)
    : (r: Result<Export, AdminError>)
    ensures !IsMainAdmin(role) ==> r == Err(AccessDenied)
    ensures IsMainAdmin(role) ==> (r == Err(NothingToExport) <==> Unexported(creds, users) == [])
  {
    if !IsMainAdmin(role) then Err(AccessDenied)
    else
      var sheet := Unexported(creds, users);
      if sheet == [] then Err(NothingToExport) else Ok(Export(sheet, MarkAll(creds)))
  }

  /** After an export every row is marked, so a second export has nothing to show. */
  lemma ExportOnce(role: Option<string>, users: seq<User>, creds: seq<Credential>)
    requires ExportCredentials(role, users, creds).Ok?
    ensures forall k :: 0 <= k < |creds| ==> ExportCredentials(role, users, creds).value.creds[k].exported
    ensures ExportCredentials(role, users, ExportCredentials(role, users, creds).value.creds) == Err(NothingToExport)
  {
    var marked := ExportCredentials(role, users, creds).value.creds;
    if Unexported(marked, users) != [] {
      var c := Unexported(marked, users)[0];
      assert c in marked;
    }
  }

  // ---------------------------------------------------------------------------
  // Notifications

  datatype Notification = Notification(title: string, message: string, recipientType: string, createdBy: int)

  datatype NotifyError = NotifyDenied | FieldsRequired | InvalidRecipient | NotifyFailed

  const RecipientTypes: seq<string> := ["staff", "dept_admin", "all"]

  /** `data.get(key, '').strip()`: a `null` value makes `.strip()` raise. */
  function StrippedField(f: Json<string>): Option<string> {
    match f
    case Absent => Some("")
    case Null => None
    case Given(s) => Some(Strip(Python, s))
  }

  /** `send_notification` (POST): main admins only; title and message are
      stripped, and with either of them, or the recipient type, empty the
      request is rejected, as is a recipient type outside the three known. */
  function SendNotification(role: Option<string>, uid: int, title: Json<string>, message: Json<string>,
                            recipient: Json<string>): (r: Result<Notification, NotifyError>)
    ensures r.Ok? ==> r.value.title != [] && r.value.message != [] && r.value.recipientType in RecipientTypes
    ensures r.Ok? ==> title.Given? && message.Given? && recipient.Given?
    ensures r.Ok? ==> r.value.title == Strip(Python, title.value) && r.value.message == Strip(Python, message.value)
  {
    if !IsMainAdmin(role) then Err(NotifyDenied)
    else
      var t := StrippedField(title);
      var m := StrippedField(message);
      if t.None? || m.None? then Err(NotifyFailed)
      else if t.value == [] || m.value == [] || !recipient.Given? || recipient.value == [] then Err(FieldsRequired)
      else if recipient.value !in RecipientTypes then Err(InvalidRecipient)
      else Ok(Notification(t.value, m.value, recipient.value, uid))
  }

  /** A field is filled after stripping exactly when it was given and not blank. */
  lemma FieldFilled(f: Json<string>)
    ensures (StrippedField(f).Some? && StrippedField(f).value != []) <==> f.Given? && !AllSpace(Python, f.value)
  {
    if f.Given? {
      StripEmptyIff(Python, f.value);
    }
  }

  /** Exactly the requests with non-blank title and message and a known
      recipient type are accepted. */
  lemma NotificationAccepts(role: Option<string>, uid: int, title: Json<string>, message: Json<string>,
                            recipient: Json<string>)
    requires IsMainAdmin(role)
    ensures SendNotification(role, uid, title, message, recipient).Ok? <==>
              title.Given? && !AllSpace(Python, title.value) && message.Given? && !AllSpace(Python, message.value)
              && recipient.Given? && recipient.value in RecipientTypes
  {
    FieldFilled(title);
    FieldFilled(message);
  }

  // ---------------------------------------------------------------------------
  // Login and the user record

  /** The user object `login` and `verify_token` return. */
  datatype UserRecord = UserRecord(
    id: string,
    name: string,
    email: string,
    role: string,
    dept: Option<string>,
    staffRole: Option<string>,
    subjects: seq<string>,
    locked: bool,
    deptName: Option<string>)

  /** The user object built from a row: ids as text, a department id that is
      NULL or 0 as `None`, and the selected subjects split on ','. */
  function RecordOf(u: User): (r: UserRecord)
    ensures r.dept.None? <==> u.dept.None? || u.dept.value == 0
    ensures r.subjects == [] <==> u.selected.None? || u.selected.value == []
  {
    UserRecord(IntText(u.id), u.name, u.email, u.role,
               if u.dept.Some? && u.dept.value != 0 then Some(IntText(u.dept.value)) else None,
               u.staffRole, Selection.Decode(u.selected), u.locked, u.deptName)
  }

  /** The record keeps what the row says: distinct users and distinct
      departments print differently, and the subject list joins back to the
      stored text. */
  lemma RecordFaithful(u: User, v: User)
    ensures RecordOf(u).id == RecordOf(v).id ==> u.id == v.id
    ensures RecordOf(u).dept.Some? && RecordOf(u).dept == RecordOf(v).dept ==> u.dept == v.dept
    ensures u.selected.Some? ==> Join(RecordOf(u).subjects, ',') == u.selected.value
  {
    IntTextInjective();
    if u.selected.Some? {
      Selection.JoinDecode(u.selected.value);
    }
  }

  datatype LoginError = MissingFields | InvalidCredentials | LoginFailed

  /** `data.get('email', '').strip().lower()`. */
  function NormalEmail(e: string): string {
    Lower(Strip(Python, e))
  }

  /** The first user with exactly this address (addresses are unique). */
  function FindByEmail(users: seq<User>, email: string): (r: Option<User>)
    ensures r.Some? ==> r.value in users && r.value.email == email
    ensures r.None? <==> forall k :: 0 <= k < |users| ==> users[k].email != email
    decreases |users|
  {
    if users == [] then None
    else if users[0].email == email then Some(users[0])
    else
      var rest := FindByEmail(users[1..], email);
      assert forall k :: 1 <= k < |users| ==> users[k] == users[1..][k - 1];
      rest
  }

  /** The password check for an already normalised address: an unknown
      address and a wrong password both give 401; a NULL stored hash makes
      the hash check raise. `check` is `check_password_hash`. */
  function Authenticate(users: seq<User>, e: string, p: string, check: (string, string) -> bool)
    : (r: Result<UserRecord, LoginError>)
    ensures r.Ok? <==> exists u :: FindByEmail(users, e) == Some(u) && u.passwordHash.Some? && check(u.passwordHash.value, p)
  {
    match FindByEmail(users, e)
    case None => Err(InvalidCredentials)
    case Some(u) =>
      if u.passwordHash.None? then Err(LoginFailed)
      else if !check(u.passwordHash.value, p) then Err(InvalidCredentials)
      else Ok(RecordOf(u))
  }

  /** `login`: the address is trimmed and lower-cased, and a missing address
      or password is a 400 (a `null` address makes `.strip()` raise). */
  function Login(users: seq<User>, email: Json<string>, password: Json<string>,
                 check: (string, string) -> bool): (r: Result<UserRecord, LoginError>)
    ensures r.Ok? ==> email.Given? && password.Given?
    ensures email.Null? ==> r == Err(LoginFailed)
    ensures !email.Null? ==>
              (r == Err(MissingFields) <==>
                 email.Absent? || AllSpace(Python, email.value) || !password.Given? || password.value == [])
    ensures !email.Null? && r != Err(MissingFields) ==>
              r == Authenticate(users, NormalEmail(email.value), password.value, check)
  {
    if email.Null? then Err(LoginFailed)
    else
      var e := if email.Given? then StripEmptyIff(Python, email.value); NormalEmail(email.value) else "";
      var p := if password.Given? then password.value else "";
      if e == [] || p == [] then Err(MissingFields)
      else Authenticate(users, e, p, check)
  }

  /** Normalising an address twice is normalising it once. */
  lemma NormalEmailIdempotent(e: string)
    ensures NormalEmail(NormalEmail(e)) == NormalEmail(e)
  {
    var s := Strip(Python, e);
    var l := Lower(s);
    if l != [] {
      LowerCharSpace(Python, s[0]);
      LowerCharSpace(Python, s[|s| - 1]);
    }
    StripClean(Python, l);
    LowerIsLower(s);
  }

  /** Addresses that differ only in case or surrounding whitespace log in alike. */
  lemma LoginIgnoresCaseAndSpace(users: seq<User>, e1: string, e2: string, password: Json<string>,
                                 check: (string, string) -> bool)
    requires NormalEmail(e1) == NormalEmail(e2)
    ensures Login(users, Given(e1), password, check) == Login(users, Given(e2), password, check)
  {
  }

  /** Nothing tells an unknown address from a wrong password. */
  lemma LoginHidesWhichWasWrong(users: seq<User>, email: string, password: string,
                                check: (string, string) -> bool)
    requires NormalEmail(email) != [] && password != []
    ensures (forall k :: 0 <= k < |users| ==> users[k].email != NormalEmail(email)) ==>
              Login(users, Given(email), Given(password), check) == Err(InvalidCredentials)
    ensures forall u :: u in users && u.email == NormalEmail(email) && u.passwordHash.Some?
                        && !check(u.passwordHash.value, password)
                        && (forall k :: 0 <= k < |users| && users[k].email == NormalEmail(email) ==> users[k] == u) ==>
              Login(users, Given(email), Given(password), check) == Err(InvalidCredentials)
  {
  }

  /** A successful login returns the record of the user with that address. */
  lemma LoginReturnsOwnRecord(users: seq<User>, email: Json<string>, password: Json<string>,
                              check: (string, string) -> bool)
    requires Login(users, email, password, check).Ok?
    ensures exists u :: u in users && u.email == NormalEmail(email.value) && u.passwordHash.Some?
                        && check(u.passwordHash.value, password.value)
                        && Login(users, email, password, check).value == RecordOf(u)
  {
    var u := FindByEmail(users, NormalEmail(email.value)).value;
    assert u in users;
  }

  datatype VerifyError = UserNotFound

  /** `verify_token`: the record of the user the token names. */
  function VerifyToken(users: seq<User>, id: int): (r: Result<UserRecord, VerifyError>)
    ensures r.Err? <==> forall k :: 0 <= k < |users| ==> users[k].id != id
    ensures r.Ok? ==> exists k :: 0 <= k < |users| && users[k].id == id && r.value == RecordOf(users[k])
    decreases |users|
  {
    if users == [] then Err(UserNotFound)
    else if users[0].id == id then Ok(RecordOf(users[0]))
    else
      var rest := VerifyToken(users[1..], id);
      assert forall k :: 1 <= k < |users| ==> users[k] == users[1..][k - 1];
      rest
  }

  predicate UniqueIds(users: seq<User>) {
    forall i, j :: 0 <= i < j < |users| ==> users[i].id != users[j].id
  }

  /** With ids unique, as the primary key makes them, the token issued at
      login brings back the very record login returned. */
  lemma VerifyAfterLogin(users: seq<User>, email: Json<string>, password: Json<string>,
                         check: (string, string) -> bool)
    requires UniqueIds(users) && Login(users, email, password, check).Ok?
    ensures exists u :: u in users && VerifyToken(users, u.id) == Ok(Login(users, email, password, check).value)
  {
    LoginReturnsOwnRecord(users, email, password, check);
    var u :| u in users && u.email == NormalEmail(email.value) && u.passwordHash.Some?
             && check(u.passwordHash.value, password.value)
             && Login(users, email, password, check).value == RecordOf(u);
    var r := VerifyToken(users, u.id);
    var i :| 0 <= i < |users| && users[i] == u;
    var k :| 0 <= k < |users| && users[k].id == u.id && r.value == RecordOf(users[k]);
    assert k == i;
  }

  // ---------------------------------------------------------------------------
  // Staff registration

  /** The eight fields of the staff registration form. */
  datatype StaffForm = StaffForm(
    name: Json<string>, employeeId: Json<string>, college: Json<string>, faculty: Json<string>,
    campus: Json<string>, contact: Json<string>, email: Json<string>, staffRole: Json<string>)

  /** A row of `staff_registrations`. */
  datatype Registration = Registration(
    name: string, employeeId: string, college: string, faculty: string, campus: string,
    contact: string, email: string, username: string, password: string, staffRole: string,
    registered: bool)

  datatype Issued = Issued(username: string, password: string)

  datatype RegisterError = AllFieldsRequired | InvalidRole | AlreadyRegistered | RegisterFailed

  const StaffRoles: seq<string> :=
    ["hod", "associate_professor", "assistant_professor", "professor", "professor_sg", "vp", "dean"]

  /** A truthy text: given and non-empty. */
  predicate Filled(f: Json<string>) {
    f.Given? && f.value != []
  }

  predicate AllFilled(f: StaffForm) {
    Filled(f.name) && Filled(f.employeeId) && Filled(f.college) && Filled(f.faculty)
    && Filled(f.campus) && Filled(f.contact) && Filled(f.email) && Filled(f.staffRole)
  }

  /** The validation `register_staff` performs before it builds credentials. */
  function ValidateForm(f: StaffForm): (r: Option<RegisterError>)
    ensures r.None? <==> AllFilled(f) && f.staffRole.value in StaffRoles
    ensures r == Some(InvalidRole) <==> AllFilled(f) && f.staffRole.value !in StaffRoles
  {
    if !AllFilled(f) then Some(AllFieldsRequired)
    else if f.staffRole.value !in StaffRoles then Some(InvalidRole)
    else None
  }

  /** `register_staff` as written: after validation it calls
      `random.choices(string.ascii_letters + string.digits, k=8)`, but the
      module imports neither `random` nor `string`, so the name lookup raises
      and the generic handler answers 500. */
  function RegisterStaffAsWritten(regs: seq<Registration>, f: StaffForm)
    : (r: Result<(seq<Registration>, Issued), RegisterError>)
    ensures r.Err?
    ensures ValidateForm(f).Some? ==> r == Err(ValidateForm(f).value)
  {
    match ValidateForm(f)
    case Some(e) => Err(e)
    case None => Err(RegisterFailed)
  }

  /** A complete, valid form for a fresh address still fails. */
  lemma RegistrationAlwaysFails()
    ensures var f := StaffForm(Given("Asha"), Given("E1"), Given("SRM"), Given("CSE"), Given("KTR"),
                               Given("99"), Given("asha@srm.edu"), Given("professor"));
            ValidateForm(f).None? && RegisterStaffAsWritten([], f) == Err(RegisterFailed)
  {
  }

  predicate Taken(regs: seq<Registration>, email: string, username: string) {
    exists k :: 0 <= k < |regs| && (regs[k].email == email || regs[k].username == username)
  }

  /** `register_staff` with the two modules imported: the username is the part
      of the address before '@', kept as typed; `password` is the generated
      password; a repeated address or username violates a UNIQUE column and
      answers 409. */
  function RegisterStaff(regs: seq<Registration>, f: StaffForm, password: string)
    : (r: Result<(seq<Registration>, Issued), RegisterError>)
    ensures ValidateForm(f).Some? ==> r == Err(ValidateForm(f).value)
    ensures ValidateForm(f).None? ==>
              (r == Err(AlreadyRegistered) <==> Taken(regs, f.email.value, Split(f.email.value, '@')[0]))
    ensures r.Ok? ==> r.value.1 == Issued(Split(f.email.value, '@')[0], password)
  {
    match ValidateForm(f)
    case Some(e) => Err(e)
    case None =>
      var username := Split(f.email.value, '@')[0];
      if Taken(regs, f.email.value, username) then Err(AlreadyRegistered)
      else
        var row := Registration(f.name.value, f.employeeId.value, f.college.value, f.faculty.value,
                                f.campus.value, f.contact.value, f.email.value, username, password,
                                f.staffRole.value, false);
        Ok((regs + [row], Issued(username, password)))
  }

  predicate UniqueRegistrations(regs: seq<Registration>) {
    forall i, j :: 0 <= i < j < |regs| ==> regs[i].email != regs[j].email && regs[i].username != regs[j].username
  }

  /** A valid form for an unused address and username registers, storing one
      unregistered row with the form's values, and keeps addresses and
      usernames unique. */
  lemma RegisterStaffAppends(regs: seq<Registration>, f: StaffForm, password: string)
    requires UniqueRegistrations(regs) && ValidateForm(f).None?
    requires !Taken(regs, f.email.value, Split(f.email.value, '@')[0])
    ensures RegisterStaff(regs, f, password).Ok?
    ensures var after := RegisterStaff(regs, f, password).value.0;
            |after| == |regs| + 1 && after[..|regs|] == regs
            && after[|regs|].email == f.email.value && after[|regs|].staffRole == f.staffRole.value
            && after[|regs|].password == password && !after[|regs|].registered
            && UniqueRegistrations(after)
  {
    var after := RegisterStaff(regs, f, password).value.0;
    assert after[..|regs|] == regs;
  }

  /** The issued username is the address's local part, without any '@'. */
  lemma IssuedUsername(regs: seq<Registration>, local: string, domain: string, f: StaffForm, password: string)
    requires '@' !in local && f.email == Given(local + "@" + domain)
    requires RegisterStaff(regs, f, password).Ok?
    ensures RegisterStaff(regs, f, password).value.1.username == local
  {
    SplitCons(local, domain, '@');
  }
}
