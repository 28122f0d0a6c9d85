/** The one-shot subject selection of backend/api_routes.py
    (`select_subjects`) and the comma-joined `subjects_selected` column it
    writes, which the staff listing and the user record decode again. */
module Selection {
  import opened Common
  import opened Text

  /** An item of the request's `subject_ids` list, which `str` turns into text. */
  datatype IdItem = Num(n: int) | Word(w: string)

  /** `str(item)`. */
  function IdText(x: IdItem): string {
    match x
    case Num(n) => IntText(n)
    case Word(w) => w
  }

  function IdTexts(ids: seq<IdItem>): (r: seq<string>)
    ensures |r| == |ids|
    ensures forall k :: 0 <= k < |ids| ==> r[k] == IdText(ids[k])
  {
    if ids == [] then [] else [IdText(ids[0])] + IdTexts(ids[1..])
  }

  /** `','.join(map(str, subject_ids))`. */
  function Encode(ids: seq<IdItem>): string {
    Join(IdTexts(ids), ',')
  }

  /** `s.split(',') if s else []`: a NULL or empty column is the empty list. */
  function Decode(s: Option<string>): (ids: seq<string>)
    ensures s.None? || s.value == [] <==> ids == []
    ensures forall k :: 0 <= k < |ids| ==> ',' !in ids[k]
  {
    if s.None? || s.value == [] then [] else Split(s.value, ',')
  }

  /** The stored text is always recovered by joining its decoded pieces. */
  lemma JoinDecode(s: string)
    ensures Join(Decode(Some(s)), ',') == s
  {
    if s != [] {
      JoinSplit(s, ',');
    }
  }

  /** A printed integer has no comma. */
  lemma IntTextNoComma(i: int)
    ensures ',' !in IntText(i)
  {
    var digits := NatText(if i < 0 then -i else i);
    assert forall k :: 0 <= k < |digits| ==> digits[k] != ',';
    if i < 0 {
      assert IntText(i) == "-" + digits;
    }
  }

  /** A list of ids round-trips through the column as long as no item's text
      contains a comma and the list is not one empty text (which stores the
      empty text, read back as no ids). Integer ids always qualify. */
  ghost predicate Encodable(ids: seq<IdItem>) {
    (forall k :: 0 <= k < |ids| ==> ',' !in IdText(ids[k]))
    && !(|ids| == 1 && IdText(ids[0]) == [])
  }

  lemma DecodeEncode(ids: seq<IdItem>)
    requires Encodable(ids)
    ensures Decode(Some(Encode(ids))) == IdTexts(ids)
  {
    var parts := IdTexts(ids);
    if ids != [] {
      SplitJoin(parts, ',');
      if |ids| > 1 {
        assert |Encode(ids)| >= |parts[0]| + 1;
      }
    }
  }

  /** The one list that does not round-trip although it has no comma. */
  lemma SingleEmptyIsLost()
    ensures Decode(Some(Encode([Word("")]))) == []
  {
  }

  lemma NumbersEncodable(ids: seq<IdItem>)
    requires forall k :: 0 <= k < |ids| ==> ids[k].Num?
    ensures Encodable(ids)
  {
    forall k | 0 <= k < |ids| ensures ',' !in IdText(ids[k]) {
      IntTextNoComma(ids[k].n);
    }
    if |ids| == 1 {
      assert |IdText(ids[0])| >= 1;
    }
  }

  /** The columns of a `users` row that selection reads and writes. */
  datatype Account = Account(staffRole: Option<string>, selected: Option<string>, locked: bool)

  datatype SelectError = IdsRequired | UserNotFound | AlreadyLocked | TooMany(max: int)

  /** Two subjects for an assistant professor, one for any other role. */
  function MaxSubjects(role: Option<string>): (m: int)
    ensures m == 1 || m == 2
    ensures m == 2 <==> role == Some("assistant_professor")
  {
    if role == Some("assistant_professor") then 2 else 1
  }

  /** `not data.get('subject_ids')`: missing, null or an empty list. */
  predicate NoIds(ids: Json<seq<IdItem>>) {
    !ids.Given? || ids.value == []
  }

  /** `select_subjects` for user `uid`: the checks in the handler's order, then
      the selection is stored and the user locked. */
  function Select(users: map<int, Account>, uid: int, ids: Json<seq<IdItem>>): (r: Result<map<int, Account>, SelectError>)
    ensures r.Ok? <==> !NoIds(ids) && uid in users && !users[uid].locked && |ids.value| <= MaxSubjects(users[uid].staffRole)
    ensures r.Ok? ==> uid in r.value && r.value[uid].locked && r.value.Keys == users.Keys
    ensures r.Ok? ==> forall u :: u in users && u != uid ==> r.value[u] == users[u]
    ensures r.Ok? ==> r.value[uid].staffRole == users[uid].staffRole
  {
    if NoIds(ids) then Err(IdsRequired)
    else if uid !in users then Err(UserNotFound)
    else if users[uid].locked then Err(AlreadyLocked)
    else if |ids.value| > MaxSubjects(users[uid].staffRole) then Err(TooMany(MaxSubjects(users[uid].staffRole)))
    else Ok(users[uid := users[uid].(selected := Some(Encode(ids.value)), locked := true)])
  }

  /** Each rejection names the first check that fails. */
  lemma SelectErrors(users: map<int, Account>, uid: int, ids: Json<seq<IdItem>>)
    ensures NoIds(ids) ==> Select(users, uid, ids) == Err(IdsRequired)
    ensures !NoIds(ids) && uid !in users ==> Select(users, uid, ids) == Err(UserNotFound)
    ensures !NoIds(ids) && uid in users && users[uid].locked ==> Select(users, uid, ids) == Err(AlreadyLocked)
    ensures !NoIds(ids) && uid in users && !users[uid].locked && |ids.value| > MaxSubjects(users[uid].staffRole) ==>
              Select(users, uid, ids) == Err(TooMany(MaxSubjects(users[uid].staffRole)))
  {
  }

  /** After a successful selection the user's column decodes to the chosen ids. */
  lemma SelectedReadsBack(users: map<int, Account>, uid: int, ids: Json<seq<IdItem>>)
    requires Select(users, uid, ids).Ok? && Encodable(ids.value)
    ensures Decode(Select(users, uid, ids).value[uid].selected) == IdTexts(ids.value)
  {
    DecodeEncode(ids.value);
  }

  /** A sequence of selection requests, each by some user; a rejected request
      leaves the table as it was. */
  function Replay(users: map<int, Account>, reqs: seq<(int, Json<seq<IdItem>>)>): (out: map<int, Account>)
    ensures out.Keys == users.Keys
    decreases |reqs|
  {
    if reqs == [] then users
    else
      var r := Select(users, reqs[0].0, reqs[0].1);
      Replay(if r.Ok? then r.value else users, reqs[1..])
  }

  /** Nothing clears the lock: once a user is locked, every later request
      leaves the lock and the stored selection as they are. */
  lemma {:induction false} LockIsFinal(users: map<int, Account>, reqs: seq<(int, Json<seq<IdItem>>)>, uid: int)
    requires uid in users && users[uid].locked
    ensures uid in Replay(users, reqs)
    ensures Replay(users, reqs)[uid] == users[uid]
    decreases |reqs|
  {
    if reqs != [] {
      var r := Select(users, reqs[0].0, reqs[0].1);
      var next := if r.Ok? then r.value else users;
      assert next[uid] == users[uid];
      LockIsFinal(next, reqs[1..], uid);
    }
  }
}
