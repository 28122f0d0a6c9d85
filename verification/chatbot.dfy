/** The three keyword help bots: the main admin's backend route
    (`chatbot_query` in backend/admin_enhancements.py) and the two dashboard
    handlers (`handleChatQuery` in src/pages/EnhancedStaffDashboard.tsx and
    src/pages/EnhancedDepartmentAdminDashboard.tsx). Each lower-cases the
    query and answers with the reply of the first keyword, in table order,
    that occurs in it, or with the help reply. Replies are fixed texts, one
    per keyword, so a reply is identified here by its keyword. */
module Chatbot {
  import opened Common
  import opened Text

  const HelpKey: string := "help"

  /** Keyword order of the main admin's route. */
  const AdminKeys: seq<string> := ["credentials", "analytics", "notifications", "syllabus", "timetables", "help"]
  /** Keyword order of the staff dashboard. */
  const StaffKeys: seq<string> := ["choice", "timetable", "submission", "deadline", "help"]
  /** Keyword order of the department admin dashboard. */
  const DeptKeys: seq<string> := ["staff", "constraint", "choice", "timetable", "query", "help"]

  /** The position of the first keyword occurring in `text`, if any. */
  function FirstMatch(keys: seq<string>, text: string): (r: Option<nat>)
    ensures r.Some? ==> r.value < |keys| && Contains(text, keys[r.value])
    decreases |keys|
  {
    if keys == [] then None
    else if Contains(text, keys[0]) then Some(0)
    else match FirstMatch(keys[1..], text)
      case None => None
      case Some(i) => Some(i + 1)
  }

  /** No match means no keyword occurs; a match is the first keyword that does. */
  lemma {:induction false} FirstMatchSpec(keys: seq<string>, text: string)
    ensures FirstMatch(keys, text).None? <==> forall k :: 0 <= k < |keys| ==> !Contains(text, keys[k])
    ensures FirstMatch(keys, text).Some? ==>
              forall k :: 0 <= k < FirstMatch(keys, text).value ==> !Contains(text, keys[k])
    decreases |keys|
  {
    if keys != [] && !Contains(text, keys[0]) {
      FirstMatchSpec(keys[1..], text);
      assert forall k :: 1 <= k < |keys| ==> keys[k] == keys[1..][k - 1];
    }
  }

  /** The keyword whose reply is given for an already lower-cased text. */
  function Topic(keys: seq<string>, text: string): (k: string)
    ensures k == HelpKey || k in keys
  {
    match FirstMatch(keys, text)
    case None => HelpKey
    case Some(i) => keys[i]
  }

  datatype ChatError = AccessDenied | QueryRequired | ServerError

  /** `chatbot_query`: main admins only; the query defaults to empty text
      (a `null` query makes `.strip()` raise); a query that strips to nothing
      is rejected; otherwise the stripped query is lower-cased and matched. */
  function AdminChat(role: Option<string>, query: Json<string>): (r: Result<string, ChatError>)
    ensures r.Ok? ==> r.value in AdminKeys
  {
    if role != Some("main_admin") then Err(AccessDenied)
    else
      match query
      case Null => Err(ServerError)
      case Absent => Err(QueryRequired)
      case Given(q) => if Strip(Python, q) == [] then Err(QueryRequired) else Ok(Topic(AdminKeys, Lower(Strip(Python, q))))
  }

  /** `handleChatQuery` on either dashboard: a query that trims to nothing is
      ignored (`None`); otherwise the untrimmed query is lower-cased and matched. */
  function DashboardChat(keys: seq<string>, query: string): (r: Option<string>)
    ensures r.Some? ==> r.value == HelpKey || r.value in keys
  {
    if Strip(JavaScript, query) == [] then None else Some(Topic(keys, Lower(query)))
  }

  /** The staff dashboard's bot: blank queries get no reply; any other reply
      is one of its own keywords. */
  function StaffChat(query: string): (r: Option<string>)
    ensures r.None? <==> AllSpace(JavaScript, query)
    ensures r.Some? ==> r.value in StaffKeys
  {
    StripEmptyIff(JavaScript, query);
    DashboardChat(StaffKeys, query)
  }

  /** The department admin dashboard's bot, likewise with its own table. */
  function DeptChat(query: string): (r: Option<string>)
    ensures r.None? <==> AllSpace(JavaScript, query)
    ensures r.Some? ==> r.value in DeptKeys
  {
    StripEmptyIff(JavaScript, query);
    DashboardChat(DeptKeys, query)
  }

  /** The admin route answers exactly the main admin's non-blank queries. */
  lemma AdminChatAccepts(role: Option<string>, query: Json<string>)
    ensures AdminChat(role, query).Ok? <==> role == Some("main_admin") && query.Given? && !AllSpace(Python, query.value)
    ensures role == Some("main_admin") && (query.Absent? || (query.Given? && AllSpace(Python, query.value))) ==>
              AdminChat(role, query) == Err(QueryRequired)
  {
    if query.Given? {
      StripEmptyIff(Python, query.value);
    }
  }

  /** The dashboards ignore exactly the blank queries. */
  lemma DashboardIgnoresBlank(keys: seq<string>, query: string)
    ensures DashboardChat(keys, query).None? <==> AllSpace(JavaScript, query)
  {
    StripEmptyIff(JavaScript, query);
  }

  /** The two whitespace sets differ: a query made only of the separators
      U+001C to U+001F is blank to the admin route's `strip()` but not to a
      dashboard's `trim()`. */
  lemma SeparatorsBlankOnlyToPython(keys: seq<string>, q: string)
    requires q != [] && forall j :: 0 <= j < |q| ==> '\U{001C}' <= q[j] <= '\U{001F}'
    ensures AdminChat(Some("main_admin"), Given(q)) == Err(QueryRequired)
    ensures DashboardChat(keys, q).Some?
  {
    assert !IsSpace(JavaScript, q[0]);
    StripEmptyIff(JavaScript, q);
    StripEmptyIff(Python, q);
  }

  /** A keyword is a non-empty word without whitespace, as all of them are. */
  predicate IsWord(rt: Runtime, k: string) {
    k != [] && forall j :: 0 <= j < |k| ==> !IsSpace(rt, k[j])
  }

  /** An occurrence inside an infix is an occurrence in the whole text. */
  lemma OccursInInfix(big: string, a: int, n: int, k: string, i: int)
    requires 0 <= a && 0 <= n && a + n <= |big| && OccursAt(big[a..a + n], k, i)
    ensures OccursAt(big, k, i + a)
  {
    forall j | 0 <= j < |k| ensures big[i + a + j] == k[j] {
      assert big[a..a + n][i..i + |k|][j] == k[j];
    }
    assert big[i + a..i + a + |k|] == k;
  }

  /** A word occurring in a text whose characters outside an infix are all
      whitespace occurs inside that infix. */
  lemma OccursOnlyInInfix(rt: Runtime, big: string, a: int, n: int, k: string, i: int)
    requires 0 <= a && 0 <= n && a + n <= |big| && IsWord(rt, k) && OccursAt(big, k, i)
    requires forall j :: 0 <= j < a ==> IsSpace(rt, big[j])
    requires forall j :: a + n <= j < |big| ==> IsSpace(rt, big[j])
    ensures OccursAt(big[a..a + n], k, i - a)
  {
    assert a <= i by {
      assert big[i] == big[i..i + |k|][0] == k[0];
    }
    assert i + |k| <= a + n by {
      assert big[i + |k| - 1] == big[i..i + |k|][|k| - 1] == k[|k| - 1];
    }
    forall j | 0 <= j < |k| ensures big[a..a + n][i - a + j] == k[j] {
      assert big[i..i + |k|][j] == k[j];
    }
    assert big[a..a + n][i - a..i - a + |k|] == k;
  }

  /** The infix and the whole text contain the same words when the rest is whitespace. */
  lemma InfixMatches(rt: Runtime, big: string, small: string, a: int, n: int, k: string)
    requires 0 <= a && 0 <= n && a + n <= |big| && small == big[a..a + n] && IsWord(rt, k)
    requires forall j :: 0 <= j < a ==> IsSpace(rt, big[j])
    requires forall j :: a + n <= j < |big| ==> IsSpace(rt, big[j])
    ensures Contains(small, k) <==> Contains(big, k)
  {
    ContainsIff(big, k);
    ContainsIff(small, k);
    if exists i :: OccursAt(small, k, i) {
      var i :| OccursAt(small, k, i);
      OccursInInfix(big, a, n, k, i);
    }
    if exists i :: OccursAt(big, k, i) {
      var i :| OccursAt(big, k, i);
      OccursOnlyInInfix(rt, big, a, n, k, i);
    }
  }

  /** Texts containing the same keywords get the same first match. */
  lemma {:induction false} FirstMatchSame(keys: seq<string>, t1: string, t2: string)
    requires forall k :: 0 <= k < |keys| ==> (Contains(t1, keys[k]) <==> Contains(t2, keys[k]))
    ensures FirstMatch(keys, t1) == FirstMatch(keys, t2)
    decreases |keys|
  {
    if keys != [] {
      assert Contains(t1, keys[0]) <==> Contains(t2, keys[0]);
      assert forall k :: 0 <= k < |keys| - 1 ==> keys[1..][k] == keys[k + 1];
      FirstMatchSame(keys[1..], t1, t2);
    }
  }

  /** Keyword matching gives the same answer on an infix as on the whole
      text when the rest is whitespace. */
  lemma FirstMatchInfix(rt: Runtime, keys: seq<string>, big: string, small: string, a: int, n: int)
    requires forall k :: 0 <= k < |keys| ==> IsWord(rt, keys[k])
    requires 0 <= a && 0 <= n && a + n <= |big| && |small| == n
    requires forall j :: 0 <= j < n ==> small[j] == big[a + j]
    requires forall j :: 0 <= j < a ==> IsSpace(rt, big[j])
    requires forall j :: a + n <= j < |big| ==> IsSpace(rt, big[j])
    ensures FirstMatch(keys, small) == FirstMatch(keys, big)
  {
    assert small == big[a..a + n];
    forall k | 0 <= k < |keys| ensures Contains(small, keys[k]) <==> Contains(big, keys[k]) {
      InfixMatches(rt, big, small, a, n, keys[k]);
    }
    FirstMatchSame(keys, small, big);
  }

  /** Keywords are words, so surrounding whitespace never changes the match. */
  lemma StripMatches(rt: Runtime, keys: seq<string>, t: string)
    requires forall k :: 0 <= k < |keys| ==> IsWord(rt, keys[k])
    ensures FirstMatch(keys, Strip(rt, t)) == FirstMatch(keys, t)
  {
    StripIndex(rt, t);
    StripSurround(rt, t);
    FirstMatchInfix(rt, keys, t, Strip(rt, t), Leading(rt, t), |Strip(rt, t)|);
  }

  lemma TopicIgnoresStrip(rt: Runtime, keys: seq<string>, q: string)
    requires forall k :: 0 <= k < |keys| ==> IsWord(rt, keys[k])
    ensures FirstMatch(keys, Lower(Strip(rt, q))) == FirstMatch(keys, Lower(q))
  {
    LowerStrip(rt, q);
    StripMatches(rt, keys, Lower(q));
  }

  /** Lower-case ASCII letters are whitespace to neither runtime. */
  lemma LettersAreWord(rt: Runtime, k: string)
    requires k != [] && forall j :: 0 <= j < |k| ==> 'a' <= k[j] <= 'z'
    ensures IsWord(rt, k)
  {
  }

  /** In all three tables every keyword is a word. */
  lemma TablesAreWords(rt: Runtime)
    ensures forall k :: 0 <= k < |AdminKeys| ==> IsWord(rt, AdminKeys[k])
    ensures forall k :: 0 <= k < |StaffKeys| ==> IsWord(rt, StaffKeys[k])
    ensures forall k :: 0 <= k < |DeptKeys| ==> IsWord(rt, DeptKeys[k])
  {
    forall k | 0 <= k < |AdminKeys| ensures IsWord(rt, AdminKeys[k]) {
      LettersAreWord(rt, AdminKeys[k]);
    }
    forall k | 0 <= k < |StaffKeys| ensures IsWord(rt, StaffKeys[k]) {
      LettersAreWord(rt, StaffKeys[k]);
    }
    forall k | 0 <= k < |DeptKeys| ensures IsWord(rt, DeptKeys[k]) {
      LettersAreWord(rt, DeptKeys[k]);
    }
  }

  /** With keywords only, the stripped and the whole query get the same reply. */
  lemma TopicOfStripped(rt: Runtime, keys: seq<string>, q: string)
    requires forall k :: 0 <= k < |keys| ==> IsWord(rt, keys[k])
    ensures Topic(keys, Lower(Strip(rt, q))) == Topic(keys, Lower(q))
  {
    TopicIgnoresStrip(rt, keys, q);
  }

  /** The admin route's reply for a non-blank query is the reply the same
      keyword table gives to the whole lower-cased query. */
  lemma AdminChatTopic(q: string)
    requires !AllSpace(Python, q)
    ensures AdminChat(Some("main_admin"), Given(q)) == Ok(Topic(AdminKeys, Lower(q)))
  {
    StripEmptyIff(Python, q);
    TablesAreWords(Python);
    TopicOfStripped(Python, AdminKeys, q);
  }
}
