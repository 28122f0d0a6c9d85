/** String helpers shared by the backend and the dashboards: whitespace
    trimming, ASCII lower-casing, substring search, splitting and joining on
    a separator character, and decimal rendering of integers (`str(n)`). */
module Text {

  /** Whose whitespace set a trim uses: Python's `str.strip()` or
      JavaScript's `String.prototype.trim()`. */
  datatype Runtime = Python | JavaScript

  /** Characters both runtimes treat as whitespace: the ASCII controls TAB to
      CR, the space, and the Unicode space separators and line/paragraph
      separators. */
  predicate CommonSpace(c: char) {
    || '\t' <= c <= '\r' || c == ' ' || c == '\U{00A0}' || c == '\U{1680}' || '\U{2000}' <= c <= '\U{200A}'
    || '\U{2028}' <= c <= '\U{2029}' || c == '\U{202F}' || c == '\U{205F}' || c == '\U{3000}'
  }

  /** Python (`str.isspace`) adds the four ASCII separators U+001C to U+001F
      and NEL (U+0085); JavaScript adds the byte order mark (U+FEFF). */
  predicate IsSpace(rt: Runtime, c: char) {
    || CommonSpace(c)
    || (rt == Python && ('\U{001C}' <= c <= '\U{001F}' || c == '\U{0085}'))
    || (rt == JavaScript && c == '\U{FEFF}')
  }

  predicate AllSpace(rt: Runtime, s: string) {
    forall i :: 0 <= i < |s| ==> IsSpace(rt, s[i])
  }

  /** The number of leading whitespace characters. */
  function Leading(rt: Runtime, s: string): (n: nat)
    ensures n <= |s|
    ensures forall j :: 0 <= j < n ==> IsSpace(rt, s[j])
    ensures n == |s| || !IsSpace(rt, s[n])
    decreases |s|
  {
    if s != [] && IsSpace(rt, s[0]) then
      assert forall j :: 0 <= j < |s| - 1 ==> s[1..][j] == s[j + 1];
      1 + Leading(rt, s[1..])
    else 0
  }

  /** The number of trailing whitespace characters. */
  function Trailing(rt: Runtime, s: string): (n: nat)
    ensures n <= |s|
    ensures forall j :: |s| - n <= j < |s| ==> IsSpace(rt, s[j])
    ensures n == |s| || !IsSpace(rt, s[|s| - n - 1])
    decreases |s|
  {
    if s != [] && IsSpace(rt, s[|s| - 1]) then
      assert forall j :: 0 <= j < |s| - 1 ==> s[..|s| - 1][j] == s[j];
      1 + Trailing(rt, s[..|s| - 1])
    else 0
  }

  /** The whitespace counts depend only on where the whitespace is. */
  lemma SameSpaces(rt: Runtime, s: string, t: string)
    requires |s| == |t| && forall j :: 0 <= j < |s| ==> (IsSpace(rt, s[j]) <==> IsSpace(rt, t[j]))
    ensures Leading(rt, s) == Leading(rt, t) && Trailing(rt, s) == Trailing(rt, t)
  {
  }

  /** Drops leading whitespace. */
  function TrimStart(rt: Runtime, s: string): (r: string)
    ensures |r| <= |s| && (r == [] || !IsSpace(rt, r[0]))
  {
    s[Leading(rt, s)..]
  }

  /** Drops trailing whitespace. */
  function TrimEnd(rt: Runtime, s: string): (r: string)
    ensures |r| <= |s| && (r == [] || !IsSpace(rt, r[|r| - 1]))
  {
    s[..|s| - Trailing(rt, s)]
  }

  /** `s.strip()` (Python) or `s.trim()` (JavaScript): removes whitespace at
      both ends. */
  function Strip(rt: Runtime, s: string): (r: string)
    ensures |r| <= |s|
    ensures r == [] || (!IsSpace(rt, r[0]) && !IsSpace(rt, r[|r| - 1]))
  {
    TrimEnd(rt, TrimStart(rt, s))
  }

  /** `Strip` keeps the characters from the first non-whitespace one on
      (`Leading` says that everything before it is whitespace). */
  lemma StripIndex(rt: Runtime, s: string)
    ensures Leading(rt, s) + |Strip(rt, s)| <= |s|
    ensures forall j :: 0 <= j < |Strip(rt, s)| ==> Strip(rt, s)[j] == s[Leading(rt, s) + j]
  {
    var t := TrimStart(rt, s);
    InfixIndex(s, Leading(rt, s), t, |t| - Trailing(rt, t), Strip(rt, s));
  }

  /** A prefix `r` of the suffix `t` of `s` from `a` is `s` read from `a`. */
  lemma InfixIndex(s: string, a: nat, t: string, n: nat, r: string)
    requires a <= |s| && t == s[a..] && n <= |t| && r == t[..n]
    ensures a + |r| <= |s|
    ensures forall j :: 0 <= j < |r| ==> r[j] == s[a + j]
  {
  }

  /** Everything after what `Strip` keeps is whitespace. */
  lemma StripSurround(rt: Runtime, s: string)
    ensures Leading(rt, s) + |Strip(rt, s)| <= |s|
    ensures forall j :: Leading(rt, s) + |Strip(rt, s)| <= j < |s| ==> IsSpace(rt, s[j])
  {
    var t := TrimStart(rt, s);
    SpacesAfter(rt, s, Leading(rt, s), t, |t| - Trailing(rt, t));
  }

  /** Whitespace at the end of the suffix `s[a..]` is whitespace at the end of `s`. */
  lemma SpacesAfter(rt: Runtime, s: string, a: nat, t: string, n: nat)
    requires a <= |s| && t == s[a..] && n <= |t|
    requires forall j :: n <= j < |t| ==> IsSpace(rt, t[j])
    ensures forall j :: a + n <= j < |s| ==> IsSpace(rt, s[j])
  {
    forall j | a + n <= j < |s| ensures IsSpace(rt, s[j]) {
      assert s[j] == t[j - a];
    }
  }

  /** A string strips to nothing exactly when it is all whitespace. */
  lemma StripEmptyIff(rt: Runtime, s: string)
    ensures Strip(rt, s) == [] <==> AllSpace(rt, s)
  {
    StripIndex(rt, s);
    if Strip(rt, s) != [] {
      assert !IsSpace(rt, s[Leading(rt, s)]);
    }
  }

  /** A text with no whitespace at either end strips to itself. */
  lemma StripClean(rt: Runtime, t: string)
    requires t == [] || (!IsSpace(rt, t[0]) && !IsSpace(rt, t[|t| - 1]))
    ensures Strip(rt, t) == t
  {
    assert Leading(rt, t) == 0;
    assert TrimStart(rt, t) == t;
    assert Trailing(rt, t) == 0;
  }

  function LowerChar(c: char): char {
    if 'A' <= c <= 'Z' then (c as int - 'A' as int + 'a' as int) as char else c
  }

  /** ASCII `lower()` / `toLowerCase()`. */
  function Lower(s: string): (r: string)
    ensures |r| == |s|
    ensures forall i :: 0 <= i < |s| ==> r[i] == LowerChar(s[i])
  {
    seq(|s|, i requires 0 <= i < |s| => LowerChar(s[i]))
  }

  /** Lower-casing never turns whitespace into anything else, nor the reverse. */
  lemma LowerCharSpace(rt: Runtime, c: char)
    ensures IsSpace(rt, LowerChar(c)) <==> IsSpace(rt, c)
  {
  }

  /** Lower-casing keeps every character's whitespace-ness. */
  lemma LowerSpaces(rt: Runtime, q: string)
    ensures forall j :: 0 <= j < |q| ==> (IsSpace(rt, Lower(q)[j]) <==> IsSpace(rt, q[j]))
  {
    forall j | 0 <= j < |q| ensures IsSpace(rt, Lower(q)[j]) <==> IsSpace(rt, q[j]) {
      LowerCharSpace(rt, q[j]);
    }
  }

  /** Lower-casing commutes with dropping leading whitespace. */
  lemma LowerTrimStart(rt: Runtime, q: string)
    ensures TrimStart(rt, Lower(q)) == Lower(TrimStart(rt, q))
  {
    LowerSpaces(rt, q);
    SameSpaces(rt, q, Lower(q));
    var a := Leading(rt, q);
    var u, v := TrimStart(rt, Lower(q)), Lower(TrimStart(rt, q));
    forall j | 0 <= j < |u| ensures u[j] == v[j] {
      assert u[j] == Lower(q)[a + j];
      assert TrimStart(rt, q)[j] == q[a + j];
    }
  }

  /** Lower-casing commutes with dropping trailing whitespace. */
  lemma LowerTrimEnd(rt: Runtime, q: string)
    ensures TrimEnd(rt, Lower(q)) == Lower(TrimEnd(rt, q))
  {
    LowerSpaces(rt, q);
    SameSpaces(rt, q, Lower(q));
    var u, v := TrimEnd(rt, Lower(q)), Lower(TrimEnd(rt, q));
    forall j | 0 <= j < |u| ensures u[j] == v[j] {
      assert u[j] == Lower(q)[j];
      assert TrimEnd(rt, q)[j] == q[j];
    }
  }

  /** Stripping then lower-casing is lower-casing then stripping. */
  lemma LowerStrip(rt: Runtime, q: string)
    ensures Lower(Strip(rt, q)) == Strip(rt, Lower(q))
  {
    LowerTrimStart(rt, q);
    LowerTrimEnd(rt, TrimStart(rt, q));
  }

  predicate IsLowerCase(s: string) {
    forall i :: 0 <= i < |s| ==> !('A' <= s[i] <= 'Z')
  }

  /** Lower-casing leaves no upper-case letter and is idempotent. */
  lemma LowerIsLower(s: string)
    ensures IsLowerCase(Lower(s))
    ensures Lower(Lower(s)) == Lower(s)
  {
  }

  /** Python's `needle in hay` / JavaScript's `hay.includes(needle)`. */
  predicate Contains(hay: string, needle: string)
    decreases |hay|
  {
    needle <= hay || (hay != [] && Contains(hay[1..], needle))
  }

  ghost predicate OccursAt(hay: string, needle: string, i: int) {
    0 <= i && i + |needle| <= |hay| && hay[i..i + |needle|] == needle
  }

  lemma OccursAtStart(hay: string, needle: string)
    ensures OccursAt(hay, needle, 0) <==> needle <= hay
  {
    if |needle| <= |hay| {
      assert hay[0..|needle|] == hay[..|needle|];
    }
  }

  lemma OccursShift(hay: string, needle: string, i: int)
    requires hay != [] && 0 <= i
    ensures OccursAt(hay[1..], needle, i) <==> OccursAt(hay, needle, i + 1)
  {
    if i + |needle| <= |hay| - 1 {
      assert hay[1..][i..i + |needle|] == hay[i + 1..i + 1 + |needle|];
    }
  }

  /** The recursive search agrees with "occurs at some position". */
  lemma {:induction false} ContainsIff(hay: string, needle: string)
    ensures Contains(hay, needle) <==> exists i :: OccursAt(hay, needle, i)
    decreases |hay|
  {
    OccursAtStart(hay, needle);
    if needle <= hay {
      assert OccursAt(hay, needle, 0);
    } else if hay == [] {
      assert forall i :: OccursAt(hay, needle, i) ==> i == 0;
    } else {
      ContainsIff(hay[1..], needle);
      if exists i :: OccursAt(hay[1..], needle, i) {
        var i :| OccursAt(hay[1..], needle, i);
        OccursShift(hay, needle, i);
      }
      if exists i :: OccursAt(hay, needle, i) {
        var i :| OccursAt(hay, needle, i);
        assert i != 0;
        OccursShift(hay, needle, i - 1);
      }
    }
  }

  /** `s.split(sep)`: the pieces between separators, always at least one. */
  function Split(s: string, sep: char): (parts: seq<string>)
    ensures |parts| >= 1
    ensures forall k :: 0 <= k < |parts| ==> sep !in parts[k]
  {
    if s == [] then [[]]
    else
      var rest := Split(s[1..], sep);
      if s[0] == sep then [[]] + rest
      else [[s[0]] + rest[0]] + rest[1..]
  }

  /** `sep.join(parts)`. */
  function Join(parts: seq<string>, sep: char): string {
    if parts == [] then []
    else if |parts| == 1 then parts[0]
    else parts[0] + [sep] + Join(parts[1..], sep)
  }

  /** Splitting then joining gives back the original text. */
  lemma {:induction false} JoinSplit(s: string, sep: char)
    ensures Join(Split(s, sep), sep) == s
  {
    if s != [] {
      var rest := Split(s[1..], sep);
      JoinSplit(s[1..], sep);
      if s[0] == sep {
        assert Split(s, sep) == [[]] + rest;
        assert ([[]] + rest)[1..] == rest;
      } else {
        var parts := [[s[0]] + rest[0]] + rest[1..];
        assert Split(s, sep) == parts;
        if |rest| == 1 {
          assert Join(rest, sep) == rest[0];
        } else {
          assert parts[1..] == rest[1..];
          assert Join(rest, sep) == rest[0] + [sep] + Join(rest[1..], sep);
        }
      }
    }
  }

  /** A piece with no separator splits to itself. */
  lemma {:induction false} SplitPlain(p: string, sep: char)
    requires sep !in p
    ensures Split(p, sep) == [p]
  {
    if p != [] {
      SplitPlain(p[1..], sep);
      assert [p[0]] + p[1..] == p;
    }
  }

  /** A leading piece followed by a separator splits off on its own. */
  lemma {:induction false} SplitCons(p: string, t: string, sep: char)
    requires sep !in p
    ensures Split(p + [sep] + t, sep) == [p] + Split(t, sep)
  {
    if p == [] {
      assert [sep] + t == p + [sep] + t;
      assert ([sep] + t)[1..] == t;
    } else {
      var s := p + [sep] + t;
      assert s[1..] == p[1..] + [sep] + t;
      SplitCons(p[1..], t, sep);
      assert [p[0]] + p[1..] == p;
    }
  }

  /** Joining then splitting gives back any non-empty list of separator-free pieces. */
  lemma {:induction false} SplitJoin(parts: seq<string>, sep: char)
    requires |parts| >= 1
    requires forall k :: 0 <= k < |parts| ==> sep !in parts[k]
    ensures Split(Join(parts, sep), sep) == parts
  {
    if |parts| == 1 {
      SplitPlain(parts[0], sep);
    } else {
      SplitJoin(parts[1..], sep);
      SplitCons(parts[0], Join(parts[1..], sep), sep);
      assert [parts[0]] + parts[1..] == parts;
    }
  }

  /** The first piece of a split is the prefix before the first separator. */
  lemma {:induction false} SplitHead(s: string, sep: char)
    ensures Split(s, sep)[0] <= s
    ensures sep !in Split(s, sep)[0]
    ensures |Split(s, sep)[0]| == |s| || s[|Split(s, sep)[0]|] == sep
  {
    if s != [] && s[0] != sep {
      SplitHead(s[1..], sep);
    }
  }

  function DigitChar(d: nat): char
    requires d < 10
  {
    ('0' as int + d) as char
  }

  /** `str(n)` for a natural number. */
  function NatText(n: nat): (r: string)
    ensures 1 <= |r|
    ensures forall i :: 0 <= i < |r| ==> '0' <= r[i] <= '9'
    ensures (|r| == 1) == (n < 10)
  {
    if n < 10 then [DigitChar(n)] else NatText(n / 10) + [DigitChar(n % 10)]
  }

  /** `str(i)` for any integer. */
  function IntText(i: int): (r: string)
    ensures 1 <= |r|
    ensures (r[0] == '-') == (i < 0)
  {
    if i < 0 then "-" + NatText(-i) else NatText(i)
  }

  lemma {:induction false} NatTextInjective(a: nat, b: nat)
    requires NatText(a) == NatText(b)
    ensures a == b
  {
    if a >= 10 && b >= 10 {
      var ta, tb := NatText(a), NatText(b);
      assert ta[..|ta| - 1] == NatText(a / 10);
      assert tb[..|tb| - 1] == NatText(b / 10);
      NatTextInjective(a / 10, b / 10);
      assert DigitChar(a % 10) == ta[|ta| - 1] == DigitChar(b % 10);
    } else if a < 10 && b < 10 {
      assert DigitChar(a) == NatText(a)[0];
    }
  }

  /** Distinct integers print differently, so `str` keys never collide. */
  lemma IntTextInjective()
    ensures forall a: int, b: int :: IntText(a) == IntText(b) ==> a == b
  {
    forall a: int, b: int | IntText(a) == IntText(b) ensures a == b {
      if a < 0 && b < 0 {
        assert IntText(a)[1..] == NatText(-a);
        assert IntText(b)[1..] == NatText(-b);
        NatTextInjective(-a, -b);
      } else if a >= 0 && b >= 0 {
        NatTextInjective(a, b);
      }
    }
  }
}
