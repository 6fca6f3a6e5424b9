/**
 The launch result that one process writes for another: a flat JSON-like text of
 string entries followed by a time stamp and a process id, and the regular
 expression that reads it back.
 */
module LaunchResult {
  import opened Options
  import opened Sequences

  /** An entry of the result, in the order in which the map is walked. */
  type Entry = (string, string)

  // ---- Writing ----

  /** value.replace("\"", "'") */
  function Sanitized(value: string): (s: string)
    ensures |s| == |value|
    ensures '"' !in s
    ensures forall k :: 0 <= k < |s| ==> if value[k] == '"' then s[k] == '\'' else s[k] == value[k]
  {
    seq(|value|, k requires 0 <= k < |value| => if value[k] == '"' then '\'' else value[k])
  }

  function EntryText(e: Entry): string {
    ['"'] + e.0 + ['"', ':', '"'] + Sanitized(e.1) + ['"']
  }

  function Body(es: seq<Entry>): string {
    if es == [] then ""
    else if |es| == 1 then EntryText(es[0])
    else EntryText(es[0]) + [','] + Body(es[1..])
  }

  function Decimal(n: nat): (s: string)
    ensures s != "" && forall k :: 0 <= k < |s| ==> IsDigit(s[k])
  {
    var last := '0' + (n % 10) as char;
    if n < 10 then [last] else Decimal(n / 10) + [last]
  }

  function NumberText(key: string, n: nat): string {
    ['"'] + key + ['"', ':'] + Decimal(n)
  }

  function Tail(ts: nat, pid: nat): string {
    [','] + NumberText("ts", ts) + [','] + NumberText("pid", pid) + ['}']
  }

  function ResultText(es: seq<Entry>, ts: nat, pid: nat): string {
    ['{'] + Body(es) + Tail(ts, pid)
  }

  // ---- Reading ----

  predicate IsDigit(c: char) {
    '0' <= c <= '9'
  }

  predicate IsKeyChar(c: char) {
    'a' <= c <= 'z' || 'A' <= c <= 'Z' || c == '_'
  }

  /** The length of the longest prefix of s whose characters satisfy p. */
  function RunLength(p: char -> bool, s: string): (n: nat)
    ensures n <= |s|
    ensures forall k :: 0 <= k < n ==> p(s[k])
    ensures n < |s| ==> !p(s[n])
  {
    if s != "" && p(s[0]) then 1 + RunLength(p, s[1..]) else 0
  }

  /** What one match of the expression captures, and the text after it. */
  datatype Match = Match(key: string, group: string, rest: string)

  /** The value part: a quoted text without quotes in it, or digits. */
  function MatchValue(key: string, s: string): (m: Option<Match>)
    ensures m.Some? ==> m.value.key == key && |m.value.rest| < |s|
  {
    if s != "" && s[0] == '"' then
      var n := RunLength(c => c != '"', s[1..]);
      if 1 + n == |s| then None else Some(Match(key, s[..n + 2], s[n + 2..]))
    else
      var n := RunLength(IsDigit, s);
      if n == 0 then None else Some(Match(key, s[..n], s[n..]))
  }

  /** A match of the whole expression that begins at the first character of s. */
  function MatchHere(s: string): (m: Option<Match>)
    ensures m.Some? ==> |m.value.rest| < |s| && KeyLike(m.value.key)
  {
    if s == "" || s[0] != '"' then None
    else
      var n := RunLength(IsKeyChar, s[1..]);
      if n == 0 || n + 2 >= |s| || s[n + 1] != '"' || s[n + 2] != ':' then None
      else
        assert KeyLike(s[1..n + 1]) by {
          assert forall k :: 0 <= k < n ==> s[1..n + 1][k] == s[1..][k];
        }
        MatchValue(s[1..n + 1], s[n + 3..])
  }

  /** group.trim('"') */
  function Trimmed(group: string): string
    decreases |group|
  {
    if group != "" && group[0] == '"' then Trimmed(group[1..])
    else if group != "" && group[|group| - 1] == '"' then Trimmed(group[..|group| - 1])
    else group
  }

  /** All matches from left to right, none overlapping the one before. */
  function FindAll(s: string): seq<Entry>
    decreases |s|
  {
    if s == "" then []
    else
      var m := MatchHere(s);
      if m.None? then FindAll(s[1..])
      else [(m.value.key, Trimmed(m.value.group))] + FindAll(m.value.rest)
  }

  /** Later entries replace earlier ones with the same key. */
  function Associated(es: seq<Entry>): map<string, string> {
    if es == [] then map[]
    else Associated(es[..|es| - 1])[es[|es| - 1].0 := es[|es| - 1].1]
  }

  function ReadResult(text: string): map<string, string> {
    Associated(FindAll(text))
  }

  /** The file in the diagnostics directory. */
  class DiagLog {
    var file: Option<string>

    /** The text reads back as it should exactly when the keys are ones the expression can match. */
    method WriteResult(es: seq<Entry>, ts: nat, pid: nat)
      modifies this
      ensures file == Some(ResultText(es, ts, pid))
      ensures file == Some("{" + Body(es) + ",\"ts\":" + Decimal(ts) + ",\"pid\":" + Decimal(pid) + "}")
      ensures ReadResult(file.value) == Expected(es, ts, pid) <==> forall k :: 0 <= k < |es| ==> KeyLike(es[k].0)
    {
      file := Some(ResultText(es, ts, pid));
      TextShape(es, ts, pid);
      ResultRoundTripIff(es, ts, pid);
    }

    /** Nothing without a file; the entries that were written, when a result with proper keys was. */
    method Read() returns (r: map<string, string>)
      ensures file.None? ==> r == map[]
      ensures file.Some? ==> r == ReadResult(file.value)
      ensures forall key :: key in r ==> KeyLike(key)
      ensures forall es: seq<Entry>, ts: nat, pid: nat ::
                file == Some(ResultText(es, ts, pid)) && (forall k :: 0 <= k < |es| ==> KeyLike(es[k].0)) ==>
                  r == Expected(es, ts, pid)
    {
      if file.None? {
        return map[];
      }
      r := ReadResult(file.value);
      ReadKeysAreKeyLike(file.value);
      forall es: seq<Entry>, ts: nat, pid: nat |
        file.value == ResultText(es, ts, pid) && forall k :: 0 <= k < |es| ==> KeyLike(es[k].0)
        ensures r == Expected(es, ts, pid)
      {
        ResultRoundTripIff(es, ts, pid);
      }
    }
  }

  // ---- One entry ----

  /** Non-empty, letters and underscores only. */
  predicate KeyLike(key: string) {
    key != "" && forall k :: 0 <= k < |key| ==> IsKeyChar(key[k])
  }

  lemma {:induction false} KeyLikeIs(key: string)
    ensures KeyLike(key) <==>
            key != "" && forall k :: 0 <= k < |key| ==> 'a' <= key[k] <= 'z' || 'A' <= key[k] <= 'Z' || key[k] == '_'
  {
  }

  lemma {:induction false} RunThen(p: char -> bool, run: string, rest: string)
    requires forall k :: 0 <= k < |run| ==> p(run[k])
    requires rest == "" || !p(rest[0])
    ensures RunLength(p, run + rest) == |run|
  {
    assert forall k :: 0 <= k < |run| ==> (run + rest)[k] == run[k];
    assert rest != "" ==> (run + rest)[|run|] == rest[0];
  }

  lemma {:induction false} TrimQuoted(v: string)
    requires '"' !in v
    ensures Trimmed(['"'] + v + ['"']) == v
  {
    var g := ['"'] + v + ['"'];
    assert g[1..] == v + ['"'];
    var h := v + ['"'];
    if v == "" {
      assert h[1..] == "" && Trimmed(h) == Trimmed("");
    } else {
      assert h[0] == v[0] && v[0] in v;
      assert h[..|h| - 1] == v;
      TrimPlain(v);
    }
  }

  lemma {:induction false} TrimPlain(v: string)
    requires '"' !in v
    ensures Trimmed(v) == v
  {
  }

  lemma {:induction false} QuotedMatches(key: string, v: string, rest: string)
    requires '"' !in v
    ensures MatchValue(key, ['"'] + v + ['"'] + rest) == Some(Match(key, ['"'] + v + ['"'], rest))
  {
    var s := ['"'] + v + ['"'] + rest;
    assert s[1..] == v + (['"'] + rest);
    RunThen(c => c != '"', v, ['"'] + rest);
    assert s[..|v| + 2] == ['"'] + v + ['"'];
    assert s[|v| + 2..] == rest;
  }

  lemma {:induction false} DigitsMatch(key: string, digits: string, rest: string)
    requires digits != "" && forall k :: 0 <= k < |digits| ==> IsDigit(digits[k])
    requires rest == "" || !IsDigit(rest[0])
    ensures MatchValue(key, digits + rest) == Some(Match(key, digits, rest))
  {
    var s := digits + rest;
    RunThen(IsDigit, digits, rest);
    assert s[0] == digits[0];
    assert s[..|digits|] == digits && s[|digits|..] == rest;
  }

  lemma {:induction false} KeyMatches(key: string, rest: string)
    requires KeyLike(key)
    ensures MatchHere(['"'] + key + ['"', ':'] + rest) == MatchValue(key, rest)
  {
    var s := ['"'] + key + ['"', ':'] + rest;
    assert s[1..] == key + (['"', ':'] + rest);
    RunThen(IsKeyChar, key, ['"', ':'] + rest);
    assert s[1..|key| + 1] == key && s[|key| + 3..] == rest;
  }

  lemma {:induction false} EntryFound(e: Entry, rest: string)
    requires KeyLike(e.0)
    ensures FindAll(EntryText(e) + rest) == [(e.0, Sanitized(e.1))] + FindAll(rest)
  {
    var v := Sanitized(e.1);
    var value := ['"'] + v + ['"'] + rest;
    assert EntryText(e) + rest == ['"'] + e.0 + ['"', ':'] + value;
    KeyMatches(e.0, value);
    QuotedMatches(e.0, v, rest);
    TrimQuoted(v);
  }

  lemma {:induction false} NumberFound(key: string, n: nat, rest: string)
    requires KeyLike(key) && (rest == "" || !IsDigit(rest[0]))
    ensures FindAll(NumberText(key, n) + rest) == [(key, Decimal(n))] + FindAll(rest)
  {
    var digits := Decimal(n);
    assert NumberText(key, n) + rest == ['"'] + key + ['"', ':'] + (digits + rest);
    KeyMatches(key, digits + rest);
    DigitsMatch(key, digits, rest);
    assert '"' !in digits;
    TrimPlain(digits);
  }

  /** A character that cannot begin a match is passed over. */
  lemma {:induction false} Skipped(c: char, rest: string)
    requires c != '"'
    ensures FindAll([c] + rest) == FindAll(rest)
  {
  }

  // ---- The whole text ----

  function SanitizedAll(es: seq<Entry>): seq<Entry> {
    if es == [] then [] else [(es[0].0, Sanitized(es[0].1))] + SanitizedAll(es[1..])
  }

  lemma {:induction false} TailFound(ts: nat, pid: nat)
    ensures FindAll(Tail(ts, pid)) == [("ts", Decimal(ts)), ("pid", Decimal(pid))]
  {
    var pidText, tsText := NumberText("pid", pid), NumberText("ts", ts);
    assert Tail(ts, pid) == [','] + (tsText + ([','] + (pidText + ['}'])));
    EndFound();
    NumberFound("pid", pid, ['}']);
    Skipped(',', pidText + ['}']);
    NumberFound("ts", ts, [','] + (pidText + ['}']));
    Skipped(',', tsText + ([','] + (pidText + ['}'])));
  }

  lemma {:induction false} EndFound()
    ensures FindAll(['}']) == []
  {
  }

  lemma {:induction false} CommaBetween(a: string, b: string, tail: string)
    ensures a + [','] + b + tail == a + ([','] + (b + tail))
  {
  }

  lemma {:induction false} EntryThenMore(e: Entry, more: string)
    requires KeyLike(e.0)
    ensures FindAll(EntryText(e) + ([','] + more)) == [(e.0, Sanitized(e.1))] + FindAll(more)
  {
    EntryFound(e, [','] + more);
    Skipped(',', more);
  }

  lemma {:induction false} BodyText(es: seq<Entry>, tail: string)
    requires |es| >= 2
    ensures Body(es) + tail == EntryText(es[0]) + ([','] + (Body(es[1..]) + tail))
  {
    CommaBetween(EntryText(es[0]), Body(es[1..]), tail);
  }

  lemma {:induction false} OneFound(e: Entry, tail: string, last: seq<Entry>)
    requires KeyLike(e.0) && last == FindAll(tail)
    ensures FindAll(Body([e]) + tail) == SanitizedAll([e]) + last
  {
    EntryFound(e, tail);
    assert SanitizedAll([e]) == [(e.0, Sanitized(e.1))];
  }

  lemma {:induction false} BodyFound(es: seq<Entry>, tail: string, text: string, last: seq<Entry>)
    requires forall k :: 0 <= k < |es| ==> KeyLike(es[k].0)
    requires text == Body(es) + tail && last == FindAll(tail)
    ensures FindAll(text) == SanitizedAll(es) + last
    decreases |es|
  {
    if es == [] {
      assert text == tail;
    } else if |es| == 1 {
      assert es == [es[0]];
      OneFound(es[0], tail, last);
    } else {
      var more := Body(es[1..]) + tail;
      BodyText(es, tail);
      EntryThenMore(es[0], more);
      BodyFound(es[1..], tail, more, last);
      Regroup([(es[0].0, Sanitized(es[0].1))], SanitizedAll(es[1..]), last);
    }
  }

  lemma {:induction false} TextFound(es: seq<Entry>, ts: nat, pid: nat)
    requires forall k :: 0 <= k < |es| ==> KeyLike(es[k].0)
    ensures FindAll(ResultText(es, ts, pid)) == SanitizedAll(es) + [("ts", Decimal(ts)), ("pid", Decimal(pid))]
  {
    assert ResultText(es, ts, pid) == ['{'] + (Body(es) + Tail(ts, pid));
    Skipped('{', Body(es) + Tail(ts, pid));
    BodyFound(es, Tail(ts, pid), Body(es) + Tail(ts, pid), FindAll(Tail(ts, pid)));
    TailFound(ts, pid);
  }

  lemma {:induction false} FoundKeysAreKeyLike(s: string)
    ensures forall k :: 0 <= k < |FindAll(s)| ==> KeyLike(FindAll(s)[k].0)
    decreases |s|
  {
    if s != "" {
      var m := MatchHere(s);
      if m.None? {
        FoundKeysAreKeyLike(s[1..]);
      } else {
        FoundKeysAreKeyLike(m.value.rest);
      }
    }
  }

  lemma {:induction false} AssociatedKeys(es: seq<Entry>, key: string)
    ensures key in Associated(es) <==> exists k :: 0 <= k < |es| && es[k].0 == key
  {
    if es != [] {
      var init := es[..|es| - 1];
      AssociatedKeys(init, key);
      assert forall k :: 0 <= k < |init| ==> es[k] == init[k];
    }
  }

  lemma {:induction false} ReadKeysAreKeyLike(text: string)
    ensures forall key :: key in ReadResult(text) ==> KeyLike(key)
  {
    FoundKeysAreKeyLike(text);
    forall key | key in ReadResult(text)
      ensures KeyLike(key)
    {
      AssociatedKeys(FindAll(text), key);
    }
  }

  lemma {:induction false} SanitizedAllKeys(es: seq<Entry>)
    ensures |SanitizedAll(es)| == |es|
    ensures forall k :: 0 <= k < |es| ==> SanitizedAll(es)[k] == (es[k].0, Sanitized(es[k].1))
  {
    if es != [] {
      SanitizedAllKeys(es[1..]);
    }
  }

  /** What the reader should get: the entries with double quotes turned to single ones, the time stamp and the process id. */
  function Expected(es: seq<Entry>, ts: nat, pid: nat): map<string, string> {
    Associated(SanitizedAll(es))["ts" := Decimal(ts)]["pid" := Decimal(pid)]
  }

  lemma {:induction false} AssociatedTail(es: seq<Entry>, ts: nat, pid: nat)
    ensures Associated(SanitizedAll(es) + [("ts", Decimal(ts)), ("pid", Decimal(pid))]) == Expected(es, ts, pid)
  {
    var all := SanitizedAll(es) + [("ts", Decimal(ts)), ("pid", Decimal(pid))];
    var init := all[..|all| - 1];
    assert init == SanitizedAll(es) + [("ts", Decimal(ts))];
    assert init[..|init| - 1] == SanitizedAll(es);
  }

  /**
   The written text reads back as expected if and only if every key, other than
   the two the writer adds itself, is non-empty and made of letters and
   underscores; values may be any text.
   */
  lemma {:induction false} ResultRoundTripIff(es: seq<Entry>, ts: nat, pid: nat)
    ensures ReadResult(ResultText(es, ts, pid)) == Expected(es, ts, pid)
       <==> forall k :: 0 <= k < |es| ==> KeyLike(es[k].0)
  {
    var r := ReadResult(ResultText(es, ts, pid));
    if forall k :: 0 <= k < |es| ==> KeyLike(es[k].0) {
      TextFound(es, ts, pid);
      AssociatedTail(es, ts, pid);
    } else {
      var k :| 0 <= k < |es| && !KeyLike(es[k].0);
      SanitizedAllKeys(es);
      AssociatedKeys(SanitizedAll(es), es[k].0);
      assert SanitizedAll(es)[k].0 == es[k].0;
      assert es[k].0 in Expected(es, ts, pid);
      FoundKeysAreKeyLike(ResultText(es, ts, pid));
      AssociatedKeys(FindAll(ResultText(es, ts, pid)), es[k].0);
    }
  }

  // ---- The printed text, piece by piece ----

  lemma {:induction false} TextShape(es: seq<Entry>, ts: nat, pid: nat)
    ensures ResultText(es, ts, pid) == "{" + Body(es) + ",\"ts\":" + Decimal(ts) + ",\"pid\":" + Decimal(pid) + "}"
  {
    assert [','] + NumberText("ts", ts) == ",\"ts\":" + Decimal(ts);
    assert [','] + NumberText("pid", pid) == ",\"pid\":" + Decimal(pid);
    assert Tail(ts, pid) == (",\"ts\":" + Decimal(ts)) + (",\"pid\":" + Decimal(pid)) + "}";
  }

  /** Entries are printed as "key":"value" and separated by single commas. */
  lemma {:induction false} BodyShape(es: seq<Entry>, e: Entry)
    ensures Body([]) == ""
    ensures Body([e]) == "\"" + e.0 + "\":\"" + Sanitized(e.1) + "\""
    ensures es != [] ==> Body(es + [e]) == Body(es) + "," + Body([e])
  {
    if |es| == 1 {
      assert (es + [e])[1..] == [e] && es == [es[0]];
    } else if |es| > 1 {
      assert (es + [e])[1..] == es[1..] + [e];
      BodyShape(es[1..], e);
      var first := EntryText(es[0]) + [','];
      Regroup(first, Body(es[1..]) + ",", Body([e]));
      Regroup(first, Body(es[1..]), ",");
    }
  }

  /** The number that a text of decimal digits stands for. */
  function ValueOf(digits: string): int {
    if digits == "" then 0 else 10 * ValueOf(digits[..|digits| - 1]) + (digits[|digits| - 1] as int - '0' as int)
  }

  /** A number is printed in decimal without leading zeros. */
  lemma {:induction false} DecimalValue(n: nat)
    ensures ValueOf(Decimal(n)) == n
    ensures Decimal(n)[0] == '0' ==> Decimal(n) == ['0']
  {
    var d := Decimal(n);
    if n >= 10 {
      DecimalValue(n / 10);
      assert d[..|d| - 1] == Decimal(n / 10);
    } else {
      assert d[..0] == "";
    }
  }

  // ---- What the expression matches ----

  /** A quoted text without quotes in it, or a maximal run of digits before rest. */
  ghost predicate ValueGroup(group: string, rest: string) {
    || (|group| >= 2 && group[0] == '"' && group[|group| - 1] == '"' && '"' !in group[1..|group| - 1])
    || (group != "" && (forall k :: 0 <= k < |group| ==> '0' <= group[k] <= '9') && (rest == "" || !('0' <= rest[0] <= '9')))
  }

  lemma {:induction false} QuotedFound(key: string, s: string, m: Match)
    requires s != "" && s[0] == '"' && MatchValue(key, s) == Some(m)
    ensures m.key == key && s == m.group + m.rest && ValueGroup(m.group, m.rest)
  {
    var n := RunLength(c => c != '"', s[1..]);
    assert m.group == s[..n + 2] && m.rest == s[n + 2..];
    assert m.group[1..|m.group| - 1] == s[1..][..n];
    assert m.group[n + 1] == s[1..][n];
  }

  lemma {:induction false} DigitsFound(key: string, s: string, m: Match)
    requires s != "" && s[0] != '"' && MatchValue(key, s) == Some(m)
    ensures m.key == key && s == m.group + m.rest && ValueGroup(m.group, m.rest)
  {
    var n := RunLength(IsDigit, s);
    assert m.group == s[..n] && m.rest == s[n..];
    assert forall k :: 0 <= k < n ==> IsDigit(s[k]) && m.group[k] == s[k];
    assert m.rest != "" ==> m.rest[0] == s[n];
  }

  lemma {:induction false} ValueFound(key: string, s: string, m: Match)
    requires MatchValue(key, s) == Some(m)
    ensures m.key == key && s == m.group + m.rest && ValueGroup(m.group, m.rest)
  {
    if s != "" && s[0] == '"' {
      QuotedFound(key, s, m);
    } else {
      DigitsFound(key, s, m);
    }
  }

  lemma {:induction false} KeyFound(s: string, key: string, value: string, m: Match)
    requires MatchHere(s) == Some(m) && key == s[1..RunLength(IsKeyChar, s[1..]) + 1]
    requires value == s[RunLength(IsKeyChar, s[1..]) + 3..]
    ensures MatchValue(key, value) == Some(m) && s == ['"'] + key + ['"', ':'] + value
  {
  }

  lemma {:induction false} ValueGroupMatches(key: string, group: string, rest: string)
    requires ValueGroup(group, rest)
    ensures MatchValue(key, group + rest) == Some(Match(key, group, rest))
  {
    if group[0] == '"' {
      var v := group[1..|group| - 1];
      assert group == ['"'] + v + ['"'];
      QuotedMatches(key, v, rest);
    } else {
      DigitsMatch(key, group, rest);
    }
  }

  /** A match at the first character: a quoted key of letters and underscores, a colon, and a value. */
  lemma {:induction false} MatchHereIff(s: string, m: Match)
    ensures MatchHere(s) == Some(m)
       <==> KeyLike(m.key) && s == ['"'] + m.key + ['"', ':'] + (m.group + m.rest) && ValueGroup(m.group, m.rest)
  {
    if KeyLike(m.key) && s == ['"'] + m.key + ['"', ':'] + (m.group + m.rest) && ValueGroup(m.group, m.rest) {
      KeyMatches(m.key, m.group + m.rest);
      ValueGroupMatches(m.key, m.group, m.rest);
    }
    if MatchHere(s) == Some(m) {
      MatchFound(s, m);
    }
  }

  lemma {:induction false} MatchFound(s: string, m: Match)
    requires MatchHere(s) == Some(m)
    ensures KeyLike(m.key) && s == ['"'] + m.key + ['"', ':'] + (m.group + m.rest) && ValueGroup(m.group, m.rest)
  {
    var n := RunLength(IsKeyChar, s[1..]);
    KeyFound(s, s[1..n + 1], s[n + 3..], m);
    ValueFound(s[1..n + 1], s[n + 3..], m);
  }

  /** A key's value is that of its last occurrence. */
  lemma {:induction false} AssociatedIs(es: seq<Entry>, key: string)
    ensures key in Associated(es) ==>
              exists k :: 0 <= k < |es| && es[k] == (key, Associated(es)[key])
                          && forall j :: k < j < |es| ==> es[j].0 != key
  {
    if es != [] {
      var init, last := es[..|es| - 1], es[|es| - 1];
      if last.0 == key {
        assert es[|es| - 1] == (key, Associated(es)[key]);
      } else if key in Associated(init) {
        AssociatedIs(init, key);
        var k :| 0 <= k < |init| && init[k] == (key, Associated(init)[key]) && forall j :: k < j < |init| ==> init[j].0 != key;
        assert es[k] == (key, Associated(es)[key]);
        assert forall j :: k < j < |init| ==> es[j] == init[j];
      }
    }
  }
}
