/**
 Reading back whole files.  Strings the reader can carry come back in order;
 a string that it cannot carry is left out and disturbs nothing, unless it
 holds a NUL or ends in one of the characters U+0001 to U+0003.
 */
module ParcelWalk {
  import opened Octets
  import opened Sequences
  import opened ParcelFormat
  import opened ParcelSkip
  import opened ParcelRoundTrip

  const NUL := '\0'

  /** The reader cannot mistake the bytes of s, or those around its end, for a record. */
  predicate InStep(s: string) {
    NUL !in s && (s != "" ==> s[|s| - 1] as int >= 4)
  }

  /** The writer uses UTF-16 for readable text only. */
  predicate RecordInStep(r: Record) {
    Readable(r.text) || (r.encoding.Utf8? && InStep(r.text))
  }

  /** What is read of a record. */
  function TextsOf(r: Record): seq<string> {
    if r.text != "" && Readable(r.text) then [r.text] else []
  }

  /** The readable, non-empty texts of the records, in order. */
  function ReadableTexts(rs: seq<Record>): seq<string> {
    if rs == [] then []
    else TextsOf(rs[0]) + ReadableTexts(rs[1..])
  }

  // ---- The bytes of a text ----

  lemma {:induction false} CharBytes(c: char)
    requires c != NUL
    ensures var b := Utf8Char(c);
            && b != [] && (forall k :: 0 <= k < |b| ==> 1 <= b[k] < 0xFF)
            && (b[|b| - 1] >= 4 <==> c as int >= 4)
            && (!PrintableCode(c as int) ==> !PrintableCode(b[0]))
  {
  }

  lemma {:induction false} TextBytes(s: string)
    requires NUL !in s
    ensures var b := Utf8Bytes(s);
            && |b| >= |s| && (forall k :: 0 <= k < |b| ==> 1 <= b[k] < 0xFF)
            && (s != "" ==> (b[|b| - 1] >= 4 <==> s[|s| - 1] as int >= 4))
            && (Printable(s) || exists k :: 0 <= k < |b| && !PrintableCode(b[k]))
  {
    if s != "" {
      var head, tail, b := Utf8Char(s[0]), Utf8Bytes(s[1..]), Utf8Bytes(s);
      CharBytes(s[0]);
      TextBytes(s[1..]);
      assert b == head + tail;
      if !PrintableCode(s[0] as int) {
        assert !PrintableCode(b[0]);
      } else if k :| 0 <= k < |tail| && !PrintableCode(tail[k]) {
        assert b[|head| + k] == tail[k];
      } else {
        assert forall k :: 1 <= k < |s| ==> s[k] == s[1..][k - 1];
      }
    }
  }

  // ---- Where one record lies ----

  /** The end of the text of a UTF-8 record at i. */
  function TextEnd(i: nat, s: string): nat {
    i + 4 + |Utf8Bytes(s)|
  }

  lemma {:induction false} LengthWord(b: seq<Byte>, i: nat, n: nat)
    requires 0 < n < LONG && i + 4 <= |b|
    requires forall k {:trigger LengthBytes(n)[k]} :: 0 <= k < 4 ==> b[i + k] == LengthBytes(n)[k]
    ensures Le32(b, i) == n && (b[i] != 0 || b[i + 1] != 0) && b[i + 2] == 0 && b[i + 3] == 0
  {
    var l := LengthBytes(n);
    assert b[i + 0] == l[0] && b[i + 1] == l[1] && b[i + 2] == l[2] && b[i + 3] == l[3];
  }

  /** The zeros at the end of a UTF-8 record: its terminator and its padding. */
  function EndZeros(s: string): (z: seq<Byte>)
    ensures 1 <= |z| <= 4 && forall k :: 0 <= k < |z| ==> z[k] == 0
  {
    var used := 4 + |Utf8Bytes(s)| + 1;
    [0] + Zeros(Align4(used) - used)
  }

  lemma {:induction false} RecordParts(s: string)
    ensures Utf8Record(s) == LengthBytes(|Utf8Bytes(s)|) + Utf8Bytes(s) + EndZeros(s) + []
  {
    var used := 4 + |Utf8Bytes(s)| + 1;
    Regroup(LengthBytes(|Utf8Bytes(s)|) + Utf8Bytes(s), [0], Zeros(Align4(used) - used));
  }

  lemma {:induction false} TextRecordLies(b: seq<Byte>, i: nat, s: string, rest: seq<Byte>)
    requires s != "" && NUL !in s
    requires i <= |b| && b[i..] == Utf8Record(s) + rest
    ensures var t, e := TextEnd(i, s), i + |Utf8Record(s)|;
            && TextAt(b, i + 4, t) && i + 4 < t < e <= t + 4 && ZerosAt(b, t, e)
            && (forall k :: i + 4 <= k < t ==> b[k] == Utf8Bytes(s)[k - (i + 4)])
            && (if |Utf8Bytes(s)| < LONG then ShortAt(b, i) && Le32(b, i) == |Utf8Bytes(s)| else LongAt(b, i))
  {
    var bytes, end := Utf8Bytes(s), EndZeros(s);
    TextBytes(s);
    RecordParts(s);
    PartsAt(b, i, LengthBytes(|bytes|), bytes, end, [], rest);
    assert b[i + 4 + 0] == bytes[0];
    if |bytes| < LONG {
      LengthWord(b, i, |bytes|);
    }
  }

  lemma {:induction false} UnreadableLies(b: seq<Byte>, i: nat, s: string, rest: seq<Byte>)
    requires NUL !in s && !Readable(s)
    requires i <= |b| && b[i..] == Utf8Record(s) + rest
    ensures var t := TextEnd(i, s);
            UnreadableAt(b, i, t, i + |Utf8Record(s)|) && (b[t - 1] >= 4 <==> s[|s| - 1] as int >= 4)
  {
    TextRecordLies(b, i, s, rest);
    TextBytes(s);
    var bytes := Utf8Bytes(s);
    if |bytes| < MAX_LEN {
      var k :| 0 <= k < |bytes| && !PrintableCode(bytes[k]);
      assert b[i + 4 + k] == bytes[k];
    }
  }

  // ---- What begins where a record begins ----

  /** A record of text, in either encoding, that the reader can tell from the zeros before it. */
  predicate Clear(r: Record) {
    r.text != "" && NUL !in r.text && (r.encoding.Utf16? ==> Readable(r.text))
  }

  lemma {:induction false} EmptyLies(b: seq<Byte>, e: nat, r: Record, rest: seq<Byte>)
    requires r.text == "" && e <= |b| && b[e..] == RecordBytes(r) + rest
    ensures EmptyAt(b, e) && |RecordBytes(r)| == 8
  {
    EmptyRecordsCoincide();
    assert Utf8Record("") == Zeros(8);
    forall k | e <= k < e + 8
      ensures b[k] == 0
    {
      assert b[k] == b[e..][k - e] == Zeros(8)[k - e];
    }
  }

  lemma {:induction false} ClearLies(b: seq<Byte>, e: nat, r: Record, rest: seq<Byte>)
    requires Clear(r) && e <= |b| && b[e..] == RecordBytes(r) + rest
    ensures ShortAt(b, e) || LongAt(b, e)
    ensures r.encoding.Utf8? && |Utf8Bytes(r.text)| >= LONG ==> LongAt(b, e)
    ensures LongAt(b, e) ==> r.encoding.Utf8? && |Utf8Bytes(r.text)| >= LONG
  {
    if r.encoding.Utf8? {
      TextRecordLies(b, e, r.text, rest);
      assert b[TextEnd(e, r.text)] == 0;
    } else {
      Utf16RecordAt(b, e, r.text, rest);
      Le32OfShort(b, e);
      assert b[e + 4 + 2 * 0] == r.text[0] as int && b[e + 4 + 2 * 0 + 1] == 0;
    }
  }

  lemma {:induction false} Le32OfShort(b: seq<Byte>, e: nat)
    requires e + 4 <= |b| && 0 < Le32(b, e) < LONG
    ensures (b[e] != 0 || b[e + 1] != 0) && b[e + 2] == 0 && b[e + 3] == 0
  {
  }

  // ---- The walk ----

  /** What the reader does with one record: it found it, or passes over a text that ends at textEnd. */
  datatype Step = Read(collected: seq<string>) | Skip(textEnd: nat)

  ghost predicate StepAt(b: seq<Byte>, step: Step, start: nat, next: nat) {
    match step
    case Read(collected) =>
      start + 4 <= |b| && AdvanceAt(b, start).collected == collected && next == start + AdvanceAt(b, start).consumed
    case Skip(textEnd) => UnreadableAt(b, start, textEnd, next) && b[textEnd - 1] >= 4
  }

  ghost predicate BeginsWith(b: seq<Byte>, step: Step, start: nat, next: nat) {
    || (EmptyAt(b, start) && next == start + 8)
    || (ShortAt(b, start) && !LongAt(b, start))
    || (LongAt(b, start) && step.Skip? && step.textEnd >= start + 6)
  }

  /** Step j is made at starts[j]; after the last one the file ends or a short text begins. */
  ghost predicate Walkable(b: seq<Byte>, starts: seq<nat>, steps: seq<Step>) {
    && |starts| == |steps| + 1
    && (forall j :: 0 <= j < |steps| ==> StepAt(b, steps[j], starts[j], starts[j + 1]))
    && (forall j :: 0 <= j < |steps| ==> BeginsWith(b, steps[j], starts[j], starts[j + 1]))
    && (starts[|steps|] == |b| || (ShortAt(b, starts[|steps|]) && !LongAt(b, starts[|steps|])))
  }

  function TextsIn(step: Step): seq<string> {
    if step.Read? then step.collected else []
  }

  function Collected(steps: seq<Step>, j: nat): seq<string>
    requires j <= |steps|
    decreases |steps| - j
  {
    if j == |steps| then [] else TextsIn(steps[j]) + Collected(steps, j + 1)
  }

  lemma {:induction false} NextFollows(b: seq<Byte>, starts: seq<nat>, steps: seq<Step>, j: nat)
    requires Walkable(b, starts, steps) && j < |steps|
    ensures StepAt(b, steps[j], starts[j], starts[j + 1]) && NextAt(b, starts[j + 1])
  {
    assert j + 1 < |steps| ==> BeginsWith(b, steps[j + 1], starts[j + 1], starts[j + 2]);
  }

  lemma {:induction false} StepSkipped(b: seq<Byte>, found: nat -> seq<string>, start: nat, textEnd: nat, next: nat, q: nat)
    requires Finds(b, found)
    requires StepAt(b, Skip(textEnd), start, next) && NextAt(b, next) && start <= q <= textEnd
    ensures found(q) == found(textEnd)
    ensures textEnd <= next <= textEnd + 4 && ZerosAt(b, textEnd, next)
  {
    UnreadablePassed(b, found, start, textEnd, next, q, textEnd);
  }

  /** From the zeros before record j the reader gets to it. */
  lemma {:induction false} ZerosWalked(b: seq<Byte>, found: nat -> seq<string>, starts: seq<nat>, steps: seq<Step>, j: nat, q: nat)
    requires Finds(b, found)
    requires Walkable(b, starts, steps) && j <= |steps|
    requires q <= starts[j] <= q + 4 && ZerosAt(b, q, starts[j])
    ensures found(q) == found(starts[j])
    decreases |steps| - j, 0
  {
    var e := starts[j];
    if j < |steps| && EmptyAt(b, e) && starts[j + 1] == e + 8 {
      EmptyPassed(b, found, q, e);
      EmptyPassed(b, found, e, e);
      ZerosWalked(b, found, starts, steps, j + 1, q + 8);
    } else if LongAt(b, e) {
      var x := ZerosBeforeLong(b, found, q, e);
      SkipWalked(b, found, starts, steps, j, x);
      SkipWalked(b, found, starts, steps, j, e);
    } else {
      ZerosPassed(b, found, q, e);
    }
  }

  /** From anywhere in an unreadable record the reader gets to the next, collecting nothing. */
  lemma {:induction false} SkipWalked(b: seq<Byte>, found: nat -> seq<string>, starts: seq<nat>, steps: seq<Step>, j: nat, q: nat)
    requires Finds(b, found)
    requires Walkable(b, starts, steps) && j < |steps| && steps[j].Skip?
    requires starts[j] <= q <= steps[j].textEnd
    ensures found(q) == found(starts[j + 1])
    decreases |steps| - j - 1, 1
  {
    NextFollows(b, starts, steps, j);
    StepSkipped(b, found, starts[j], steps[j].textEnd, starts[j + 1], q);
    ZerosWalked(b, found, starts, steps, j + 1, steps[j].textEnd);
  }

  lemma {:induction false} ReadWalked(b: seq<Byte>, found: nat -> seq<string>, collected: seq<string>, start: nat, next: nat)
    requires Finds(b, found)
    requires StepAt(b, Read(collected), start, next)
    ensures found(start) == collected + found(next)
  {
    assert found(start) == Strings(b, start) && found(next) == Strings(b, next);
  }

  lemma {:induction false} StepWalked(b: seq<Byte>, found: nat -> seq<string>, starts: seq<nat>, steps: seq<Step>, j: nat)
    requires Finds(b, found)
    requires Walkable(b, starts, steps) && j < |steps|
    ensures found(starts[j]) == TextsIn(steps[j]) + found(starts[j + 1])
  {
    if steps[j].Read? {
      ReadWalked(b, found, steps[j].collected, starts[j], starts[j + 1]);
    } else {
      assert StepAt(b, steps[j], starts[j], starts[j + 1]);
      SkipWalked(b, found, starts, steps, j, starts[j]);
      assert [] + found(starts[j + 1]) == found(starts[j + 1]);
    }
  }

  /** The reader collects what the steps collect, and then what it finds after them. */
  lemma {:induction false} Walked(b: seq<Byte>, found: nat -> seq<string>, starts: seq<nat>, steps: seq<Step>, j: nat)
    requires Finds(b, found)
    requires Walkable(b, starts, steps) && j <= |steps|
    ensures found(starts[j]) == Collected(steps, j) + found(starts[|steps|])
    decreases |steps| - j
  {
    var rest := found(starts[|steps|]);
    if j == |steps| {
      assert [] + rest == rest;
    } else {
      StepWalked(b, found, starts, steps, j);
      Walked(b, found, starts, steps, j + 1);
      Regroup(TextsIn(steps[j]), Collected(steps, j + 1), rest);
    }
  }

  // ---- Files of records ----

  /** A walk can be followed up to record k: the file ends there, or a record begins that is not taken for zeros. */
  predicate Stop(rs: seq<Record>, k: nat) {
    k == |rs| || (k < |rs| && Clear(rs[k]) && |Utf8Bytes(rs[k].text)| < LONG)
  }

  function StepOf(r: Record, start: nat): Step {
    if Readable(r.text) then Read(TextsOf(r)) else Skip(TextEnd(start, r.text))
  }

  /** The record lies in the file from start to next. */
  ghost predicate LiesAt(b: seq<Byte>, start: nat, next: nat, r: Record) {
    exists rest :: start <= |b| && b[start..] == RecordBytes(r) + rest && next == start + |RecordBytes(r)|
  }

  lemma {:induction false} StepLies(b: seq<Byte>, start: nat, next: nat, r: Record)
    requires RecordInStep(r) && LiesAt(b, start, next, r)
    ensures StepAt(b, StepOf(r, start), start, next)
  {
    var rest :| start <= |b| && b[start..] == RecordBytes(r) + rest && next == start + |RecordBytes(r)|;
    if Readable(r.text) {
      RecordLies(b, start, r, rest);
      RecordDecodes(b, start, r);
    } else {
      UnreadableLies(b, start, r.text, rest);
    }
  }

  lemma {:induction false} BeginningLies(b: seq<Byte>, start: nat, next: nat, r: Record)
    requires RecordInStep(r) && LiesAt(b, start, next, r)
    ensures BeginsWith(b, StepOf(r, start), start, next)
  {
    var rest :| start <= |b| && b[start..] == RecordBytes(r) + rest && next == start + |RecordBytes(r)|;
    if r.text == "" {
      EmptyLies(b, start, r, rest);
    } else {
      ClearLies(b, start, r, rest);
      if Readable(r.text) {
        Utf8OfPrintable(r.text);
      }
    }
  }

  lemma {:induction false} StopLies(rs: seq<Record>, k: nat, b: seq<Byte>, start: nat)
    requires Stop(rs, k) && b == Bytes(rs) && start == Start(rs, k)
    ensures start == |b| || (ShortAt(b, start) && !LongAt(b, start))
  {
    if k == |rs| {
      assert rs[..|rs|] == rs;
    } else {
      BytesFrom(rs, k);
      ClearLies(b, start, rs[k], Bytes(rs[k + 1..]));
    }
  }

  function Starts(rs: seq<Record>, k: nat): seq<nat>
    requires k <= |rs|
  {
    seq(k + 1, j requires 0 <= j <= k => Start(rs, j))
  }

  function Steps(rs: seq<Record>, k: nat): seq<Step>
    requires k <= |rs|
  {
    seq(k, j requires 0 <= j < k => StepOf(rs[j], Start(rs, j)))
  }

  lemma {:induction false} RecordLiesIn(rs: seq<Record>, j: nat, b: seq<Byte>, start: nat, next: nat)
    requires j < |rs| && b == Bytes(rs) && start == Start(rs, j) && next == Start(rs, j + 1)
    ensures LiesAt(b, start, next, rs[j])
  {
    BytesFrom(rs, j);
  }

  lemma {:induction false} RecordsLieIn(rs: seq<Record>, k: nat, b: seq<Byte>, starts: seq<nat>)
    requires k <= |rs| && b == Bytes(rs) && |starts| == k + 1
    requires forall j {:trigger starts[j]} :: 0 <= j <= k ==> starts[j] == Start(rs, j)
    ensures forall j :: 0 <= j < k ==> LiesAt(b, starts[j], starts[j + 1], rs[j])
  {
    forall j | 0 <= j < k
      ensures LiesAt(b, starts[j], starts[j + 1], rs[j])
    {
      RecordLiesIn(rs, j, b, starts[j], starts[j + 1]);
    }
  }

  lemma {:induction false} RecordsAreWalkable(rs: seq<Record>, b: seq<Byte>, starts: seq<nat>, steps: seq<Step>)
    requires |starts| == |steps| + 1 && |steps| <= |rs|
    requires starts[|steps|] == |b| || (ShortAt(b, starts[|steps|]) && !LongAt(b, starts[|steps|]))
    requires forall j :: 0 <= j < |steps| ==> RecordInStep(rs[j]) && steps[j] == StepOf(rs[j], starts[j])
    requires forall j :: 0 <= j < |steps| ==> LiesAt(b, starts[j], starts[j + 1], rs[j])
    ensures Walkable(b, starts, steps)
  {
    forall j | 0 <= j < |steps|
      ensures StepAt(b, steps[j], starts[j], starts[j + 1]) && BeginsWith(b, steps[j], starts[j], starts[j + 1])
    {
      StepLies(b, starts[j], starts[j + 1], rs[j]);
      BeginningLies(b, starts[j], starts[j + 1], rs[j]);
    }
  }

  lemma {:induction false} FileIsWalkable(rs: seq<Record>, k: nat, b: seq<Byte>, starts: seq<nat>, steps: seq<Step>)
    requires k <= |rs| && Stop(rs, k) && b == Bytes(rs) && starts == Starts(rs, k) && steps == Steps(rs, k)
    requires forall j :: 0 <= j < k ==> RecordInStep(rs[j])
    ensures Walkable(b, starts, steps)
  {
    StopLies(rs, k, b, starts[k]);
    RecordsLieIn(rs, k, b, starts);
    RecordsAreWalkable(rs, b, starts, steps);
  }

  lemma {:induction false} StepsCollect(rs: seq<Record>, steps: seq<Step>, k: nat, j: nat)
    requires j <= k <= |rs| && |steps| == k
    requires forall m {:trigger steps[m]} :: 0 <= m < k ==> if Readable(rs[m].text) then steps[m] == Read(TextsOf(rs[m])) else steps[m].Skip?
    ensures Collected(steps, j) == ReadableTexts(rs[j..k])
    decreases k - j
  {
    if j < k {
      StepsCollect(rs, steps, k, j + 1);
      assert rs[j..k][1..] == rs[j + 1..k];
      assert TextsIn(steps[j]) == TextsOf(rs[j]);
    }
  }

  /** Up to a record where a walk can stop, the reader collects exactly the readable, non-empty texts. */
  lemma {:induction false} ReadUpTo(rs: seq<Record>, k: nat, rest: seq<string>)
    requires k <= |rs| && Stop(rs, k) && forall j :: 0 <= j < k ==> RecordInStep(rs[j])
    requires rest == Strings(Bytes(rs), Start(rs, k))
    ensures Strings(Bytes(rs), 0) == ReadableTexts(rs[..k]) + rest
  {
    var b, starts, steps := Bytes(rs), Starts(rs, k), Steps(rs, k);
    FileIsWalkable(rs, k, b, starts, steps);
    var found := (j: nat) => Strings(b, j);
    Walked(b, found, starts, steps, 0);
    StepsCollect(rs, steps, k, 0);
    assert rs[0..k] == rs[..k] && rs[..0] == [];
    assert starts[0] == Start(rs, 0) == 0;
  }

  lemma {:induction false} NothingAtEnd(b: seq<Byte>)
    ensures Strings(b, |b|) == []
  {
  }

  /** A file of records in step found back as its readable, non-empty strings in order. */
  lemma {:induction false} RecordsReadBack(rs: seq<Record>)
    requires forall k :: 0 <= k < |rs| ==> RecordInStep(rs[k])
    ensures Strings(Bytes(rs), 0) == ReadableTexts(rs)
  {
    assert rs[..|rs|] == rs;
    NothingAtEnd(Bytes(rs));
    ReadUpTo(rs, |rs|, []);
    assert ReadableTexts(rs) + [] == ReadableTexts(rs);
  }

  // ---- Where it goes wrong ----

  /** A text whose last byte, 1, is followed by three zeros: those four bytes read as the length word 1. */
  predicate EndsAsLengthOne(s: string) {
    && s != "" && NUL !in s && s[|s| - 1] == '\U{0001}'
    && |Utf8Bytes(s)| < LONG && |Utf8Bytes(s)| % 4 == 1
  }

  lemma {:induction false} LastByteOne(s: string)
    requires s != "" && s[|s| - 1] == '\U{0001}'
    ensures var b := Utf8Bytes(s); b != [] && b[|b| - 1] == 1
  {
    if |s| > 1 {
      LastByteOne(s[1..]);
    }
  }

  /** An unreadable text from i to t, three zeros, and a text of n characters that ends at last and ends the file. */
  ghost predicate MisreadAt(b: seq<Byte>, i: nat, t: nat, last: nat, n: nat) {
    && UnreadableAt(b, i, t, t + 3) && b[t - 1] == 1 && i + 4 < t
    && ShortAt(b, t + 3) && b[t + 3] == n && b[t + 4] == 0 && 32 <= n <= 126
    && TailAt(b, t + 7, last, |b|) && b[last - 1] >= 4
  }

  /** The length byte is taken for a text of one character, and the rest of the length word is passed over. */
  lemma {:induction false} LengthByteRead(b: seq<Byte>, i: nat, t: nat, last: nat, n: nat)
    requires MisreadAt(b, i, t, last, n)
    ensures AdvanceAt(b, t - 1) == Advance([[n as char]], 8)
  {
    assert Le32(b, t - 1) == 1;
    assert BytesAt(b, t + 3, 1) == [n];
    assert AsciiText([n]) == [n as char];
  }

  lemma {:induction false} TailToEnd(b: seq<Byte>, found: nat -> seq<string>, lo: nat, last: nat)
    requires Finds(b, found) && TailAt(b, lo, last, |b|) && b[last - 1] >= 4
    ensures found(lo) == []
  {
    TextPassed(b, found, lo, last, |b|, lo, last);
    ZerosPassed(b, found, last, |b|);
    NothingAtEnd(b);
  }

  lemma {:induction false} MisreadWalked(b: seq<Byte>, found: nat -> seq<string>, i: nat, t: nat, last: nat, n: nat)
    requires Finds(b, found) && MisreadAt(b, i, t, last, n)
    ensures found(i) == [[n as char]]
  {
    UnreadablePassed(b, found, i, t, t + 3, i, t - 1);
    LengthByteRead(b, i, t, last, n);
    ReadWalked(b, found, [[n as char]], t - 1, t + 7);
    TailToEnd(b, found, t + 7, last);
    assert [[n as char]] + [] == [[n as char]];
  }

  lemma {:induction false} LastTextLies(b: seq<Byte>, e: nat, w: string)
    requires w != "" && Readable(w) && |w| < 256 && e <= |b| && b[e..] == Utf8Record(w)
    ensures ShortAt(b, e) && b[e] == |w| && b[e + 1] == 0
    ensures TailAt(b, e + 4, TextEnd(e, w), |b|) && b[TextEnd(e, w) - 1] >= 4
  {
    assert b[e..] == Utf8Record(w) + [];
    TextRecordLies(b, e, w, []);
    Utf8OfPrintable(w);
    assert b[TextEnd(e, w) - 1] == Utf8Bytes(w)[|w| - 1];
  }

  lemma {:induction false} FirstTextLies(b: seq<Byte>, i: nat, s: string, rest: seq<Byte>)
    requires EndsAsLengthOne(s) && i <= |b| && b[i..] == Utf8Record(s) + rest
    ensures var t := TextEnd(i, s);
            && UnreadableAt(b, i, t, t + 3) && b[t - 1] == 1 && i + 4 < t
            && b[t + 3..] == rest
  {
    assert !PrintableCode(s[|s| - 1] as int);
    LastByteOne(s);
    TextRecordLies(b, i, s, rest);
    UnreadableLies(b, i, s, rest);
    assert b[i + |Utf8Record(s)|..] == b[i..][|Utf8Record(s)|..];
  }

  lemma {:induction false} MisreadLies(b: seq<Byte>, i: nat, s: string, w: string)
    requires EndsAsLengthOne(s) && Readable(w) && 32 <= |w| <= 126
    requires i <= |b| && b[i..] == Utf8Record(s) + Utf8Record(w)
    ensures MisreadAt(b, i, TextEnd(i, s), TextEnd(TextEnd(i, s) + 3, w), |w|)
  {
    FirstTextLies(b, i, s, Utf8Record(w));
    LastTextLies(b, TextEnd(i, s) + 3, w);
  }

  lemma {:induction false} LastTwoLie(rs: seq<Record>, before: seq<Record>, s: string, w: string, b: seq<Byte>, i: nat)
    requires rs == before + [Record(Utf8, s), Record(Utf8, w)] && b == Bytes(rs) && i == Start(rs, |before|)
    ensures i <= |b| && b[i..] == Utf8Record(s) + Utf8Record(w)
  {
    BytesFrom(rs, |before|);
    assert rs[|before| + 1..] == [Record(Utf8, w)];
    assert Bytes([Record(Utf8, w)]) == Utf8Record(w) + [];
  }

  lemma {:induction false} LastTwoFound(b: seq<Byte>, i: nat, s: string, w: string)
    requires EndsAsLengthOne(s) && Readable(w) && 32 <= |w| <= 126
    requires i <= |b| && b[i..] == Utf8Record(s) + Utf8Record(w)
    ensures Strings(b, i) == [[|w| as char]]
  {
    MisreadLies(b, i, s, w);
    MisreadWalked(b, (j: nat) => Strings(b, j), i, TextEnd(i, s), TextEnd(TextEnd(i, s) + 3, w), |w|);
  }

  /**
   A file that ends in such a text and then a readable one of 32 to 126
   characters: instead of that last text the reader finds one character, the
   code of its length.
   */
  lemma {:induction false} LastTextMisread(rs: seq<Record>, before: seq<Record>, s: string, w: string)
    requires rs == before + [Record(Utf8, s), Record(Utf8, w)]
    requires EndsAsLengthOne(s) && Readable(w) && 32 <= |w| <= 126
    requires forall j :: 0 <= j < |before| ==> RecordInStep(before[j])
    ensures Strings(Bytes(rs), 0) == ReadableTexts(before) + [[|w| as char]]
  {
    var k, i := |before|, Start(rs, |before|);
    assert rs[..k] == before;
    LastTwoLie(rs, before, s, w, Bytes(rs), i);
    LastTwoFound(Bytes(rs), i, s, w);
    ReadUpTo(rs, k, [[|w| as char]]);
  }

  // ---- Reading everything back ----

  lemma {:induction false} TextsContain(rs: seq<Record>, k: nat)
    requires k < |rs| && rs[k].text != ""
    ensures rs[k].text in Texts(rs)
  {
    if k > 0 {
      TextsContain(rs[1..], k - 1);
    }
  }

  lemma {:induction false} AllReadable(rs: seq<Record>)
    requires forall k :: 0 <= k < |rs| ==> Readable(rs[k].text)
    ensures ReadableTexts(rs) == Texts(rs)
  {
    if rs != [] {
      AllReadable(rs[1..]);
    }
  }

  /**
   The round trip, exactly: a file of any records, in any mixture of the two
   encodings, found back as its non-empty strings in order if and only if every
   one of them is printable ASCII and shorter than 4000.
   */
  lemma {:induction false} RoundTripIff(rs: seq<Record>)
    ensures Strings(Bytes(rs), 0) == Texts(rs) <==> forall k :: 0 <= k < |rs| ==> Readable(rs[k].text)
  {
    var b := Bytes(rs);
    if Strings(b, 0) == Texts(rs) {
      StringsAreReadable(b, 0);
      forall k | 0 <= k < |rs|
        ensures Readable(rs[k].text)
      {
        if rs[k].text != "" {
          TextsContain(rs, k);
        }
      }
    }
    if forall k :: 0 <= k < |rs| ==> Readable(rs[k].text) {
      RecordsReadBack(rs);
      AllReadable(rs);
    }
  }
}
