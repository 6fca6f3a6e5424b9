/**
 Reading back what was written.  Nothing in a record marks its encoding, yet any
 mixture of the two encodings reads back exactly, provided each string is
 printable ASCII and shorter than 4000.
 */
module ParcelRoundTrip {
  import opened Options
  import opened Octets
  import opened ParcelFormat

  datatype Encoding = Utf8 | Utf16

  datatype Record = Record(encoding: Encoding, text: string)

  function RecordBytes(r: Record): seq<Byte> {
    match r.encoding
    case Utf8 => Utf8Record(r.text)
    case Utf16 => Utf16Record(r.text)
  }

  function Bytes(rs: seq<Record>): seq<Byte> {
    if rs == [] then [] else RecordBytes(rs[0]) + Bytes(rs[1..])
  }

  /** The non-empty texts of the records, in order. */
  function Texts(rs: seq<Record>): seq<string> {
    if rs == [] then []
    else (if rs[0].text != "" then [rs[0].text] else []) + Texts(rs[1..])
  }

  /** What the reader can carry. */
  predicate Readable(s: string) {
    Printable(s) && |s| < MAX_LEN
  }

  /** Printable ASCII and shorter than 4000. */
  lemma {:induction false} ReadableIs(s: string)
    ensures Readable(s) <==> |s| < 4000 && forall k :: 0 <= k < |s| ==> ' ' <= s[k] <= '~'
  {
  }

  // ---- Encoding printable text ----

  lemma {:induction false} Utf8OfPrintable(s: string)
    requires Printable(s)
    ensures var b := Utf8Bytes(s);
            |b| == |s| && (forall k :: 0 <= k < |s| ==> b[k] == s[k] as int)
  {
    if s != "" {
      var rest := s[1..];
      Utf8OfPrintable(rest);
      assert Utf8Char(s[0]) == [s[0] as int];
      var b := Utf8Bytes(s);
      assert forall k :: 1 <= k < |s| ==> b[k] == Utf8Bytes(rest)[k - 1] && s[k] == rest[k - 1];
    }
  }

  lemma {:induction false} Utf16OfPrintable(s: string)
    requires Printable(s)
    ensures var us := Utf16Units(s);
            |us| == |s| && (forall k :: 0 <= k < |s| ==> us[k] == s[k] as int)
  {
    if s != "" {
      var rest := s[1..];
      Utf16OfPrintable(rest);
      assert Utf16Char(s[0]) == [s[0] as int];
      var us := Utf16Units(s);
      assert forall k :: 1 <= k < |s| ==> us[k] == Utf16Units(rest)[k - 1] && s[k] == rest[k - 1];
    }
  }

  lemma {:induction false} DecodePrintable(us: seq<CodeUnit>)
    requires AllPrintable(us)
    ensures DecodeReplacing(us) == us
  {
    if us != [] {
      DecodePrintable(us[1..]);
    }
  }

  lemma {:induction false} LengthRoundTrip(b: seq<Byte>, i: nat, n: nat)
    requires n < MAX_LEN && i + 4 <= |b|
    requires forall k :: 0 <= k < 4 ==> b[i + k] == LengthBytes(n)[k]
    ensures Le32(b, i) == n
  {
    var l := LengthBytes(n);
    assert b[i + 0] == l[0] && b[i + 1] == l[1] && b[i + 2] == l[2] && b[i + 3] == l[3];
  }

  // ---- One record ----

  /** Where the parts of a UTF-8 record lie in the file. */
  ghost predicate Utf8At(b: seq<Byte>, i: nat, s: string) {
    && i + 4 + |s| + 1 <= |b|
    && Le32(b, i) == |s|
    && (forall k :: 0 <= k < |s| ==> b[i + 4 + k] == s[k] as int)
    && b[i + 4 + |s|] == 0
  }

  /** Where the parts of a UTF-16 record lie in the file. */
  ghost predicate Utf16At(b: seq<Byte>, i: nat, s: string) {
    && i + 4 + 2 * |s| + 2 <= |b|
    && Le32(b, i) == |s|
    && (forall k :: 0 <= k < |s| ==> b[i + 4 + 2 * k] == s[k] as int && b[i + 4 + 2 * k + 1] == 0)
    && b[i + 4 + 2 * |s|] == 0 && b[i + 4 + 2 * |s| + 1] == 0
  }

  /** A record's four parts, each at its own position. */
  lemma {:induction false} PartsAt(b: seq<Byte>, i: nat, length: seq<Byte>, payload: seq<Byte>, end: seq<Byte>,
                                   padding: seq<Byte>, rest: seq<Byte>)
    requires i <= |b| && b[i..] == length + payload + end + padding + rest
    ensures i + |length| + |payload| + |end| <= |b|
    ensures forall k {:trigger length[k]} :: 0 <= k < |length| ==> b[i + k] == length[k]
    ensures forall k {:trigger payload[k]} :: 0 <= k < |payload| ==> b[i + |length| + k] == payload[k]
    ensures forall k {:trigger end[k]} :: 0 <= k < |end| ==> b[i + |length| + |payload| + k] == end[k]
  {
  }

  lemma {:induction false} Utf8RecordAt(b: seq<Byte>, i: nat, s: string, rest: seq<Byte>)
    requires Readable(s)
    requires i <= |b| && b[i..] == Utf8Record(s) + rest
    ensures Utf8At(b, i, s) && |Utf8Record(s)| == Align4(4 + |s| + 1)
  {
    Utf8OfPrintable(s);
    var bytes := Utf8Bytes(s);
    var used := 4 + |s| + 1;
    PartsAt(b, i, LengthBytes(|s|), bytes, [0], Zeros(Align4(used) - used), rest);
    LengthRoundTrip(b, i, |s|);
    assert [0][0] == 0;
    forall k | 0 <= k < |s|
      ensures b[i + 4 + k] == s[k] as int
    {
      assert bytes[k] == s[k] as int;
    }
  }

  /** Small code units: the low byte is the unit, the high byte zero. */
  lemma {:induction false} LittleEndianOfSmall(us: seq<CodeUnit>, k: nat)
    requires k < |us| && us[k] < 256
    ensures LittleEndian(us)[2 * k] == us[k] && LittleEndian(us)[2 * k + 1] == 0
  {
  }

  lemma {:induction false} Utf16RecordAt(b: seq<Byte>, i: nat, s: string, rest: seq<Byte>)
    requires Readable(s)
    requires i <= |b| && b[i..] == Utf16Record(s) + rest
    ensures Utf16At(b, i, s) && |Utf16Record(s)| == Align4(4 + |s| * 2 + 2)
  {
    Utf16OfPrintable(s);
    var us := Utf16Units(s);
    var payload := LittleEndian(us);
    var used := 4 + |s| * 2 + 2;
    PartsAt(b, i, LengthBytes(|s|), payload, [0, 0], Zeros(Align4(used) - used), rest);
    LengthRoundTrip(b, i, |s|);
    assert [0, 0][0] == 0 && [0, 0][1] == 0;
    forall k | 0 <= k < |s|
      ensures b[i + 4 + 2 * k] == s[k] as int && b[i + 4 + 2 * k + 1] == 0
    {
      assert us[k] == s[k] as int;
      LittleEndianOfSmall(us, k);
      assert payload[2 * k] == us[k] && payload[2 * k + 1] == 0;
    }
  }

  lemma {:induction false} Utf8RecordDecodes(b: seq<Byte>, i: nat, s: string)
    requires Readable(s) && s != "" && Utf8At(b, i, s)
    ensures TryUtf8(b, i) == Some(Decoded(s, Align4(4 + |s| + 1)))
  {
    var segment := BytesAt(b, i + 4, |s|);
    assert forall k :: 0 <= k < |s| ==> segment[k] == b[i + 4 + k] == s[k] as int;
    assert AsciiText(segment) == s;
  }

  lemma {:induction false} OneCharacterDecodes(b: seq<Byte>, i: nat, s: string)
    requires Readable(s) && |s| == 1 && Utf16At(b, i, s)
    ensures TryUtf8(b, i) == Some(Decoded(s, 8))
  {
    assert b[i + 4 + 2 * 0] == s[0] as int && b[i + 4 + 2 * 0 + 1] == 0;
    var segment := BytesAt(b, i + 4, 1);
    assert segment == [s[0] as int];
    assert AsciiText(segment) == s;
  }

  lemma {:induction false} LongerIsNotUtf8(b: seq<Byte>, i: nat, s: string)
    requires Readable(s) && |s| >= 2 && Utf16At(b, i, s)
    ensures TryUtf8(b, i) == None
  {
    assert b[i + 4 + 2 * 0 + 1] == 0;
    assert BytesAt(b, i + 4, |s|)[1] == 0 && !PrintableCode(0);
  }

  lemma {:induction false} LongerDecodes(b: seq<Byte>, i: nat, s: string)
    requires Readable(s) && |s| >= 2 && Utf16At(b, i, s)
    ensures TryUtf16(b, i) == Some(Decoded(s, Align4(4 + |s| * 2 + 2)))
  {
    var us := UnitsAt(b, i + 4, |s|);
    forall k | 0 <= k < |s|
      ensures us[k] == s[k] as int
    {
      assert b[i + 4 + 2 * k] == s[k] as int && b[i + 4 + 2 * k + 1] == 0;
    }
    DecodePrintable(us);
    assert AsciiText(us) == s;
  }

  /**
   A UTF-16 record also decodes.  A record of one character is taken by the
   UTF-8 branch, with the same text and the same length; a longer one is
   refused there, because the high byte of its first character is not
   printable.  An empty record is consumed and yields the empty text.
   */
  lemma {:induction false} Utf16RecordDecodes(b: seq<Byte>, i: nat, s: string)
    requires Readable(s) && Utf16At(b, i, s)
    ensures TryRecord(b, i) == Some(Decoded(s, Align4(4 + |s| * 2 + 2)))
    ensures |s| == 1 <==> TryUtf8(b, i).Some?
  {
    if |s| == 1 {
      OneCharacterDecodes(b, i, s);
    } else if |s| >= 2 {
      LongerIsNotUtf8(b, i, s);
      LongerDecodes(b, i, s);
    }
  }

  /** An empty UTF-8 record is the same bytes as an empty UTF-16 record. */
  lemma {:induction false} EmptyRecordsCoincide()
    ensures Utf8Record("") == Utf16Record("")
  {
  }

  /** The record lies at position i of the file; an empty record is the same in both encodings. */
  ghost predicate RecordAt(b: seq<Byte>, i: nat, r: Record) {
    if r.encoding == Utf8 && r.text != "" then Utf8At(b, i, r.text) else Utf16At(b, i, r.text)
  }

  function RecordSize(r: Record): nat {
    if r.encoding == Utf8 && r.text != "" then Align4(4 + |r.text| + 1) else Align4(4 + |r.text| * 2 + 2)
  }

  lemma {:induction false} RecordLies(b: seq<Byte>, i: nat, r: Record, rest: seq<Byte>)
    requires Readable(r.text)
    requires i <= |b| && b[i..] == RecordBytes(r) + rest
    ensures RecordAt(b, i, r) && RecordSize(r) == |RecordBytes(r)|
  {
    if r.encoding == Utf8 && r.text != "" {
      Utf8RecordAt(b, i, r.text, rest);
    } else {
      EmptyRecordsCoincide();
      Utf16RecordAt(b, i, r.text, rest);
    }
  }

  function AdvanceOf(r: Record): Advance {
    Advance(if r.text != "" then [r.text] else [], RecordSize(r))
  }

  lemma {:induction false} RecordDecodes(b: seq<Byte>, i: nat, r: Record)
    requires Readable(r.text) && RecordAt(b, i, r)
    ensures i + 4 <= |b| && AdvanceAt(b, i) == AdvanceOf(r)
  {
    if r.encoding == Utf8 && r.text != "" {
      Utf8RecordDecodes(b, i, r.text);
    } else {
      Utf16RecordDecodes(b, i, r.text);
    }
  }

  // ---- Whole files ----

  lemma {:induction false} BytesConcat(a: seq<Record>, c: seq<Record>)
    ensures Bytes(a + c) == Bytes(a) + Bytes(c)
  {
    if a == [] {
      assert a + c == c;
    } else {
      assert (a + c)[1..] == a[1..] + c;
      BytesConcat(a[1..], c);
    }
  }

  /** Where record k begins. */
  function Start(rs: seq<Record>, k: nat): nat
    requires k <= |rs|
  {
    |Bytes(rs[..k])|
  }

  lemma {:induction false} BytesFrom(rs: seq<Record>, k: nat)
    requires k < |rs|
    ensures Start(rs, k + 1) == Start(rs, k) + |RecordBytes(rs[k])| <= |Bytes(rs)|
    ensures Bytes(rs)[Start(rs, k)..] == RecordBytes(rs[k]) + Bytes(rs[k + 1..])
  {
    var before, after := rs[..k], rs[k + 1..];
    assert rs == before + ([rs[k]] + after);
    BytesConcat(before, [rs[k]] + after);
    assert ([rs[k]] + after)[1..] == after;
    assert rs[..k + 1] == before + [rs[k]];
    BytesConcat(before, [rs[k]]);
    assert Bytes([rs[k]]) == RecordBytes(rs[k]) + [];
  }

  /** Whatever the bytes, every string the reader collects is non-empty, printable and shorter than 4000. */
  lemma {:induction false} StringsAreReadable(b: seq<Byte>, i: nat)
    ensures forall k :: 0 <= k < |Strings(b, i)| ==> Readable(Strings(b, i)[k]) && Strings(b, i)[k] != ""
    decreases |b| - i
  {
    if i + 4 <= |b| {
      DecodedIsReadable(b, i);
      StringsAreReadable(b, i + AdvanceAt(b, i).consumed);
    }
  }

  lemma {:induction false} DecodeNotLonger(us: seq<CodeUnit>)
    ensures |DecodeReplacing(us)| <= |us|
  {
    if us != [] {
      DecodeNotLonger(us[if HighSurrogate(us[0]) && |us| > 1 then 2 else 1..]);
    }
  }

  lemma {:induction false} DecodedIsReadable(b: seq<Byte>, i: nat)
    ensures TryRecord(b, i).Some? ==> Readable(TryRecord(b, i).value.text)
  {
    if i + 4 <= |b| && TryUtf8(b, i).None? && TryUtf16(b, i).Some? {
      DecodeNotLonger(UnitsAt(b, i + 4, Le32(b, i)));
    }
  }
}
