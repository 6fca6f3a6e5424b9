/**
 What the two attempts decode, exactly, and what the writers encode.  An attempt
 succeeds at a position if and only if a record of a readable text lies there,
 apart from its padding, which is not looked at.
 */
module ParcelDecode {
  import opened Options
  import opened Octets
  import opened ParcelFormat
  import opened ParcelRoundTrip
  import opened ParcelSkip

  // ---- Encoding ----

  lemma {:induction false} NestedDivisions(n: nat)
    ensures n / 0x1_0000 == n / 0x100 / 0x100
    ensures n / 0x100_0000 == n / 0x1_0000 / 0x100
    ensures n / 0x1_0000_0000 == n / 0x100_0000 / 0x100
  {
  }

  lemma {:induction false} Remainder(n: nat, d: nat)
    requires d > 0
    ensures n % d == n - d * (n / d)
  {
  }

  /** The four bytes of a length are its value, lowest byte first, modulo 2 to the 32. */
  lemma {:induction false} LengthBytesValue(n: nat)
    ensures var l: seq<int> := LengthBytes(n);
            l[0] + 0x100 * l[1] + 0x1_0000 * l[2] + 0x100_0000 * l[3] == n % 0x1_0000_0000
  {
    NestedDivisions(n);
    Remainder(n, 0x1_0000_0000);
    Remainder(n, 0x100);
    Remainder(n / 0x100, 0x100);
    Remainder(n / 0x1_0000, 0x100);
    Remainder(n / 0x100_0000, 0x100);
  }

  /** The six-bit groups of a number below 2 to the 24. */
  lemma {:induction false} SixBitGroups(x: nat)
    requires x < 0x100_0000
    ensures x / 0x1000 == x / 0x40 / 0x40 && x / 0x4_0000 == x / 0x1000 / 0x40
    ensures x % 0x40 == x - 0x40 * (x / 0x40)
    ensures x / 0x40 % 0x40 == x / 0x40 - 0x40 * (x / 0x1000)
    ensures x / 0x1000 % 0x40 == x / 0x1000 - 0x40 * (x / 0x4_0000)
  {
    assert x / 0x1000 == x / 0x40 / 0x40;
    assert x / 0x4_0000 == x / 0x1000 / 0x40;
    Remainder(x, 0x40);
    Remainder(x / 0x40, 0x40);
    Remainder(x / 0x1000, 0x40);
  }

  predicate Continuation(x: int) {
    0x80 <= x < 0xC0
  }

  /** b is the shortest of the four forms of UTF-8 for x. */
  predicate Utf8Form(b: seq<int>, x: int) {
    || (|b| == 1 && 0 <= x < 0x80 && b[0] == x)
    || (|b| == 2 && 0x80 <= x < 0x800 && 0xC0 <= b[0] < 0xE0 && Continuation(b[1])
        && x == (b[0] - 0xC0) * 0x40 + (b[1] - 0x80))
    || (|b| == 3 && 0x800 <= x < 0x1_0000 && 0xE0 <= b[0] < 0xF0 && Continuation(b[1]) && Continuation(b[2])
        && x == (b[0] - 0xE0) * 0x1000 + (b[1] - 0x80) * 0x40 + (b[2] - 0x80))
    || (|b| == 4 && 0x1_0000 <= x && 0xF0 <= b[0] < 0xF8
        && Continuation(b[1]) && Continuation(b[2]) && Continuation(b[3])
        && x == (b[0] - 0xF0) * 0x4_0000 + (b[1] - 0x80) * 0x1000 + (b[2] - 0x80) * 0x40 + (b[3] - 0x80))
  }

  /** Each character is encoded in the shortest of the four forms, and its bits can be read off. */
  lemma {:induction false} Utf8CharValue(c: char)
    ensures Utf8Form(Utf8Char(c), c as int)
  {
    SixBitGroups(c as int);
  }

  lemma {:induction false} Utf8BytesConcat(s: string, t: string)
    ensures Utf8Bytes(s + t) == Utf8Bytes(s) + Utf8Bytes(t)
  {
    if s == "" {
      assert s + t == t;
    } else {
      assert (s + t)[1..] == s[1..] + t;
      Utf8BytesConcat(s[1..], t);
    }
  }

  /** UTF-16 encoding is undone by decoding, for any text, characters outside the basic plane included. */
  lemma {:induction false} Utf16RoundTrip(s: string, codes: seq<int>)
    requires codes == seq(|s|, k requires 0 <= k < |s| => s[k] as int)
    ensures DecodeReplacing(Utf16Units(s)) == codes
  {
    if s != "" {
      var us, rest := Utf16Units(s), Utf16Units(s[1..]);
      Utf16RoundTrip(s[1..], codes[1..]);
      assert us == Utf16Char(s[0]) + rest;
      if s[0] as int < 0x1_0000 {
        assert us[1..] == rest;
      } else {
        assert us[2..] == rest;
      }
      assert codes == [codes[0]] + codes[1..];
    }
  }

  // ---- Decoding ----

  lemma {:induction false} TryUtf8Iff(b: seq<Byte>, i: nat, d: Decoded)
    ensures TryUtf8(b, i) == Some(d)
       <==> d.text != "" && Readable(d.text) && Utf8At(b, i, d.text) && d.consumed == Align4(4 + |d.text| + 1)
  {
    if d.text != "" && Readable(d.text) && Utf8At(b, i, d.text) {
      Utf8RecordDecodes(b, i, d.text);
    }
    if TryUtf8(b, i) == Some(d) {
      var segment := BytesAt(b, i + 4, Le32(b, i));
      assert forall k :: 0 <= k < |segment| ==> segment[k] == b[i + 4 + k];
    }
  }

  lemma {:induction false} PrintableUnit(b: seq<Byte>, i: nat, k: nat, u: CodeUnit)
    requires i + 4 + 2 * k + 1 < |b| && u == UnitOf(b[i + 4 + 2 * k], b[i + 4 + 2 * k + 1]) && PrintableCode(u)
    ensures b[i + 4 + 2 * k] == u && b[i + 4 + 2 * k + 1] == 0
  {
  }

  lemma {:induction false} Utf16Decoded(b: seq<Byte>, i: nat)
    requires TryUtf16(b, i).Some?
    ensures var d := TryUtf16(b, i).value;
            Readable(d.text) && Utf16At(b, i, d.text) && d.consumed == Align4(4 + |d.text| * 2 + 2)
  {
    var us := UnitsAt(b, i + 4, Le32(b, i));
    PrintableUnits(us);
    if us != [] {
      DecodePrintable(us);
      forall k | 0 <= k < |us|
        ensures b[i + 4 + 2 * k] == us[k] && b[i + 4 + 2 * k + 1] == 0
      {
        PrintableUnit(b, i, k, us[k]);
      }
    }
  }

  lemma {:induction false} Utf16RecordDecoded(b: seq<Byte>, i: nat, s: string)
    requires Readable(s) && Utf16At(b, i, s)
    ensures TryUtf16(b, i) == Some(Decoded(s, Align4(4 + |s| * 2 + 2)))
  {
    if |s| == 1 {
      assert b[i + 4 + 2 * 0] == s[0] as int && b[i + 4 + 2 * 0 + 1] == 0;
      var us := UnitsAt(b, i + 4, 1);
      assert us == [s[0] as int];
      DecodePrintable(us);
      assert AsciiText(us) == s;
    } else if |s| >= 2 {
      LongerDecodes(b, i, s);
    }
  }

  lemma {:induction false} TryUtf16Iff(b: seq<Byte>, i: nat, d: Decoded)
    ensures TryUtf16(b, i) == Some(d)
       <==> Readable(d.text) && Utf16At(b, i, d.text) && d.consumed == Align4(4 + |d.text| * 2 + 2)
  {
    if TryUtf16(b, i).Some? {
      Utf16Decoded(b, i);
    }
    if Readable(d.text) && Utf16At(b, i, d.text) {
      Utf16RecordDecoded(b, i, d.text);
    }
  }

  /** The length word of a null string. */
  predicate NullAt(data: seq<Byte>, i: nat) {
    i + 4 <= |data| && data[i] == 0xFF && data[i + 1] == 0xFF && data[i + 2] == 0xFF && data[i + 3] == 0xFF
  }

  lemma {:induction false} NullWord(data: seq<Byte>, i: nat)
    requires i + 4 <= |data|
    ensures Le32(data, i) == -1 <==> NullAt(data, i)
  {
  }

  /**
   One round, case by case: a null takes four bytes; otherwise what decodes, as
   UTF-8 first, is collected unless it is empty; otherwise one byte is passed over.
   */
  lemma {:induction false} AdvanceIs(data: seq<Byte>, i: nat)
    requires i + 4 <= |data|
    ensures var a, u8, u16 := AdvanceAt(data, i), TryUtf8(data, i), TryUtf16(data, i);
            a == if NullAt(data, i) then Advance([], 4)
            else if u8.Some? then Advance([u8.value.text], u8.value.consumed)
            else if u16.Some? && u16.value.text != "" then Advance([u16.value.text], u16.value.consumed)
            else if u16.Some? then Advance([], u16.value.consumed)
            else Advance([], 1)
  {
    NullWord(data, i);
  }
}
