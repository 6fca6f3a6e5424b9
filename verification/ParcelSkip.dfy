/**
 How the reader gets past what it cannot decode.  It advances one byte at a
 time through the rest of the record, never takes the bytes there for a
 record, and is back in step where the next record begins.
 */
module ParcelSkip {
  import opened Options
  import opened Octets
  import opened ParcelFormat

  // ---- What lies in the file ----

  /** No NUL and no 0xFF, which UTF-8 never uses. */
  ghost predicate TextAt(b: seq<Byte>, lo: nat, hi: nat) {
    hi <= |b| && forall k :: lo <= k < hi ==> 1 <= b[k] < 0xFF
  }

  ghost predicate ZerosAt(b: seq<Byte>, lo: nat, hi: nat) {
    hi <= |b| && forall k :: lo <= k < hi ==> b[k] == 0
  }

  /** A whole record of no text. */
  ghost predicate EmptyAt(b: seq<Byte>, e: nat) {
    ZerosAt(b, e, e + 8)
  }

  /** The beginning of a record of text shorter than 65536. */
  ghost predicate ShortAt(b: seq<Byte>, e: nat) {
    e + 5 <= |b| && (b[e] != 0 || b[e + 1] != 0) && b[e + 2] == 0 && b[e + 3] == 0 && b[e + 4] != 0
  }

  const LONG := 0x1_0000

  /** The beginning of a record of longer text: any length word, then text. */
  ghost predicate LongAt(b: seq<Byte>, e: nat) {
    TextAt(b, e + 4, e + 4 + LONG)
  }

  ghost predicate NextAt(b: seq<Byte>, e: nat) {
    e == |b| || EmptyAt(b, e) || ShortAt(b, e) || LongAt(b, e)
  }

  // ---- Attempts that fail ----

  lemma {:induction false} Le32Value(b: seq<Byte>, j: nat)
    requires j + 4 <= |b|
    ensures var b0: int, b1: int, b2: int := b[j], b[j + 1], b[j + 2];
            b[j + 3] == 0 ==> Le32(b, j) == b0 + 0x100 * b1 + 0x1_0000 * b2
    ensures 0 < b[j + 3] < 0xFF ==> Le32(b, j) >= MAX_LEN || Le32(b, j) < -1
    ensures b[j + 3] == 0xFF && (b[j] == 0 || b[j + 1] == 0 || b[j + 2] == 0) ==> Le32(b, j) < -1
  {
  }

  lemma {:induction false} OutOfRange(b: seq<Byte>, j: nat)
    requires j + 4 <= |b| && (Le32(b, j) >= MAX_LEN || Le32(b, j) < -1)
    ensures AdvanceAt(b, j) == Advance([], 1)
  {
  }

  /** Text that decodes to printable ASCII is printable unit by unit. */
  lemma {:induction false} PrintableUnits(us: seq<CodeUnit>)
    ensures AllPrintable(DecodeReplacing(us)) ==> AllPrintable(us)
  {
    if us != [] && AllPrintable(DecodeReplacing(us)) {
      var codes := DecodeReplacing(us);
      assert PrintableCode(codes[0]);
      assert codes == [us[0]] + DecodeReplacing(us[1..]);
      assert forall k :: 0 <= k < |codes| - 1 ==> DecodeReplacing(us[1..])[k] == codes[k + 1];
      PrintableUnits(us[1..]);
    }
  }

  lemma {:induction false} BadUnit(b: seq<Byte>, j: nat, k: nat)
    requires j + 4 <= |b| && k < Le32(b, j) < MAX_LEN
    requires j + 4 + 2 * k + 1 < |b| && !PrintableCode(UnitOf(b[j + 4 + 2 * k], b[j + 4 + 2 * k + 1]))
    ensures TryUtf16(b, j) == None
  {
    var ln := Le32(b, j);
    if j + 4 + ln * 2 + 2 <= |b| {
      var us := UnitsAt(b, j + 4, ln);
      assert !PrintableCode(us[k]);
      PrintableUnits(us);
    }
  }

  lemma {:induction false} BadByte(b: seq<Byte>, j: nat, k: nat)
    requires j + 4 <= |b| && k < Le32(b, j) < MAX_LEN
    requires j + 4 + k < |b| && !PrintableCode(b[j + 4 + k])
    ensures TryUtf8(b, j) == None
  {
    var ln := Le32(b, j);
    if j + 4 + ln + 1 <= |b| {
      assert BytesAt(b, j + 4, ln)[k] == b[j + 4 + k];
    }
  }

  /** A payload that would begin with NUL. */
  lemma {:induction false} NulFirst(b: seq<Byte>, j: nat)
    requires j + 5 <= |b| && 0 < Le32(b, j) < MAX_LEN && b[j + 4] == 0
    ensures AdvanceAt(b, j) == Advance([], 1)
  {
    BadByte(b, j, 0);
    if j + 5 < |b| {
      BadUnit(b, j, 0);
    }
  }

  /** A payload whose end would lie in text. */
  lemma {:induction false} EndsInText(b: seq<Byte>, j: nat, lo: nat, hi: nat)
    requires j + 4 <= |b| && 0 <= Le32(b, j) < MAX_LEN && TextAt(b, lo, hi)
    requires lo <= j + 4 + Le32(b, j) && j + 4 + 2 * Le32(b, j) + 1 < hi
    ensures AdvanceAt(b, j) == Advance([], 1)
  {
  }

  /** From near the beginning of what follows, no length of four or more decodes. */
  lemma {:induction false} Blocked(b: seq<Byte>, j: nat, e: nat)
    requires j + 4 <= |b| && 4 <= Le32(b, j) < MAX_LEN
    requires e <= j + 6 && j + 2 <= e && ZerosAt(b, j + 4, e) && NextAt(b, e)
    ensures AdvanceAt(b, j) == Advance([], 1)
  {
    if j + 4 < e || EmptyAt(b, e) {
      NulFirst(b, j);
    } else if LongAt(b, e) {
      EndsInText(b, j, e + 4, e + 4 + LONG);
    } else if ShortAt(b, e) {
      BadByte(b, j, e + 2 - (j + 4));
      BadUnit(b, j, if j + 4 == e then 1 else if j + 4 == e + 1 then 1 else 0);
    }
  }

  // ---- Through the text and the zeros after it ----

  /** A round that collects nothing, or the end of the file, changes nothing of what is found. */
  lemma {:induction false} Passed(b: seq<Byte>, found: nat -> seq<string>, j: nat, n: nat)
    requires Finds(b, found)
    requires if j + 4 <= |b| then AdvanceAt(b, j) == Advance([], n) else n == 1
    ensures found(j) == found(j + n)
  {
    assert found(j) == Strings(b, j) && found(j + n) == Strings(b, j + n);
  }

  /** Text from lo to t, and its zeros up to e. */
  ghost predicate TailAt(b: seq<Byte>, lo: nat, t: nat, e: nat) {
    && TextAt(b, lo, t) && lo < t
    && t < e <= t + 4 && ZerosAt(b, t, e)
  }

  /** No byte of the text begins a record, save perhaps a last byte below four. */
  lemma {:induction false} TextByte(b: seq<Byte>, lo: nat, t: nat, e: nat, j: nat)
    requires TailAt(b, lo, t, e) && NextAt(b, e) && lo <= j + 3 && j < t && j + 4 <= |b|
    requires j == t - 1 ==> b[j] >= 4
    ensures AdvanceAt(b, j) == Advance([], 1)
  {
    Le32Value(b, j);
    if b[j + 3] == 0 && Le32(b, j) < MAX_LEN {
      Blocked(b, j, e);
    } else {
      OutOfRange(b, j);
    }
  }

  lemma {:induction false} TextPassed(b: seq<Byte>, found: nat -> seq<string>, lo: nat, t: nat, e: nat, j: nat, to: nat)
    requires Finds(b, found)
    requires TailAt(b, lo, t, e) && NextAt(b, e) && lo <= j + 3 && j <= to <= t
    requires to == t ==> b[t - 1] >= 4
    ensures found(j) == found(to)
    decreases t - j
  {
    if j < to {
      if j + 4 <= |b| {
        TextByte(b, lo, t, e, j);
      }
      Passed(b, found, j, 1);
      TextPassed(b, found, lo, t, e, j + 1, to);
    }
  }

  /** Up to four zeros lie between q and the end of the file or a short text. */
  ghost predicate ZeroBefore(b: seq<Byte>, q: nat, e: nat) {
    q < e <= q + 4 && ZerosAt(b, q, e) && (ShortAt(b, e) || e == |b|)
  }

  lemma {:induction false} ZeroPassed(b: seq<Byte>, found: nat -> seq<string>, q: nat, e: nat)
    requires Finds(b, found)
    requires ZeroBefore(b, q, e)
    ensures found(q) == found(q + 1)
  {
    if q + 4 <= |b| {
      Le32Value(b, q);
      if Le32(b, q) >= MAX_LEN || Le32(b, q) < -1 {
        OutOfRange(b, q);
      } else if Le32(b, q) > 0 {
        NulFirst(b, q);
      }
    }
    Passed(b, found, q, 1);
  }

  /** The reader gets from the zeros to what follows them. */
  lemma {:induction false} ZerosPassed(b: seq<Byte>, found: nat -> seq<string>, q: nat, e: nat)
    requires Finds(b, found)
    requires q <= e && forall x :: q <= x < e ==> ZeroBefore(b, x, e)
    ensures found(q) == found(e)
    decreases e - q
  {
    if q < e {
      ZeroPassed(b, found, q, e);
      ZerosPassed(b, found, q + 1, e);
    }
  }

  /** A zero just before a long text is passed over, alone or together with the text's length word. */
  lemma {:induction false} ZeroBeforeLong(b: seq<Byte>, found: nat -> seq<string>, q: nat, e: nat) returns (x: nat)
    requires Finds(b, found)
    requires q < e <= q + 4 && ZerosAt(b, q, e) && LongAt(b, e)
    ensures x == q + 1 || e + 4 <= x <= e + 6
    ensures found(q) == found(x)
  {
    Le32Value(b, q);
    if Le32(b, q) >= MAX_LEN || Le32(b, q) < -1 {
      OutOfRange(b, q);
    } else if Le32(b, q) > 0 {
      EndsInText(b, q, e + 4, e + 4 + LONG);
    } else if b[q + 4] == 0 && b[q + 5] == 0 {
      Passed(b, found, q, 8);
      return q + 8;
    }
    Passed(b, found, q, 1);
    return q + 1;
  }

  /** The reader gets from the zeros to the long text, or a few bytes into it. */
  lemma {:induction false} ZerosBeforeLong(b: seq<Byte>, found: nat -> seq<string>, q: nat, e: nat) returns (x: nat)
    requires Finds(b, found)
    requires q <= e <= q + 4 && ZerosAt(b, q, e) && LongAt(b, e)
    ensures x == e || e + 4 <= x <= e + 6
    ensures found(q) == found(x)
    decreases e - q
  {
    x := q;
    if q < e {
      x := ZeroBeforeLong(b, found, q, e);
      if x < e {
        x := ZerosBeforeLong(b, found, x, e);
      }
    }
  }

  /** An empty record is eight zeros, and so are the eight bytes from any of the zeros before it. */
  lemma {:induction false} EmptyPassed(b: seq<Byte>, found: nat -> seq<string>, q: nat, e: nat)
    requires Finds(b, found)
    requires q <= e && ZerosAt(b, q, e) && EmptyAt(b, e)
    ensures found(q) == found(q + 8)
  {
    assert Le32(b, q) == 0;
    Passed(b, found, q, 8);
  }

  // ---- One record ----

  /** A record of text at i that cannot be decoded: the text ends at t, the next record begins at e. */
  ghost predicate UnreadableAt(b: seq<Byte>, i: nat, t: nat, e: nat) {
    && TailAt(b, i + 4, t, e)
    && (LongAt(b, i) || (Le32(b, i) == t - (i + 4) && (Le32(b, i) >= MAX_LEN || exists k :: i + 4 <= k < t && !PrintableCode(b[k]))))
  }

  lemma {:induction false} LengthByte(b: seq<Byte>, i: nat, t: nat, e: nat)
    requires UnreadableAt(b, i, t, e)
    ensures AdvanceAt(b, i) == Advance([], 1) || AdvanceAt(b, i) == Advance([], 4)
  {
    var ln := Le32(b, i);
    if ln >= MAX_LEN || ln < -1 {
      OutOfRange(b, i);
    } else if ln >= 0 {
      if LongAt(b, i) {
        EndsInText(b, i, i + 4, i + 4 + LONG);
      } else {
        var k :| i + 4 <= k < t && !PrintableCode(b[k]);
        BadByte(b, i, k - (i + 4));
        BadUnit(b, i, 0);
      }
    }
  }

  /**
   The rest of a record that cannot be decoded, from anywhere in it, adds
   nothing: the reader arrives at any later byte of the text, and at the zeros
   that end it unless the last byte is below four.
   */
  lemma {:induction false} UnreadablePassed(b: seq<Byte>, found: nat -> seq<string>, i: nat, t: nat, e: nat, q: nat, to: nat)
    requires Finds(b, found)
    requires UnreadableAt(b, i, t, e) && NextAt(b, e) && i <= q <= to && i + 4 <= to <= t
    requires to == t ==> b[t - 1] >= 4
    ensures found(q) == found(to)
  {
    if q == i {
      LengthByte(b, i, t, e);
      var n := AdvanceAt(b, i).consumed;
      Passed(b, found, i, n);
      TextPassed(b, found, i + 4, t, e, i + n, to);
    } else {
      TextPassed(b, found, i + 4, t, e, q, to);
    }
  }
}
