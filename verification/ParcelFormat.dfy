/**
 The string records of package.conf.  A record is a little-endian length, the
 payload, a NUL terminator and zero padding to a multiple of four; the payload is
 UTF-8 or UTF-16LE, and nothing in the record says which.
 */
module ParcelFormat {
  import opened Options
  import opened Octets
  import opened Sequences

  /** A UTF-16 code unit. */
  type CodeUnit = x: int | 0 <= x < 0x1_0000

  const MAX_LEN := 4000

  // ---- Writing ----

  function LengthBytes(n: nat): (b: seq<Byte>)
    ensures |b| == 4
  {
    [n % 256, n / 256 % 256, n / 0x1_0000 % 256, n / 0x100_0000 % 256]
  }

  /** The UTF-8 encoding of one Unicode scalar value. */
  function Utf8Char(c: char): seq<Byte> {
    var x := c as int;
    if x < 0x80 then [x]
    else if x < 0x800 then [0xC0 + x / 64, 0x80 + x % 64]
    else if x < 0x1_0000 then [0xE0 + x / 4096, 0x80 + x / 64 % 64, 0x80 + x % 64]
    else [0xF0 + x / 0x4_0000, 0x80 + x / 4096 % 64, 0x80 + x / 64 % 64, 0x80 + x % 64]
  }

  /** The one or two UTF-16 code units of one Unicode scalar value. */
  function Utf16Char(c: char): seq<CodeUnit> {
    var x := c as int;
    if x < 0x1_0000 then [x]
    else [0xD800 + (x - 0x1_0000) / 1024, 0xDC00 + (x - 0x1_0000) % 1024]
  }

  function Utf8Bytes(s: string): seq<Byte> {
    if s == "" then [] else Utf8Char(s[0]) + Utf8Bytes(s[1..])
  }

  function Utf16Units(s: string): seq<CodeUnit> {
    if s == "" then [] else Utf16Char(s[0]) + Utf16Units(s[1..])
  }

  function LittleEndian(us: seq<CodeUnit>): (b: seq<Byte>)
    ensures |b| == 2 * |us|
  {
    seq(2 * |us|, k requires 0 <= k < 2 * |us| => if k % 2 == 0 then us[k / 2] % 256 else us[k / 2] / 256)
  }

  function Align4(n: nat): (r: nat)
    ensures n <= r < n + 4 && r % 4 == 0
  {
    (n + 3) / 4 * 4
  }

  function Zeros(n: nat): (z: seq<Byte>)
    ensures |z| == n && forall k :: 0 <= k < n ==> z[k] == 0
  {
    seq(n, _ => 0)
  }

  function Utf8Record(s: string): seq<Byte> {
    var b := Utf8Bytes(s);
    var used := 4 + |b| + 1;
    LengthBytes(|b|) + b + [0] + Zeros(Align4(used) - used)
  }

  function Utf16Record(s: string): seq<Byte> {
    var us := Utf16Units(s);
    var used := 4 + |us| * 2 + 2;
    LengthBytes(|us|) + LittleEndian(us) + [0, 0] + Zeros(Align4(used) - used)
  }

  lemma {:induction false} Utf8Padding(n: nat, q: nat, r: nat)
    requires n == 4 * q + r && r < 4
    ensures Align4(4 + n + 1) - (4 + n + 1) == 3 - r
  {
  }

  lemma {:induction false} Utf16Padding(n: nat, q: nat, r: nat)
    requires n == 2 * q + r && r < 2
    ensures Align4(4 + n * 2 + 2) - (4 + n * 2 + 2) == if r == 0 then 2 else 0
  {
  }

  /** The output stream of generatePackageConf, with its two record writers. */
  class ParcelWriter {
    var out: seq<Byte>

    constructor ()
      ensures out == []
    {
      out := [];
    }

    method Utf8(s: string)
      modifies this
      ensures out == old(out) + Utf8Record(s)
      ensures var n := |Utf8Bytes(s)|;
              out == old(out) + (LengthBytes(n) + Utf8Bytes(s) + [0] + Zeros(3 - n % 4))
    {
      var b := Utf8Bytes(s);
      Utf8Padding(|b|, |b| / 4, |b| % 4);
      out := out + LengthBytes(|b|) + b + [0];
      var consumed := 4 + |b| + 1;
      ghost var used := consumed;
      while consumed % 4 != 0
        invariant used <= consumed <= Align4(used)
        invariant out == old(out) + (LengthBytes(|b|) + b + [0] + Zeros(consumed - used))
        decreases Align4(used) - consumed
      {
        assert Zeros(consumed + 1 - used) == Zeros(consumed - used) + [0];
        out := out + [0];
        consumed := consumed + 1;
      }
    }

    method Utf16(s: string)
      modifies this
      ensures out == old(out) + Utf16Record(s)
      ensures var n := |Utf16Units(s)|;
              out == old(out) + (LengthBytes(n) + LittleEndian(Utf16Units(s)) + [0, 0] + Zeros(if n % 2 == 0 then 2 else 0))
    {
      var us := Utf16Units(s);
      var b := LittleEndian(us);
      Utf16Padding(|us|, |us| / 2, |us| % 2);
      out := out + LengthBytes(|us|) + b + [0, 0];
      var consumed := 4 + |us| * 2 + 2;
      ghost var used := consumed;
      while consumed % 4 != 0
        invariant used <= consumed <= Align4(used)
        invariant out == old(out) + (LengthBytes(|us|) + b + [0, 0] + Zeros(consumed - used))
        decreases Align4(used) - consumed
      {
        assert Zeros(consumed + 1 - used) == Zeros(consumed - used) + [0];
        out := out + [0];
        consumed := consumed + 1;
      }
    }
  }

  // ---- Reading ----

  /** A decoded string and the number of bytes its record takes. */
  datatype Decoded = Decoded(text: string, consumed: nat)

  predicate PrintableCode(x: int) {
    32 <= x <= 126
  }

  predicate Printable(s: string) {
    forall k :: 0 <= k < |s| ==> PrintableCode(s[k] as int)
  }

  /** The signed 32-bit little-endian integer at i. */
  function Le32(b: seq<Byte>, i: nat): int
    requires i + 4 <= |b|
  {
    var b0: int, b1: int, b2: int, b3: int := b[i], b[i + 1], b[i + 2], b[i + 3];
    var u := b0 + 0x100 * b1 + 0x1_0000 * b2 + 0x100_0000 * b3;
    if u < 0x8000_0000 then u else u - 0x1_0000_0000
  }

  predicate AllPrintable(codes: seq<int>) {
    forall k :: 0 <= k < |codes| ==> PrintableCode(codes[k])
  }

  function AsciiText(codes: seq<int>): (s: string)
    requires AllPrintable(codes)
    ensures |s| == |codes| && Printable(s)
  {
    seq(|codes|, k requires 0 <= k < |codes| => codes[k] as char)
  }

  /** A copy of n bytes from position i on. */
  function BytesAt(b: seq<Byte>, i: nat, n: nat): seq<int>
    requires i + n <= |b|
  {
    seq(n, k requires 0 <= k < n => b[i + k])
  }

  function TryUtf8(b: seq<Byte>, i: nat): Option<Decoded> {
    if i + 4 > |b| then None else
    var ln := Le32(b, i);
    if ln <= 0 || ln >= MAX_LEN || i + 4 + ln + 1 > |b| then None
    else if b[i + 4 + ln] != 0 then None
    else
      var segment := BytesAt(b, i + 4, ln);
      if !AllPrintable(segment) then None
      else Some(Decoded(AsciiText(segment), Align4(4 + ln + 1)))
  }

  function UnitOf(low: int, high: int): CodeUnit
    requires 0 <= low < 256 && 0 <= high < 256
  {
    low + 256 * high
  }

  function UnitsAt(b: seq<Byte>, i: nat, n: nat): seq<CodeUnit>
    requires i + 2 * n <= |b|
  {
    seq(n, k requires 0 <= k < n => UnitOf(b[i + 2 * k], b[i + 2 * k + 1]))
  }

  predicate HighSurrogate(u: CodeUnit) { 0xD800 <= u < 0xDC00 }

  predicate LowSurrogate(u: CodeUnit) { 0xDC00 <= u < 0xE000 }

  predicate Surrogate(u: CodeUnit) { 0xD800 <= u < 0xE000 }

  predicate StartsWithPair(us: seq<CodeUnit>) {
    |us| >= 2 && HighSurrogate(us[0]) && LowSurrogate(us[1])
  }

  function PairCode(high: int, low: int): int {
    0x1_0000 + (high - 0xD800) * 1024 + (low - 0xDC00)
  }

  /** The code point at the head of us, and the number of units it takes; None when a surrogate there is unpaired. */
  function HeadCode(us: seq<CodeUnit>): Option<int>
    requires us != []
  {
    if StartsWithPair(us) then Some(PairCode(us[0], us[1]))
    else if Surrogate(us[0]) then None
    else Some(us[0])
  }

  const REPLACEMENT := 0xFFFD

  /**
   The code points of UTF-16 text as the JVM's String constructor decodes it: an unpaired
   surrogate becomes the replacement character (and an unpaired high one swallows the unit after it).
   */
  function DecodeReplacing(us: seq<CodeUnit>): seq<int> {
    if us == [] then []
    else
      var code := if HeadCode(us).Some? then HeadCode(us).value else REPLACEMENT;
      [code] + DecodeReplacing(us[if HighSurrogate(us[0]) && |us| > 1 then 2 else 1..])
  }

  function TryUtf16(b: seq<Byte>, i: nat): Option<Decoded> {
    if i + 4 > |b| then None else
    var ln := Le32(b, i);
    if ln < 0 || ln >= MAX_LEN || i + 4 + ln * 2 + 2 > |b| then None
    else if b[i + 4 + ln * 2] != 0 || b[i + 4 + ln * 2 + 1] != 0 then None
    else
      var codes := DecodeReplacing(UnitsAt(b, i + 4, ln));
      if ln == 0 then Some(Decoded("", Align4(6)))
      else if !AllPrintable(codes) then None
      else Some(Decoded(AsciiText(codes), Align4(4 + ln * 2 + 2)))
  }

  function TryRecord(b: seq<Byte>, i: nat): Option<Decoded> {
    var r := TryUtf8(b, i);
    if r.Some? then r else TryUtf16(b, i)
  }

  /** What one round of the walk collects, and how far it advances. */
  datatype Advance = Advance(collected: seq<string>, consumed: nat)

  function AdvanceAt(b: seq<Byte>, i: nat): (a: Advance)
    requires i + 4 <= |b|
    ensures a.consumed > 0
  {
    if Le32(b, i) == -1 then Advance([], 4)
    else
      var r := TryRecord(b, i);
      if r.None? then Advance([], 1)
      else Advance(if r.value.text != "" then [r.value.text] else [], r.value.consumed)
  }

  /** What the walk from position i collects. */
  function Strings(b: seq<Byte>, i: nat): seq<string>
    decreases |b| - i
  {
    if i + 4 > |b| then []
    else AdvanceAt(b, i).collected + Strings(b, i + AdvanceAt(b, i).consumed)
  }

  /** found(j) is what the reader finds from position j on. */
  ghost predicate Finds(b: seq<Byte>, found: nat -> seq<string>) {
    forall j: nat {:trigger Strings(b, j)} :: found(j) == Strings(b, j)
  }

  /** One round of the walk, seen from the strings collected before it. */
  lemma {:induction false} StringsStep(b: seq<Byte>, found: nat -> seq<string>, i: nat, before: seq<string>)
    requires i + 4 <= |b| && Finds(b, found)
    ensures var a := AdvanceAt(b, i);
            before + found(i) == before + a.collected + found(i + a.consumed)
  {
    var a := AdvanceAt(b, i);
    assert found(i) == Strings(b, i) && found(i + a.consumed) == Strings(b, i + a.consumed);
    Regroup(before, a.collected, found(i + a.consumed));
  }

  lemma {:induction false} StringsEnd(b: seq<Byte>, found: nat -> seq<string>, i: nat)
    requires i + 4 > |b| && Finds(b, found)
    ensures found(i) == []
  {
    assert found(i) == Strings(b, i);
  }

  /** The body of the walk's loop. */
  method ReadRound(data: seq<Byte>, i: nat, collected: seq<string>) returns (out: seq<string>, next: nat)
    requires i + 4 <= |data|
    ensures out == collected + AdvanceAt(data, i).collected
    ensures next == i + AdvanceAt(data, i).consumed
  {
    out := collected;
    if Le32(data, i) == -1 {
      return out, i + 4;
    }
    var r := TryRecord(data, i);
    if r.Some? {
      if r.value.text != "" {
        out := out + [r.value.text];
      }
      next := i + r.value.consumed;
    } else {
      next := i + 1;
    }
  }

  method ReadStrings(data: seq<Byte>) returns (out: seq<string>)
    ensures out == Strings(data, 0)
  {
    out := [];
    var i := 0;
    ghost var found := (j: nat) => Strings(data, j);
    assert [] + found(0) == found(0);
    while i + 4 <= |data|
      invariant out + found(i) == found(0)
      decreases |data| - i
    {
      StringsStep(data, found, i, out);
      out, i := ReadRound(data, i, out);
    }
    StringsEnd(data, found, i);
    assert out + [] == out;
  }
}
