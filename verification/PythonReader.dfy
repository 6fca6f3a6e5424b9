/**
 The offline reader that the engine's parser was ported from.  It keeps the
 offset of every entry, keeps nulls and empty strings, and decodes UTF-16
 strictly; on every byte sequence the engine's parser collects what is left when
 nulls and empty strings are dropped.
 */
module PythonReader {
  import opened Options
  import opened Octets
  import opened Sequences
  import opened ParcelFormat
  import opened ParcelDecode

  /** An entry of the listing: a null string has no text. */
  datatype Entry = Entry(offset: nat, text: Option<string>)

  /** Strict UTF-16 decoding: an unpaired surrogate is an error. */
  function DecodeStrict(us: seq<CodeUnit>): Option<seq<int>> {
    if us == [] then Some([])
    else if HeadCode(us).None? then None
    else
      var rest := DecodeStrict(us[if StartsWithPair(us) then 2 else 1..]);
      if rest.None? then None else Some([HeadCode(us).value] + rest.value)
  }

  function PyTryUtf16(data: seq<Byte>, i: nat): Option<Decoded>
    requires i + 4 <= |data|
  {
    var ln := Le32(data, i);
    if !(0 <= ln < MAX_LEN) || i + 4 + ln * 2 + 2 > |data| then None
    else if BytesAt(data, i + 4 + ln * 2, 2) != [0, 0] then None
    else
      var s := DecodeStrict(UnitsAt(data, i + 4, ln));
      if s.None? then None
      else if ln != 0 && !AllPrintable(s.value) then None
      else Some(Decoded(if ln == 0 then "" else AsciiText(s.value), Align4(4 + ln * 2 + 2)))
  }

  function PyTryUtf8(data: seq<Byte>, i: nat): Option<Decoded>
    requires i + 4 <= |data|
  {
    var ln := Le32(data, i);
    if !(0 < ln < MAX_LEN) || i + 4 + ln + 1 > |data| then None
    else if data[i + 4 + ln] != 0 then None
    else
      var segment := BytesAt(data, i + 4, ln);
      if !AllPrintable(segment) then None
      else Some(Decoded(AsciiText(segment), Align4(4 + ln + 1)))
  }

  /** What one round of the walk lists (at most one entry), and how far it advances. */
  datatype PyAdvance = PyAdvance(listed: seq<Entry>, consumed: nat)

  function PyAdvanceAt(data: seq<Byte>, i: nat): (a: PyAdvance)
    requires i + 4 <= |data|
    ensures a.consumed > 0
    ensures a.listed == [] || (|a.listed| == 1 && a.listed[0].offset == i)
  {
    if Le32(data, i) == -1 then PyAdvance([Entry(i, None)], 4)
    else
      var u8 := PyTryUtf8(data, i);
      var r := if u8.Some? then u8 else PyTryUtf16(data, i);
      if r.Some? then PyAdvance([Entry(i, Some(r.value.text))], r.value.consumed)
      else PyAdvance([], 1)
  }

  function Entries(data: seq<Byte>, i: nat): seq<Entry>
    decreases |data| - i
  {
    if i + 4 > |data| then []
    else PyAdvanceAt(data, i).listed + Entries(data, i + PyAdvanceAt(data, i).consumed)
  }

  lemma {:induction false} EntriesStep(data: seq<Byte>, i: nat, before: seq<Entry>)
    requires i + 4 <= |data|
    ensures var a := PyAdvanceAt(data, i);
            before + Entries(data, i) == before + a.listed + Entries(data, i + a.consumed)
  {
    var a := PyAdvanceAt(data, i);
    Regroup(before, a.listed, Entries(data, i + a.consumed));
  }

  /** The body of the walk's loop. */
  method PyReadRound(data: seq<Byte>, i: nat, listed: seq<Entry>) returns (out: seq<Entry>, next: nat)
    requires i + 4 <= |data|
    ensures out == listed + PyAdvanceAt(data, i).listed
    ensures next == i + PyAdvanceAt(data, i).consumed
  {
    if Le32(data, i) == -1 {
      return listed + [Entry(i, None)], i + 4;
    }
    var u8 := PyTryUtf8(data, i);
    var r := if u8.Some? then u8 else PyTryUtf16(data, i);
    if r.Some? {
      return listed + [Entry(i, Some(r.value.text))], i + r.value.consumed;
    }
    return listed, i + 1;
  }

  method PyReadStrings(data: seq<Byte>) returns (out: seq<Entry>)
    ensures out == Entries(data, 0)
  {
    out := [];
    var i := 0;
    while i + 4 <= |data|
      invariant out + Entries(data, i) == Entries(data, 0)
      decreases |data| - i
    {
      EntriesStep(data, i, out);
      out, i := PyReadRound(data, i, out);
    }
  }

  /** The texts that are neither null nor empty. */
  function PresentTexts(es: seq<Entry>): seq<string> {
    if es == [] then []
    else (if es[0].text.Some? && es[0].text.value != "" then [es[0].text.value] else []) + PresentTexts(es[1..])
  }

  /** Text that decodes to printable ASCII decodes so in both ways, to the same characters. */
  lemma {:induction false} DecodersAgree(us: seq<CodeUnit>)
    ensures AllPrintable(DecodeReplacing(us)) <==> DecodeStrict(us).Some? && AllPrintable(DecodeStrict(us).value)
    ensures AllPrintable(DecodeReplacing(us)) ==> DecodeStrict(us) == Some(DecodeReplacing(us))
  {
    var codes := DecodeReplacing(us);
    if us != [] && Surrogate(us[0]) {
      assert !PrintableCode(codes[0]);
      if DecodeStrict(us).Some? {
        assert !PrintableCode(DecodeStrict(us).value[0]);
      }
    } else if us != [] {
      DecodersAgree(us[1..]);
      var rest := DecodeReplacing(us[1..]);
      assert codes == [us[0]] + rest;
      assert AllPrintable(codes) ==> AllPrintable(rest) by {
        if AllPrintable(codes) {
          assert forall k :: 0 <= k < |rest| ==> rest[k] == codes[k + 1];
        }
      }
      if DecodeStrict(us).Some? {
        var strict, strictRest := DecodeStrict(us).value, DecodeStrict(us[1..]).value;
        assert strict == [us[0]] + strictRest;
        assert AllPrintable(strict) ==> AllPrintable(strictRest) by {
          if AllPrintable(strict) {
            assert forall k :: 0 <= k < |strictRest| ==> strictRest[k] == strict[k + 1];
          }
        }
      }
    }
  }

  lemma {:induction false} AttemptsAgree(data: seq<Byte>, i: nat)
    requires i + 4 <= |data|
    ensures PyTryUtf8(data, i) == TryUtf8(data, i)
    ensures PyTryUtf16(data, i) == TryUtf16(data, i)
  {
    var ln := Le32(data, i);
    if 0 <= ln < MAX_LEN && i + 4 + ln * 2 + 2 <= |data| {
      DecodersAgree(UnitsAt(data, i + 4, ln));
      var end := i + 4 + ln * 2;
      assert BytesAt(data, end, 2) == [data[end] as int, data[end + 1] as int];
    }
  }

  lemma {:induction false} AdvancesAgree(data: seq<Byte>, i: nat)
    requires i + 4 <= |data|
    ensures PresentTexts(PyAdvanceAt(data, i).listed) == AdvanceAt(data, i).collected
    ensures PyAdvanceAt(data, i).consumed == AdvanceAt(data, i).consumed
  {
    AttemptsAgree(data, i);
  }

  /**
   One round, case by case: a null is listed and takes four bytes; otherwise what
   decodes, as UTF-8 first, is listed; otherwise one byte is passed over.
   */
  lemma {:induction false} PyAdvanceIs(data: seq<Byte>, i: nat)
    requires i + 4 <= |data|
    ensures var a, u8, u16 := PyAdvanceAt(data, i), PyTryUtf8(data, i), PyTryUtf16(data, i);
            a == if NullAt(data, i) then PyAdvance([Entry(i, None)], 4)
            else if u8.Some? then PyAdvance([Entry(i, Some(u8.value.text))], u8.value.consumed)
            else if u16.Some? then PyAdvance([Entry(i, Some(u16.value.text))], u16.value.consumed)
            else PyAdvance([], 1)
  {
    NullWord(data, i);
  }

  lemma {:induction false} PresentTextsPrepend(listed: seq<Entry>, es: seq<Entry>)
    requires |listed| <= 1
    ensures PresentTexts(listed + es) == PresentTexts(listed) + PresentTexts(es)
  {
    if listed == [] {
      assert listed + es == es;
    } else {
      assert (listed + es)[1..] == es;
    }
  }

  lemma {:induction false} WalksAgree(data: seq<Byte>, i: nat, entries: seq<Entry>, strings: seq<string>)
    requires entries == Entries(data, i) && strings == Strings(data, i)
    ensures PresentTexts(entries) == strings
    decreases |data| - i
  {
    if i + 4 <= |data| {
      AdvancesAgree(data, i);
      var py, next := PyAdvanceAt(data, i), i + AdvanceAt(data, i).consumed;
      WalksAgree(data, next, Entries(data, next), Strings(data, next));
      PresentTextsPrepend(py.listed, Entries(data, next));
    }
  }

  /**
   On every byte sequence the engine's reader collects exactly the non-null,
   non-empty strings of the offline reader, in order.
   */
  lemma {:induction false} ReadersAgree(data: seq<Byte>)
    ensures PresentTexts(Entries(data, 0)) == Strings(data, 0)
  {
    WalksAgree(data, 0, Entries(data, 0), Strings(data, 0));
  }

  /** Offsets increase strictly from at least i, and each entry's length word lies inside n bytes. */
  ghost predicate Ascending(es: seq<Entry>, i: nat, n: nat) {
    && (forall k :: 0 <= k < |es| ==> i <= es[k].offset && es[k].offset + 4 <= n)
    && (forall j, k :: 0 <= j < k < |es| ==> es[j].offset < es[k].offset)
  }

  lemma {:induction false} AscendingPrepend(listed: seq<Entry>, es: seq<Entry>, i: nat, next: nat, n: nat)
    requires Ascending(es, next, n) && i < next && i + 4 <= n
    requires listed == [] || (|listed| == 1 && listed[0].offset == i)
    ensures Ascending(listed + es, i, n)
  {
  }

  lemma {:induction false} WalkAscends(data: seq<Byte>, i: nat, entries: seq<Entry>)
    requires entries == Entries(data, i)
    ensures Ascending(entries, i, |data|)
    decreases |data| - i
  {
    if i + 4 <= |data| {
      var py := PyAdvanceAt(data, i);
      var next := i + py.consumed;
      WalkAscends(data, next, Entries(data, next));
      AscendingPrepend(py.listed, Entries(data, next), i, next, |data|);
    }
  }

  lemma {:induction false} OffsetsIncrease(data: seq<Byte>)
    ensures Ascending(Entries(data, 0), 0, |data|)
  {
    WalkAscends(data, 0, Entries(data, 0));
  }
}
