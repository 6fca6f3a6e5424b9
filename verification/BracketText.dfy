/**
 The two text helpers of the Dart checker: the text between an opener and its
 matching closer, and splitting at the commas outside all brackets.
 */
module BracketText {
  import opened Options
  import opened Sequences

  // ---- The body between an opener and its closer ----

  datatype Pair = Pair(opener: char, closer: char)

  function Delta(b: Pair, c: char): int {
    if c == b.opener then 1 else if c == b.closer then -1 else 0
  }

  /** How many more openers than closers s has. */
  function Depth(b: Pair, s: string): int {
    if s == "" then 0 else Delta(b, s[0]) + Depth(b, s[1..])
  }

  /** How often c occurs in s. */
  function Count(s: string, c: char): int {
    multiset(s)[c]
  }

  /** Openers less closers. */
  lemma {:induction false} DepthCounts(b: Pair, s: string)
    requires b.opener != b.closer
    ensures Depth(b, s) == Count(s, b.opener) - Count(s, b.closer)
  {
    if s != "" {
      DepthCounts(b, s[1..]);
      assert s == [s[0]] + s[1..];
    }
  }

  ghost predicate WellNested(b: Pair, s: string) {
    Depth(b, s) == 0 && forall k :: 0 <= k <= |s| ==> Depth(b, s[..k]) >= 0
  }

  /** The position in s at which the depth, starting from depth, first returns to zero. */
  function CloseAt(b: Pair, s: string, depth: int): (r: Option<nat>)
    ensures r.Some? ==> r.value < |s|
  {
    if s == "" then None
    else if s[0] == b.closer && s[0] != b.opener && depth == 1 then Some(0)
    else
      var r := CloseAt(b, s[1..], depth + Delta(b, s[0]));
      if r.None? then None else Some(r.value + 1)
  }

  /** The position of the first c in s at or after idx. */
  function Find(s: string, c: char, idx: nat): (r: Option<nat>)
    ensures r.Some? ==> idx <= r.value < |s| && s[r.value] == c && c !in s[idx..r.value]
    ensures r.None? ==> forall k :: idx <= k < |s| ==> s[k] != c
    decreases |s| - idx
  {
    if idx >= |s| then None
    else if s[idx] == c then Some(idx)
    else Find(s, c, idx + 1)
  }

  /** The text after the first opener up to its closer, or to the end when it is never closed. */
  function BodyOf(code: string, idx: nat, b: Pair): string {
    var start := Find(code, b.opener, idx);
    if start.None? then ""
    else
      var rest := code[start.value + 1..];
      var end := CloseAt(b, rest, 1);
      if end.Some? then rest[..end.value] else rest
  }

  method Body(code: string, idx: nat, b: Pair) returns (r: string)
    ensures r == BodyOf(code, idx, b)
  {
    var found := Find(code, b.opener, idx);
    if found.None? {
      return "";
    }
    var start := found.value;
    ghost var rest := code[start + 1..];
    var depth := 0;
    for i := start to |code|
      invariant i == start ==> depth == 0
      invariant i > start ==> CloseAt(b, rest, 1) ==
                              var r := CloseAt(b, code[i..], depth);
                              if r.None? then None else Some(r.value + (i - start - 1))
    {
      assert code[i..][1..] == code[i + 1..];
      if code[i] == b.opener {
        depth := depth + 1;
      } else if code[i] == b.closer {
        depth := depth - 1;
        if depth == 0 {
          assert code[start + 1..i] == rest[..i - start - 1];
          return code[start + 1..i];
        }
      }
    }
    assert code[|code|..] == "";
    return code[start + 1..];
  }

  lemma {:induction false} DepthOfPrefix(b: Pair, s: string, k: nat)
    requires 1 <= k <= |s|
    ensures Depth(b, s[..k]) == Delta(b, s[0]) + Depth(b, s[1..][..k - 1])
  {
    assert s[..k][0] == s[0] && s[..k][1..] == s[1..][..k - 1];
  }

  /** The text before the close leaves depth one, and no earlier prefix goes below one. */
  ghost predicate Closes(b: Pair, s: string, depth: int, i: nat)
  {
    && i < |s| && s[i] == b.closer
    && depth + Depth(b, s[..i]) == 1
    && forall k :: 0 <= k <= i ==> depth + Depth(b, s[..k]) >= 1
  }

  lemma {:induction false} CloseAtIff(b: Pair, s: string, depth: int, i: nat)
    requires b.opener != b.closer && depth >= 1
    ensures CloseAt(b, s, depth) == Some(i) <==> Closes(b, s, depth, i)
    decreases |s|
  {
    if s != "" {
      var d' := depth + Delta(b, s[0]);
      assert s[..0] == "" && s[1..][..0] == "";
      DepthOfPrefix(b, s, 1);
      if (s[0] != b.closer || depth != 1) && i > 0 {
        CloseAtIff(b, s[1..], d', i - 1);
        forall k | 1 <= k <= |s|
          ensures depth + Depth(b, s[..k]) == d' + Depth(b, s[1..][..k - 1])
        {
          DepthOfPrefix(b, s, k);
        }
        if Closes(b, s[1..], d', i - 1) {
          forall k | 0 <= k <= i
            ensures depth + Depth(b, s[..k]) >= 1
          {
            assert k > 0 ==> d' + Depth(b, s[1..][..k - 1]) >= 1;
          }
        }
        if Closes(b, s, depth, i) {
          forall k | 0 <= k <= i - 1
            ensures d' + Depth(b, s[1..][..k]) >= 1
          {
            assert depth + Depth(b, s[..k + 1]) >= 1;
          }
        }
      }
    }
  }

  /**
   The end of the body, exactly: rest is the text after the opener, and position i closes
   the opener if and only if it holds the closer and the text before it is well nested.
   */
  lemma {:induction false} BodyEndsIff(b: Pair, rest: string, i: nat)
    requires b.opener != b.closer
    ensures CloseAt(b, rest, 1) == Some(i) <==> i < |rest| && rest[i] == b.closer && WellNested(b, rest[..i])
  {
    CloseAtIff(b, rest, 1, i);
    if i < |rest| {
      assert forall k :: 0 <= k <= i ==> rest[..i][..k] == rest[..k];
    }
  }

  /** start is the first opener of code at or after idx. */
  ghost predicate FirstOpener(code: string, idx: nat, b: Pair, start: nat) {
    idx <= start < |code| && code[start] == b.opener && b.opener !in code[idx..start]
  }

  /** Position end holds the closer of the opener at start. */
  ghost predicate ClosedAt(code: string, b: Pair, start: nat, end: nat) {
    start < end < |code| && code[end] == b.closer && WellNested(b, code[start + 1..end])
  }

  lemma {:induction false} FindIsFirst(code: string, idx: nat, b: Pair, start: nat)
    requires FirstOpener(code, idx, b, start)
    ensures Find(code, b.opener, idx) == Some(start)
  {
  }

  lemma {:induction false} ClosedAtIff(code: string, b: Pair, start: nat, end: nat)
    requires b.opener != b.closer && start < end <= |code|
    ensures CloseAt(b, code[start + 1..], 1) == Some(end - start - 1) <==> ClosedAt(code, b, start, end)
  {
    var rest, i := code[start + 1..], end - start - 1;
    BodyEndsIff(b, rest, i);
    if end < |code| {
      assert rest[i] == code[end] && rest[..i] == code[start + 1..end];
    }
  }

  /** A closed body is the text between the first opener and its closer. */
  lemma {:induction false} ClosedBody(code: string, idx: nat, b: Pair, start: nat, end: nat)
    requires b.opener != b.closer
    requires FirstOpener(code, idx, b, start) && ClosedAt(code, b, start, end)
    ensures BodyOf(code, idx, b) == code[start + 1..end]
  {
    FindIsFirst(code, idx, b, start);
    ClosedAtIff(code, b, start, end);
    assert code[start + 1..][..end - start - 1] == code[start + 1..end];
  }

  /** An opener that is never closed has all the text after it as its body. */
  lemma {:induction false} UnclosedBody(code: string, idx: nat, b: Pair, start: nat)
    requires b.opener != b.closer && FirstOpener(code, idx, b, start)
    ensures BodyOf(code, idx, b) == code[start + 1..] <==> forall end: nat :: !ClosedAt(code, b, start, end)
  {
    FindIsFirst(code, idx, b, start);
    var close := CloseAt(b, code[start + 1..], 1);
    if close.Some? {
      ClosedAtIff(code, b, start, start + 1 + close.value);
      assert |code[start + 1..][..close.value]| < |code[start + 1..]|;
    } else {
      forall end: nat
        ensures !ClosedAt(code, b, start, end)
      {
        if start < end < |code| {
          ClosedAtIff(code, b, start, end);
        }
      }
    }
  }

  // ---- Splitting at top-level commas ----

  /** One more for an opening bracket of any kind, one less for a closing one. */
  function BracketDelta(c: char): int {
    if c == '(' || c == '[' || c == '{' then 1 else if c == ')' || c == ']' || c == '}' then -1 else 0
  }

  function BracketDepth(s: string): int {
    if s == "" then 0 else BracketDelta(s[0]) + BracketDepth(s[1..])
  }

  /** Openers of the three kinds less closers of the three kinds. */
  function Balance(s: string): int {
    Count(s, '(') + Count(s, '[') + Count(s, '{') - Count(s, ')') - Count(s, ']') - Count(s, '}')
  }

  lemma {:induction false} BracketDepthCounts(s: string)
    ensures BracketDepth(s) == Balance(s)
  {
    if s != "" {
      BracketDepthCounts(s[1..]);
      assert s == [s[0]] + s[1..];
    }
  }

  /** Every piece, the last one included, reading text with the given depth and the current piece so far. */
  function Pieces(text: string, depth: int, cur: string): (ps: seq<string>)
    ensures ps != []
    decreases |text|
  {
    if text == "" then [cur]
    else
      var d := depth + BracketDelta(text[0]);
      if text[0] == ',' && d == 0 then [cur] + Pieces(text[1..], d, "")
      else Pieces(text[1..], d, cur + [text[0]])
  }

  predicate IsSpace(c: char) {
    || 0x09 <= c as int <= 0x0D || 0x1C <= c as int <= 0x20 || c as int in {0x85, 0xA0, 0x1680}
    || 0x2000 <= c as int <= 0x200A || c as int in {0x2028, 0x2029, 0x202F, 0x205F, 0x3000}
  }

  predicate Blank(s: string) {
    forall k :: 0 <= k < |s| ==> IsSpace(s[k])
  }

  /** The white space of ASCII. */
  lemma {:induction false} AsciiSpaces(c: char)
    requires c as int < 0x80
    ensures IsSpace(c) <==> c in {'\t', '\n', '\U{000B}', '\U{000C}', '\r', '\U{001C}', '\U{001D}', '\U{001E}', '\U{001F}', ' '}
  {
  }

  /** A blank last piece is dropped. */
  function Kept(ps: seq<string>): seq<string>
    requires ps != []
  {
    if Blank(ps[|ps| - 1]) then ps[..|ps| - 1] else ps
  }

  method SplitTop(text: string) returns (parts: seq<string>)
    ensures parts == Kept(Pieces(text, 0, ""))
  {
    parts := [];
    var depth, cur := 0, "";
    for i := 0 to |text|
      invariant parts + Pieces(text[i..], depth, cur) == Pieces(text, 0, "")
    {
      assert text[i..][1..] == text[i + 1..];
      var ch := text[i];
      if ch == '(' || ch == '[' || ch == '{' {
        depth := depth + 1;
      } else if ch == ')' || ch == ']' || ch == '}' {
        depth := depth - 1;
      }
      if ch == ',' && depth == 0 {
        Regroup(parts, [cur], Pieces(text[i + 1..], depth, ""));
        parts := parts + [cur];
        cur := "";
        continue;
      }
      cur := cur + [ch];
    }
    assert text[|text|..] == "";
    ghost var ps := parts + [cur];
    assert ps[..|ps| - 1] == parts;
    if !Blank(cur) {
      parts := parts + [cur];
    }
  }

  function Join(ps: seq<string>): string {
    if ps == [] then ""
    else if |ps| == 1 then ps[0]
    else ps[0] + [','] + Join(ps[1..])
  }

  /** No comma of s stands outside all brackets opened in s. */
  ghost predicate NoTopComma(s: string) {
    forall k :: 0 <= k < |s| && s[k] == ',' ==> BracketDepth(s[..k]) != 0
  }

  /** What a splitting at top-level commas is: no piece has one, and every piece but the last is balanced. */
  ghost predicate IsSplit(ps: seq<string>) {
    && ps != []
    && (forall k :: 0 <= k < |ps| ==> NoTopComma(ps[k]))
    && (forall k :: 0 <= k < |ps| - 1 ==> BracketDepth(ps[k]) == 0)
  }

  lemma {:induction false} BracketDepthConcat(a: string, b: string)
    ensures BracketDepth(a + b) == BracketDepth(a) + BracketDepth(b)
  {
    if a == "" {
      assert a + b == b;
    } else {
      assert (a + b)[1..] == a[1..] + b;
      BracketDepthConcat(a[1..], b);
    }
  }

  lemma {:induction false} NoTopCommaExtend(cur: string, c: char)
    requires NoTopComma(cur) && (c == ',' ==> BracketDepth(cur) != 0)
    ensures NoTopComma(cur + [c])
    ensures BracketDepth(cur + [c]) == BracketDepth(cur) + BracketDelta(c)
  {
    BracketDepthConcat(cur, [c]);
    assert BracketDepth([c]) == BracketDelta(c) + BracketDepth("");
    forall k | 0 <= k < |cur + [c]| && (cur + [c])[k] == ','
      ensures BracketDepth((cur + [c])[..k]) != 0
    {
      assert (cur + [c])[..k] == cur[..k];
      assert cur[..|cur|] == cur;
    }
  }

  lemma {:induction false} PiecesSplit(text: string, depth: int, cur: string, ps: seq<string>)
    requires NoTopComma(cur) && BracketDepth(cur) == depth
    requires ps == Pieces(text, depth, cur)
    ensures IsSplit(ps)
    decreases |text|
  {
    if text != "" {
      var c := text[0];
      var d := depth + BracketDelta(c);
      if c == ',' && d == 0 {
        var rest := Pieces(text[1..], d, "");
        PiecesSplit(text[1..], d, "", rest);
        assert ps == [cur] + rest;
      } else {
        NoTopCommaExtend(cur, c);
        PiecesSplit(text[1..], d, cur + [c], ps);
      }
    }
  }

  lemma {:induction false} PiecesJoin(text: string, depth: int, cur: string, ps: seq<string>)
    requires ps == Pieces(text, depth, cur)
    ensures Join(ps) == cur + text
    decreases |text|
  {
    if text == "" {
      assert cur + text == cur;
    } else {
      var c, tail := text[0], text[1..];
      var d := depth + BracketDelta(c);
      assert text == [c] + tail;
      Regroup(cur, [c], tail);
      if c == ',' && d == 0 {
        var rest := Pieces(tail, d, "");
        PiecesJoin(tail, d, "", rest);
        assert ps[1..] == rest && "" + tail == tail;
      } else {
        PiecesJoin(tail, d, cur + [c], ps);
      }
    }
  }

  /** Reading a piece without top-level commas only extends the current piece. */
  lemma {:induction false} PieceRead(piece: string, rest: string, cur: string)
    requires NoTopComma(cur + piece)
    ensures Pieces(piece + rest, BracketDepth(cur), cur) == Pieces(rest, BracketDepth(cur + piece), cur + piece)
    decreases |piece|
  {
    if piece == "" {
      assert piece + rest == rest && cur + piece == cur;
    } else {
      var c := piece[0];
      assert (piece + rest)[0] == c && (piece + rest)[1..] == piece[1..] + rest;
      assert cur + [c] + piece[1..] == cur + piece;
      assert (cur + piece)[..|cur|] == cur && (cur + piece)[|cur|] == c;
      BracketDepthConcat(cur, [c]);
      assert BracketDepth([c]) == BracketDelta(c) + BracketDepth("");
      PieceRead(piece[1..], rest, cur + [c]);
    }
  }

  lemma {:induction false} SplitReadsBack(ps: seq<string>, text: string)
    requires IsSplit(ps) && text == Join(ps)
    ensures Pieces(text, 0, "") == ps
    decreases |ps|
  {
    var p := ps[0];
    assert "" + p == p;
    if |ps| == 1 {
      PieceRead(p, "", "");
      assert p + "" == p;
    } else {
      var rest := Join(ps[1..]);
      assert text == p + ([','] + rest);
      PieceRead(p, [','] + rest, "");
      assert ([','] + rest)[1..] == rest;
      SplitReadsBack(ps[1..], rest);
      assert [p] + ps[1..] == ps;
    }
  }

  /**
   The pieces of a text are its only splitting at top-level commas: joined with
   commas they give the text, and any splitting that joins to the text is this one.
   */
  lemma {:induction false} SplitIff(text: string, ps: seq<string>)
    ensures ps == Pieces(text, 0, "") <==> IsSplit(ps) && Join(ps) == text
  {
    PiecesSplit(text, 0, "", Pieces(text, 0, ""));
    PiecesJoin(text, 0, "", Pieces(text, 0, ""));
    assert "" + text == text;
    if IsSplit(ps) && Join(ps) == text {
      SplitReadsBack(ps, text);
    }
  }

  /** The same by counting: what is cut at are the commas with as many openers as closers before them in their piece. */
  lemma {:induction false} PiecesAreCut(text: string, ps: seq<string>)
    ensures ps == Pieces(text, 0, "") <==>
            && ps != [] && Join(ps) == text
            && (forall i :: 0 <= i < |ps| ==> forall k :: 0 <= k < |ps[i]| && ps[i][k] == ',' ==> Balance(ps[i][..k]) != 0)
            && (forall i :: 0 <= i < |ps| - 1 ==> Balance(ps[i]) == 0)
  {
    SplitIff(text, ps);
    forall s: string
      ensures Balance(s) == BracketDepth(s)
    {
      BracketDepthCounts(s);
    }
  }

  lemma {:induction false} JoinShorter(ps: seq<string>)
    requires |ps| >= 2
    ensures |Join(ps[..|ps| - 1])| < |Join(ps)|
  {
    if |ps| == 2 {
      assert ps[1..] == [ps[1]] && ps[..1] == [ps[0]];
    } else {
      JoinShorter(ps[1..]);
      assert ps[..|ps| - 1][1..] == ps[1..][..|ps| - 2];
    }
  }

  /** What is returned joins back to the text exactly when the last piece is not blank or the text is empty. */
  lemma {:induction false} PartsRejoinIff(text: string)
    ensures var ps := Pieces(text, 0, "");
            Join(Kept(ps)) == text <==> !Blank(ps[|ps| - 1]) || text == ""
  {
    var ps := Pieces(text, 0, "");
    SplitIff(text, ps);
    if |ps| >= 2 {
      JoinShorter(ps);
    }
  }
}
