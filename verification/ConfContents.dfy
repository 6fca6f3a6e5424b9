/**
 What a generated package.conf holds, component by component, and what the
 parser's two answers are, without reference to how either is computed.
 */
module ConfContents {
  import opened Options
  import opened Octets
  import opened ParcelFormat
  import opened ParcelRoundTrip
  import opened ParcelWalk
  import opened PackageConf

  // ---- Lists of strings, one after the other ----

  function Concat(lists: seq<seq<string>>): seq<string> {
    if lists == [] then [] else Concat(lists[..|lists| - 1]) + lists[|lists| - 1]
  }

  lemma {:induction false} ConcatAppend(lists: seq<seq<string>>, last: seq<string>)
    ensures Concat(lists + [last]) == Concat(lists) + last
  {
    assert (lists + [last])[..|lists|] == lists;
  }

  function ShownEach(lists: seq<seq<string>>): seq<seq<string>> {
    seq(|lists|, k requires 0 <= k < |lists| => Shown(lists[k]))
  }

  lemma {:induction false} ShownOfConcat(lists: seq<seq<string>>)
    ensures Shown(Concat(lists)) == Concat(ShownEach(lists))
  {
    if lists != [] {
      var init, last := lists[..|lists| - 1], lists[|lists| - 1];
      ShownOfConcat(init);
      ShownConcat(Concat(init), last);
      assert ShownEach(lists)[..|lists| - 1] == ShownEach(init);
    }
  }

  lemma {:induction false} ConcatMembers(lists: seq<seq<string>>, s: string)
    ensures s in Concat(lists) <==> exists k :: 0 <= k < |lists| && s in lists[k]
  {
    if lists != [] {
      var init := lists[..|lists| - 1];
      ConcatMembers(init, s);
      assert forall k :: 0 <= k < |init| ==> init[k] == lists[k];
    }
  }

  // ---- The generated file ----

  /** Everything written after the header, list by list, in the order of writing. */
  function Sections(names: Names, m: Manifest): seq<seq<string>> {
    [Present(m.className), [names.factory], Present(m.launcher),
     m.activities, m.services, m.providers, m.receivers,
     Flattened(m.metadata), Present(m.version), Present(m.sourceDir)]
  }

  lemma {:induction false} ThreeLists(a: seq<string>, b: seq<string>, c: seq<string>)
    ensures Concat([a, b, c]) == a + b + c
  {
    ConcatAppend([a, b], c);
    ConcatAppend([a], b);
    ConcatAppend([], a);
    assert [a, b] + [c] == [a, b, c] && [a] + [b] == [a, b] && [] + [a] == [a];
  }

  lemma {:induction false} FourMore(lists: seq<seq<string>>, all: seq<seq<string>>, before: seq<string>,
                                    a: seq<string>, b: seq<string>, c: seq<string>, d: seq<string>)
    requires all == lists + [a, b, c, d] && before == Concat(lists)
    ensures Concat(all) == before + a + b + c + d
  {
    ConcatAppend(lists, a);
    ConcatAppend(lists + [a], b);
    ConcatAppend(lists + [a] + [b], c);
    ConcatAppend(lists + [a] + [b] + [c], d);
    assert all == lists + [a] + [b] + [c] + [d];
  }

  lemma {:induction false} BodyIsSections(names: Names, m: Manifest)
    ensures Body(names, m) == Concat(Sections(names, m))
  {
    var three := [Present(m.className), [names.factory], Present(m.launcher)];
    var seven := three + [m.activities, m.services, m.providers, m.receivers];
    ThreeLists(Present(m.className), [names.factory], Present(m.launcher));
    FourMore(three, seven, Concat(three), m.activities, m.services, m.providers, m.receivers);
    ConcatAppend(seven, Flattened(m.metadata));
    ConcatAppend(seven + [Flattened(m.metadata)], Present(m.version));
    ConcatAppend(seven + [Flattened(m.metadata)] + [Present(m.version)], Present(m.sourceDir));
    assert Sections(names, m) == seven + [Flattened(m.metadata)] + [Present(m.version)] + [Present(m.sourceDir)];
  }

  /** The bytes, for any manifest: the header in UTF-16, then every string of every list in UTF-8. */
  lemma {:induction false} GeneratedBytes(names: Names, m: Manifest)
    ensures Generated(names, Some(m)) == Utf16Record(names.header) + Utf8File(Concat(Sections(names, m)))
  {
    BodyIsSections(names, m);
    BytesConcat([Record(Utf16, names.header)], Utf8Records(Body(names, m)));
    BytesOne(Record(Utf16, names.header));
  }

  /** A file of several strings is their records, one after the other. */
  lemma {:induction false} Utf8FileIs(s: string, ss: seq<string>)
    ensures Utf8File([]) == []
    ensures Utf8File([s] + ss) == Utf8Record(s) + Utf8File(ss)
  {
    assert Utf8Records([s]) == [Record(Utf8, s)];
    Utf8RecordsConcat([s], ss);
    BytesConcat([Record(Utf8, s)], Utf8Records(ss));
    BytesOne(Record(Utf8, s));
  }

  /** The metadata are written pair by pair. */
  lemma {:induction false} FlattenedIs(metadata: seq<(string, string)>)
    ensures |Flattened(metadata)| == 2 * |metadata|
    ensures forall k :: 0 <= k < |metadata| ==>
                          Flattened(metadata)[2 * k] == metadata[k].0 && Flattened(metadata)[2 * k + 1] == metadata[k].1
  {
    if metadata != [] {
      FlattenedIs(metadata[1..]);
      forall k | 0 <= k < |metadata|
        ensures Flattened(metadata)[2 * k] == metadata[k].0 && Flattened(metadata)[2 * k + 1] == metadata[k].1
      {
        if k > 0 {
          assert metadata[k] == metadata[1..][k - 1];
          assert Flattened(metadata)[2 * k] == Flattened(metadata[1..])[2 * (k - 1)];
          assert Flattened(metadata)[2 * k + 1] == Flattened(metadata[1..])[2 * (k - 1) + 1];
        }
      }
    }
  }

  /** A list of strings that the reader can carry is shown as it is. */
  lemma {:induction false} ShownAll(ss: seq<string>)
    requires forall s :: s in ss ==> 1 <= |s| < 4000 && forall k :: 0 <= k < |s| ==> ' ' <= s[k] <= '~'
    ensures Shown(ss) == ss
  {
    if ss != [] {
      assert Readable(ss[0]);
      ShownAll(ss[1..]);
    }
  }

  /**
   What the reader gets from the generated bytes: the header, the class name, the
   factory, the launcher, the activities, services, providers and receivers, the
   metadata pairs, the version and the path, each list in its own order and
   without the strings that the reader cannot carry, and nothing else.
   */
  lemma {:induction false} ConfHolds(names: Names, m: Manifest)
    requires Carried(names) && ManifestInStep(m)
    ensures Strings(Generated(names, Some(m)), 0) == [names.header] + Concat(ShownEach(Sections(names, m)))
  {
    ConfReadsBack(names, m);
    BodyIsSections(names, m);
    ShownOfConcat(Sections(names, m));
  }

  /** s is one of the strings of the manifest. */
  ghost predicate Mentions(m: Manifest, s: string) {
    || Some(s) in {m.className, m.launcher, m.version, m.sourceDir}
    || s in m.activities || s in m.services || s in m.providers || s in m.receivers
    || exists e :: e in m.metadata && (e.0 == s || e.1 == s)
  }

  lemma {:induction false} FlattenedMembers(metadata: seq<(string, string)>, s: string)
    ensures s in Flattened(metadata) <==> exists e :: e in metadata && (e.0 == s || e.1 == s)
  {
    if metadata != [] {
      FlattenedMembers(metadata[1..], s);
      assert metadata == [metadata[0]] + metadata[1..];
    }
  }

  lemma {:induction false} SectionMembers(names: Names, m: Manifest, s: string)
    ensures s in Body(names, m) <==> s == names.factory || Mentions(m, s)
  {
    FlattenedMembers(m.metadata, s);
  }

  /** Nothing that can be carried is left out, and nothing is found that was not given. */
  lemma {:induction false} FoundIff(names: Names, m: Manifest, s: string)
    requires Carried(names) && ManifestInStep(m)
    ensures s in Strings(Generated(names, Some(m)), 0)
       <==> s == names.header || (s != "" && Readable(s) && (s == names.factory || Mentions(m, s)))
  {
    ConfReadsBack(names, m);
    ShownMembers(Body(names, m));
    SectionMembers(names, m, s);
  }

  // ---- The parser's answers ----

  /** The last eight characters of s are base.apk. */
  predicate NamesApk(s: string) {
    |s| >= 8 && s[|s| - 8..] == "base.apk"
  }

  lemma {:induction false} NamesApkIs(s: string)
    ensures EndsInApk(s) <==> NamesApk(s)
  {
  }

  /** The apk path is the first string that names one. */
  lemma {:induction false} FirstApkIs(vals: seq<string>)
    ensures FirstApk(vals).None? <==> forall k :: 0 <= k < |vals| ==> !EndsInApk(vals[k])
    ensures FirstApk(vals).Some? ==>
              exists i :: 0 <= i < |vals| && EndsInApk(vals[i]) && vals[i] == FirstApk(vals).value
                          && forall k :: 0 <= k < i ==> !EndsInApk(vals[k])
  {
    if vals != [] && !EndsInApk(vals[0]) {
      var rest := vals[1..];
      FirstApkIs(rest);
      assert forall k :: 1 <= k < |vals| ==> vals[k] == rest[k - 1];
      if FirstApk(rest).Some? {
        var i :| 0 <= i < |rest| && EndsInApk(rest[i]) && rest[i] == FirstApk(rest).value
                 && forall k :: 0 <= k < i ==> !EndsInApk(rest[k]);
        assert EndsInApk(vals[i + 1]) && vals[i + 1] == FirstApk(vals).value;
      }
    }
  }

  predicate Digits(s: string) {
    s != "" && forall k :: 0 <= k < |s| ==> '0' <= s[k] <= '9'
  }

  /** The parts with a dot before each. */
  function DotBeforeEach(parts: seq<string>): string {
    if parts == [] then "" else ['.'] + parts[0] + DotBeforeEach(parts[1..])
  }

  /** Two or more groups of digits with dots between. */
  ghost predicate DottedNumber(s: string) {
    exists first, rest :: Digits(first) && rest != [] && (forall p :: p in rest ==> Digits(p)) && s == first + DotBeforeEach(rest)
  }

  lemma {:induction false} DigitRunIs(run: string, rest: string)
    requires forall k :: 0 <= k < |run| ==> '0' <= run[k] <= '9'
    requires rest == "" || !('0' <= rest[0] <= '9')
    ensures DigitRun(run + rest) == |run|
  {
    if run == "" {
      assert run + rest == rest;
    } else {
      assert (run + rest)[1..] == run[1..] + rest;
      DigitRunIs(run[1..], rest);
    }
  }

  lemma {:induction false} DigitRunDigits(s: string)
    ensures forall k :: 0 <= k < DigitRun(s) ==> '0' <= s[k] <= '9'
  {
    if s != "" && '0' <= s[0] <= '9' {
      DigitRunDigits(s[1..]);
      assert forall k :: 1 <= k < DigitRun(s) ==> s[k] == s[1..][k - 1];
    }
  }

  /** One group, and what follows it. */
  lemma {:induction false} GroupRead(part: string, rest: string)
    requires Digits(part) && DottedGroups(rest) && (rest == "" || rest[0] == '.')
    ensures DottedGroups(['.'] + part + rest)
  {
    var s := ['.'] + part + rest;
    assert s[1..] == part + rest;
    DigitRunIs(part, rest);
    assert s[1 + |part|..] == rest;
  }

  lemma {:induction false} GroupsRead(parts: seq<string>)
    requires forall p :: p in parts ==> Digits(p)
    ensures DottedGroups(DotBeforeEach(parts))
  {
    if parts != [] {
      assert parts[0] in parts;
      GroupsRead(parts[1..]);
      GroupRead(parts[0], DotBeforeEach(parts[1..]));
    }
  }

  lemma {:induction false} GroupsFound(s: string) returns (parts: seq<string>)
    requires DottedGroups(s)
    ensures (forall p :: p in parts ==> Digits(p)) && s == DotBeforeEach(parts)
    ensures s != "" ==> parts != []
    decreases |s|
  {
    parts := [];
    if s != "" {
      var n := DigitRun(s[1..]);
      var more := GroupsFound(s[1 + n..]);
      DigitRunDigits(s[1..]);
      assert Digits(s[1..][..n]);
      parts := [s[1..][..n]] + more;
      assert parts[1..] == more;
    }
  }

  lemma {:induction false} SemverIff(s: string)
    ensures Semver(s) <==> DottedNumber(s)
  {
    if Semver(s) {
      var n := DigitRun(s);
      DigitRunDigits(s);
      var rest := GroupsFound(s[n..]);
      assert Digits(s[..n]) && s == s[..n] + DotBeforeEach(rest);
    }
    if DottedNumber(s) {
      var first, rest :| Digits(first) && rest != [] && (forall p :: p in rest ==> Digits(p)) && s == first + DotBeforeEach(rest);
      DigitRunIs(first, DotBeforeEach(rest));
      GroupsRead(rest);
      assert s[|first|..] == DotBeforeEach(rest);
    }
  }

  /** vals[i] is a version with an apk path right after it. */
  predicate VersionAt(vals: seq<string>, i: nat) {
    i + 1 < |vals| && Semver(vals[i]) && EndsInApk(vals[i + 1])
  }

  lemma {:induction false} VersionBeforeApkIs(vals: seq<string>, from: nat)
    ensures var v := VersionBeforeApk(vals, from + 1);
            && (v.None? <==> forall i :: from <= i ==> !VersionAt(vals, i))
            && (v.Some? ==> exists i :: from <= i && VersionAt(vals, i) && v == Some(vals[i])
                                        && forall k :: from <= k < i ==> !VersionAt(vals, k))
    decreases |vals| - from
  {
    if from + 1 < |vals| {
      VersionBeforeApkIs(vals, from + 1);
      if VersionAt(vals, from) {
        assert VersionBeforeApk(vals, from + 1) == Some(vals[from]);
      }
    }
  }

  /** The first version with an apk path right after it; without one, the first version; without that, none. */
  lemma {:induction false} VersionIs(vals: seq<string>)
    ensures var v := VersionOf(vals);
            || (exists i :: 0 <= i && VersionAt(vals, i) && v == Some(vals[i]) && forall k :: 0 <= k < i ==> !VersionAt(vals, k))
            || ((forall i :: 0 <= i ==> !VersionAt(vals, i)) && v == FirstSemver(vals))
  {
    VersionBeforeApkIs(vals, 0);
  }

  lemma {:induction false} FirstSemverIs(vals: seq<string>)
    ensures FirstSemver(vals).None? <==> forall k :: 0 <= k < |vals| ==> !Semver(vals[k])
    ensures FirstSemver(vals).Some? ==>
              exists i :: 0 <= i < |vals| && Semver(vals[i]) && vals[i] == FirstSemver(vals).value
                          && forall k :: 0 <= k < i ==> !Semver(vals[k])
  {
    if vals != [] && !Semver(vals[0]) {
      var rest := vals[1..];
      FirstSemverIs(rest);
      assert forall k :: 1 <= k < |vals| ==> vals[k] == rest[k - 1];
      if FirstSemver(rest).Some? {
        var i :| 0 <= i < |rest| && Semver(rest[i]) && rest[i] == FirstSemver(rest).value
                 && forall k :: 0 <= k < i ==> !Semver(rest[k]);
        assert Semver(vals[i + 1]) && vals[i + 1] == FirstSemver(vals).value;
      }
    }
  }
}
