/**
 Writing package.conf from a target's manifest, reading the apk path and the
 version back, and the freshness test that decides whether to write it again.
 */
module PackageConf {
  import opened Options
  import opened Octets
  import opened Sequences
  import opened ParcelFormat
  import opened ParcelRoundTrip
  import opened ParcelWalk

  /** What the package manager says about the target; metadata lists the recognised keys that are present. */
  datatype Manifest = Manifest(
    className: Option<string>,
    launcher: Option<string>,
    activities: seq<string>,
    services: seq<string>,
    providers: seq<string>,
    receivers: seq<string>,
    metadata: seq<(string, string)>,
    version: Option<string>,
    sourceDir: Option<string>)

  /** The two fixed strings of every file: the UTF-16 header and the component factory's name. */
  datatype Names = Names(header: string, factory: string)

  const HEADER := "com.app.framework.core.system.pm.BPackage"
  const COMPONENT_FACTORY := "androidx.core.app.CoreComponentFactory"

  const APK := "base.apk"
  const MIN_CONF_SIZE := 32

  function Present(o: Option<string>): seq<string> {
    if o.Some? then [o.value] else []
  }

  function Flattened(metadata: seq<(string, string)>): seq<string> {
    if metadata == [] then [] else [metadata[0].0, metadata[0].1] + Flattened(metadata[1..])
  }

  /** The UTF-8 strings written before the version. */
  function Components(names: Names, m: Manifest): seq<string> {
    Present(m.className) + [names.factory] + Present(m.launcher)
    + m.activities + m.services + m.providers + m.receivers + Flattened(m.metadata)
  }

  /** The UTF-8 strings written before the apk path. */
  function BeforePath(names: Names, m: Manifest): seq<string> {
    Components(names, m) + Present(m.version)
  }

  function Body(names: Names, m: Manifest): seq<string> {
    BeforePath(names, m) + Present(m.sourceDir)
  }

  function Utf8Records(ss: seq<string>): seq<Record> {
    seq(|ss|, k requires 0 <= k < |ss| => Record(Utf8, ss[k]))
  }

  function Utf8File(ss: seq<string>): seq<Byte> {
    Bytes(Utf8Records(ss))
  }

  function ConfRecords(names: Names, m: Manifest): seq<Record> {
    [Record(Utf16, names.header)] + Utf8Records(Body(names, m))
  }

  /** The generated file; nothing when the target cannot be looked up. */
  function Generated(names: Names, target: Option<Manifest>): seq<Byte> {
    if target.None? then [] else Bytes(ConfRecords(names, target.value))
  }

  // ---- Generating ----

  lemma {:induction false} Utf8RecordsConcat(written: seq<string>, more: seq<string>)
    ensures Utf8Records(written + more) == Utf8Records(written) + Utf8Records(more)
  {
  }

  lemma {:induction false} Appended(head: seq<Byte>, written: seq<string>, more: seq<string>)
    ensures head + Utf8File(written) + Utf8File(more) == head + Utf8File(written + more)
  {
    Utf8RecordsConcat(written, more);
    BytesConcat(Utf8Records(written), Utf8Records(more));
    Regroup(head, Utf8File(written), Utf8File(more));
  }

  lemma {:induction false} BytesOne(r: Record)
    ensures Bytes([r]) == RecordBytes(r)
  {
  }

  method WriteOne(out: ParcelWriter, s: string)
    modifies out
    ensures out.out == old(out.out) + Utf8File([s])
  {
    assert Utf8Records([s]) == [Record(Utf8, s)];
    BytesOne(Record(Utf8, s));
    out.Utf8(s);
  }

  lemma {:induction false} ListAppended(head: seq<Byte>, ss: seq<string>, i: nat)
    requires i < |ss|
    ensures head + Utf8File(ss[..i]) + Utf8File([ss[i]]) == head + Utf8File(ss[..i + 1])
  {
    var done := ss[..i];
    assert ss[..i + 1] == done + [ss[i]];
    Appended(head, done, [ss[i]]);
  }

  method WriteAll(out: ParcelWriter, ss: seq<string>)
    modifies out
    ensures out.out == old(out.out) + Utf8File(ss)
  {
    ghost var head := out.out;
    assert head == head + Utf8File(ss[..0]);
    for i := 0 to |ss|
      invariant out.out == head + Utf8File(ss[..i])
    {
      ListAppended(head, ss, i);
      WriteOne(out, ss[i]);
    }
    assert ss[..|ss|] == ss;
  }

  lemma {:induction false} FlattenedAppend(metadata: seq<(string, string)>, entry: (string, string))
    ensures Flattened(metadata + [entry]) == Flattened(metadata) + [entry.0] + [entry.1]
  {
    if metadata != [] {
      assert (metadata + [entry])[1..] == metadata[1..] + [entry];
      FlattenedAppend(metadata[1..], entry);
    }
  }

  lemma {:induction false} TwoAppended(head: seq<Byte>, written: seq<string>, a: string, b: string)
    ensures head + Utf8File(written) + Utf8File([a]) + Utf8File([b]) == head + Utf8File(written + [a] + [b])
  {
    Appended(head, written, [a]);
    Appended(head, written + [a], [b]);
  }

  lemma {:induction false} MetadataAppended(head: seq<Byte>, metadata: seq<(string, string)>, i: nat)
    requires i < |metadata|
    ensures head + Utf8File(Flattened(metadata[..i])) + Utf8File([metadata[i].0]) + Utf8File([metadata[i].1])
         == head + Utf8File(Flattened(metadata[..i + 1]))
  {
    assert metadata[..i + 1] == metadata[..i] + [metadata[i]];
    FlattenedAppend(metadata[..i], metadata[i]);
    TwoAppended(head, Flattened(metadata[..i]), metadata[i].0, metadata[i].1);
  }

  method WriteMetadata(out: ParcelWriter, metadata: seq<(string, string)>)
    modifies out
    ensures out.out == old(out.out) + Utf8File(Flattened(metadata))
  {
    ghost var head := out.out;
    assert head == head + Utf8File(Flattened(metadata[..0]));
    for i := 0 to |metadata|
      invariant out.out == head + Utf8File(Flattened(metadata[..i]))
    {
      MetadataAppended(head, metadata, i);
      WriteOne(out, metadata[i].0);
      WriteOne(out, metadata[i].1);
    }
    assert metadata[..|metadata|] == metadata;
  }

  method WriteOptional(out: ParcelWriter, s: Option<string>)
    modifies out
    ensures out.out == old(out.out) + Utf8File(Present(s))
  {
    if s.Some? {
      WriteOne(out, s.value);
    }
  }

  method Write(out: ParcelWriter, names: Names, m: Manifest)
    modifies out
    ensures out.out == old(out.out) + Bytes(ConfRecords(names, m))
  {
    ghost var start := out.out;
    out.Utf16(names.header);
    ghost var head := out.out;
    WriteOptional(out, m.className);
    ghost var s1 := Present(m.className);
    WriteOne(out, names.factory);
    Appended(head, s1, [names.factory]);
    ghost var s2 := s1 + [names.factory];
    WriteOptional(out, m.launcher);
    Appended(head, s2, Present(m.launcher));
    ghost var s3 := s2 + Present(m.launcher);
    WriteAll(out, m.activities);
    Appended(head, s3, m.activities);
    ghost var s4 := s3 + m.activities;
    WriteAll(out, m.services);
    Appended(head, s4, m.services);
    ghost var s5 := s4 + m.services;
    WriteAll(out, m.providers);
    Appended(head, s5, m.providers);
    ghost var s6 := s5 + m.providers;
    WriteAll(out, m.receivers);
    Appended(head, s6, m.receivers);
    ghost var s7 := s6 + m.receivers;
    WriteMetadata(out, m.metadata);
    Appended(head, s7, Flattened(m.metadata));
    WriteOptional(out, m.version);
    Appended(head, Components(names, m), Present(m.version));
    WriteOptional(out, m.sourceDir);
    Appended(head, BeforePath(names, m), Present(m.sourceDir));
    BytesConcat([Record(Utf16, names.header)], Utf8Records(Body(names, m)));
    BytesOne(Record(Utf16, names.header));
    Regroup(start, Utf16Record(names.header), Utf8File(Body(names, m)));
  }

  method GeneratePackageConf(names: Names, target: Option<Manifest>) returns (bytes: seq<Byte>)
    ensures bytes == Generated(names, target)
  {
    if target.None? {
      return [];
    }
    var out := new ParcelWriter();
    Write(out, names, target.value);
    bytes := out.out;
  }

  // ---- Parsing ----

  predicate EndsWith(s: string, suffix: string) {
    |suffix| <= |s| && s[|s| - |suffix|..] == suffix
  }

  predicate EndsInApk(s: string) {
    EndsWith(s, APK)
  }

  function FirstApk(vals: seq<string>): Option<string> {
    if vals == [] then None
    else if EndsInApk(vals[0]) then Some(vals[0])
    else FirstApk(vals[1..])
  }

  /** The length of the longest prefix of digits. */
  function DigitRun(s: string): (n: nat)
    ensures n <= |s|
  {
    if s != "" && '0' <= s[0] <= '9' then 1 + DigitRun(s[1..]) else 0
  }

  /** Zero or more groups, each a dot and at least one digit. */
  predicate DottedGroups(s: string)
    decreases |s|
  {
    s == ""
    || (s[0] == '.' && DigitRun(s[1..]) > 0 && DottedGroups(s[1 + DigitRun(s[1..])..]))
  }

  /** Two or more groups of digits separated by dots. */
  predicate Semver(s: string) {
    DigitRun(s) > 0 && s[DigitRun(s)..] != "" && DottedGroups(s[DigitRun(s)..])
  }

  /** The first dotted number from position idx that stands just before a string ending in base.apk. */
  function VersionBeforeApk(vals: seq<string>, idx: nat): Option<string>
    decreases |vals| - idx
  {
    if idx >= |vals| then None
    else if EndsInApk(vals[idx]) && idx > 0 && Semver(vals[idx - 1]) then Some(vals[idx - 1])
    else VersionBeforeApk(vals, idx + 1)
  }

  function FirstSemver(vals: seq<string>): Option<string> {
    if vals == [] then None
    else if Semver(vals[0]) then Some(vals[0])
    else FirstSemver(vals[1..])
  }

  function VersionOf(vals: seq<string>): Option<string> {
    var v := VersionBeforeApk(vals, 0);
    if v.Some? then v else FirstSemver(vals)
  }

  method Parse(data: seq<Byte>) returns (apkPath: Option<string>, version: Option<string>)
    ensures apkPath == FirstApk(Strings(data, 0))
    ensures version == VersionOf(Strings(data, 0))
  {
    var vals := ReadStrings(data);
    version := None;
    for idx := 0 to |vals|
      invariant version == None
      invariant VersionBeforeApk(vals, idx) == VersionBeforeApk(vals, 0)
    {
      if EndsInApk(vals[idx]) && idx > 0 && Semver(vals[idx - 1]) {
        version := Some(vals[idx - 1]);
        break;
      }
    }
    if version == None {
      version := FirstSemver(vals);
    }
    apkPath := FirstApk(vals);
  }

  // ---- Freshness ----

  /** The file is rewritten when it is missing, too short, or names another apk path than the target has now. */
  predicate Stale(file: Option<seq<Byte>>, target: Option<Manifest>) {
    file.None? || |file.value| < MIN_CONF_SIZE
    || target.None? || target.value.sourceDir != FirstApk(Strings(file.value, 0))
  }

  function Bootstrapped(names: Names, file: Option<seq<Byte>>, target: Option<Manifest>): Option<seq<Byte>> {
    if Stale(file, target) && Generated(names, target) != [] then Some(Generated(names, target)) else file
  }

  /** package.conf on disk. */
  class ConfFile {
    var content: Option<seq<Byte>>

    method Bootstrap(names: Names, target: Option<Manifest>) returns (wrote: bool)
      modifies this
      ensures content == Bootstrapped(names, old(content), target)
      ensures wrote <==> Stale(old(content), target) && Generated(names, target) != []
      ensures content == if wrote then Some(Generated(names, target)) else old(content)
      ensures !wrote <==>
              || Generated(names, target) == []
              || (old(content).Some? && |old(content).value| >= 32
                  && target.Some? && target.value.sourceDir == FirstApk(Strings(old(content).value, 0)))
    {
      var stale := content.None? || |content.value| < MIN_CONF_SIZE || target.None?;
      if !stale {
        var apkPath, _ := Parse(content.value);
        stale := target.value.sourceDir != apkPath;
      }
      wrote := false;
      if stale {
        var bytes := GeneratePackageConf(names, target);
        if bytes != [] {
          content := Some(bytes);
          wrote := true;
        }
      }
    }
  }

  // ---- Reading back what was generated ----

  /** The strings the reader can carry. */
  function Shown(ss: seq<string>): seq<string> {
    if ss == [] then []
    else (if ss[0] != "" && Readable(ss[0]) then [ss[0]] else []) + Shown(ss[1..])
  }

  lemma {:induction false} ReadableTextsOfUtf8(ss: seq<string>)
    ensures ReadableTexts(Utf8Records(ss)) == Shown(ss)
  {
    if ss != [] {
      assert Utf8Records(ss)[1..] == Utf8Records(ss[1..]);
      ReadableTextsOfUtf8(ss[1..]);
    }
  }

  lemma {:induction false} ShownConcat(a: seq<string>, b: seq<string>)
    ensures Shown(a + b) == Shown(a) + Shown(b)
  {
    if a == [] {
      assert a + b == b;
    } else {
      assert (a + b)[1..] == a[1..] + b;
      ShownConcat(a[1..], b);
    }
  }

  lemma {:induction false} ShownMembers(ss: seq<string>)
    ensures forall s :: s in Shown(ss) <==> s in ss && s != "" && Readable(s)
  {
    if ss != [] {
      ShownMembers(ss[1..]);
    }
  }

  /** The fixed strings survive the reader, and the header is not mistaken for an apk path. */
  ghost predicate Carried(names: Names) {
    && Readable(names.header) && !EndsInApk(names.header)
    && |names.header| >= 13
    && Readable(names.factory)
  }

  lemma {:induction false} HeaderCarried()
    ensures Readable(HEADER) && |HEADER| == 41
  {
  }

  lemma {:induction false} FactoryCarried()
    ensures Readable(COMPONENT_FACTORY)
  {
  }

  lemma {:induction false} LastCharDiffers(s: string)
    requires s != "" && s[|s| - 1] != 'k'
    ensures !EndsInApk(s)
  {
    if |s| >= 8 {
      assert s[|s| - 8..][7] == s[|s| - 1] && APK[7] == 'k';
    }
  }

  lemma {:induction false} SourceNamesCarried()
    ensures Carried(Names(HEADER, COMPONENT_FACTORY))
  {
    HeaderCarried();
    FactoryCarried();
    LastCharDiffers(HEADER);
  }

  predicate AllInStep(ss: seq<string>) {
    forall s :: s in ss ==> InStep(s)
  }

  predicate InStepIfAny(o: Option<string>) {
    o.Some? ==> InStep(o.value)
  }

  /** No string of the manifest holds a NUL or ends in one of U+0001 to U+0003; any other text is allowed. */
  predicate ManifestInStep(m: Manifest) {
    && InStepIfAny(m.className) && InStepIfAny(m.launcher)
    && AllInStep(m.activities) && AllInStep(m.services) && AllInStep(m.providers) && AllInStep(m.receivers)
    && (forall e :: e in m.metadata ==> InStep(e.0) && InStep(e.1))
    && InStepIfAny(m.version) && InStepIfAny(m.sourceDir)
  }

  lemma {:induction false} FlattenedInStep(metadata: seq<(string, string)>)
    requires forall e :: e in metadata ==> InStep(e.0) && InStep(e.1)
    ensures AllInStep(Flattened(metadata))
  {
    if metadata != [] {
      FlattenedInStep(metadata[1..]);
    }
  }

  lemma {:induction false} BodyInStep(names: Names, m: Manifest)
    requires Carried(names) && ManifestInStep(m)
    ensures AllInStep(Body(names, m))
  {
    FlattenedInStep(m.metadata);
  }

  lemma {:induction false} HeaderShown(names: Names, body: seq<string>)
    requires Carried(names)
    ensures ReadableTexts([Record(Utf16, names.header)] + Utf8Records(body)) == [names.header] + Shown(body)
  {
    var rs := [Record(Utf16, names.header)] + Utf8Records(body);
    assert rs[1..] == Utf8Records(body);
    ReadableTextsOfUtf8(body);
  }

  /** A generated file reads back as its header and the strings of its body that the reader can carry. */
  lemma {:induction false} ConfReadsBack(names: Names, m: Manifest)
    requires Carried(names) && ManifestInStep(m)
    ensures Strings(Generated(names, Some(m)), 0) == [names.header] + Shown(Body(names, m))
  {
    var rs, body := ConfRecords(names, m), Body(names, m);
    BodyInStep(names, m);
    forall k | 0 <= k < |rs|
      ensures RecordInStep(rs[k])
    {
      assert k > 0 ==> rs[k] == Record(Utf8, body[k - 1]) && body[k - 1] in body;
    }
    RecordsReadBack(rs);
    HeaderShown(names, body);
  }

  lemma {:induction false} FirstApkConcat(a: seq<string>, b: seq<string>)
    ensures FirstApk(a + b) == if FirstApk(a).Some? then FirstApk(a) else FirstApk(b)
  {
    if a == [] {
      assert a + b == b;
    } else {
      assert (a + b)[1..] == a[1..] + b;
      FirstApkConcat(a[1..], b);
    }
  }

  lemma {:induction false} ApkPathOfConf(names: Names, m: Manifest)
    requires Carried(names) && ManifestInStep(m)
    ensures FirstApk(Strings(Generated(names, Some(m)), 0)) == FirstApk(Shown(Body(names, m)))
  {
    ConfReadsBack(names, m);
    FirstApkConcat([names.header], Shown(Body(names, m)));
  }

  lemma {:induction false} ConfIsLong(names: Names, m: Manifest)
    requires Carried(names)
    ensures |Generated(names, Some(m))| >= MIN_CONF_SIZE
  {
    Utf16OfPrintable(names.header);
  }

  /**
   The first string that the reader can carry and that ends in base.apk is the
   target's apk path (or, without a path, there is none).
   */
  predicate PathIsFirstApk(names: Names, m: Manifest) {
    var earlier := FirstApk(Shown(BeforePath(names, m)));
    match m.sourceDir
    case None => earlier == None
    case Some(path) => earlier == Some(path) || (earlier == None && EndsInApk(path) && Readable(path))
  }

  lemma {:induction false} FirstApkOfBody(names: Names, m: Manifest)
    ensures m.sourceDir == FirstApk(Shown(Body(names, m))) <==> PathIsFirstApk(names, m)
  {
    ShownConcat(BeforePath(names, m), Present(m.sourceDir));
    FirstApkConcat(Shown(BeforePath(names, m)), Shown(Present(m.sourceDir)));
    assert m.sourceDir.Some? ==> Present(m.sourceDir)[1..] == [];
    assert m.sourceDir.Some? ==> [m.sourceDir.value][1..] == [];
  }

  /**
   Writing the file settles the freshness test exactly when the apk path ends in
   base.apk, can be carried, and no different string that can be carried and is
   written before it does.
   */
  lemma {:induction false} FreshAfterWriteIff(names: Names, m: Manifest)
    requires Carried(names) && ManifestInStep(m)
    ensures !Stale(Some(Generated(names, Some(m))), Some(m)) <==> PathIsFirstApk(names, m)
  {
    ConfIsLong(names, m);
    ApkPathOfConf(names, m);
    FirstApkOfBody(names, m);
  }

  lemma {:induction false} FirstApkMember(ss: seq<string>)
    ensures FirstApk(ss).Some? ==> FirstApk(ss).value in ss && EndsInApk(FirstApk(ss).value)
  {
    if ss != [] {
      FirstApkMember(ss[1..]);
    }
  }

  /** An apk path that does not end in base.apk, or that the reader cannot carry, is never found fresh. */
  lemma {:induction false} UnreadablePathStaysStale(file: Option<seq<Byte>>, m: Manifest)
    requires m.sourceDir.Some? && !(Readable(m.sourceDir.value) && EndsInApk(m.sourceDir.value))
    ensures Stale(file, Some(m))
  {
    if file.Some? {
      StringsAreReadable(file.value, 0);
      FirstApkMember(Strings(file.value, 0));
    }
  }

  /**
   A second bootstrap right after the first never changes the file.  It finds the
   file stale only if the first one did and the path cannot be found in it.
   */
  lemma {:induction false} SecondBootstrap(names: Names, file: Option<seq<Byte>>, m: Manifest)
    requires Carried(names)
    ensures var after := Bootstrapped(names, file, Some(m));
            && Bootstrapped(names, after, Some(m)) == after
            && (ManifestInStep(m) ==>
                  (Stale(after, Some(m)) <==> Stale(file, Some(m)) && !PathIsFirstApk(names, m)))
  {
    ConfIsLong(names, m);
    if ManifestInStep(m) {
      FreshAfterWriteIff(names, m);
    }
  }

  // ---- A text that hides the path ----

  /**
   The string written just before the path ends in U+0001 and lies so that
   three zeros follow it.  Then the path, although it is the first string that
   ends in base.apk, is not found, and the file just written is stale.
   */
  lemma {:induction false} ControlCharacterHidesPath(names: Names, m: Manifest, before: seq<string>, s: string, path: string)
    requires Carried(names) && BeforePath(names, m) == before + [s] && EndsAsLengthOne(s)
    requires forall x :: x in before ==> InStep(x)
    requires m.sourceDir == Some(path) && EndsInApk(path) && Readable(path) && 32 <= |path| <= 126
    requires FirstApk(Shown(before)) == None
    ensures PathIsFirstApk(names, m)
    ensures Stale(Some(Generated(names, Some(m))), Some(m))
  {
    var rs, head := ConfRecords(names, m), [Record(Utf16, names.header)] + Utf8Records(before);
    assert Body(names, m) == before + [s, path];
    Utf8RecordsConcat(before, [s, path]);
    assert Utf8Records([s, path]) == [Record(Utf8, s), Record(Utf8, path)];
    assert rs == head + [Record(Utf8, s), Record(Utf8, path)];
    forall k | 0 <= k < |head|
      ensures RecordInStep(head[k])
    {
      assert k > 0 ==> head[k] == Record(Utf8, before[k - 1]) && before[k - 1] in before;
    }
    LastTextMisread(rs, head, s, path);
    HeaderShown(names, before);
    OnlyLengthFound(names, before, [|path| as char]);
    NotShown(before, s);
  }

  lemma {:induction false} OnlyLengthFound(names: Names, before: seq<string>, c: string)
    requires Carried(names) && FirstApk(Shown(before)) == None && |c| == 1
    ensures FirstApk([names.header] + Shown(before) + [c]) == None
  {
    FirstApkConcat([names.header] + Shown(before), [c]);
    FirstApkConcat([names.header], Shown(before));
  }

  lemma {:induction false} NotShown(before: seq<string>, s: string)
    requires EndsAsLengthOne(s)
    ensures Shown(before + [s]) == Shown(before)
  {
    ShownConcat(before, [s]);
    assert !PrintableCode(s[|s| - 1] as int);
    assert Shown(before) + [] == Shown(before);
  }

  /** The shortest such text. */
  lemma {:induction false} OneControlCharacter()
    ensures EndsAsLengthOne("\U{0001}")
  {
    assert Utf8Bytes("\U{0001}") == Utf8Char('\U{0001}') + Utf8Bytes("");
  }

  lemma {:induction false} MetadataIsLast(names: Names, other: Manifest, m: Manifest, key: string, s: string)
    requires other.version == None && m == other.(metadata := other.metadata + [(key, s)], sourceDir := m.sourceDir)
    ensures BeforePath(names, m) == BeforePath(names, other) + [key] + [s]
  {
    FlattenedAppend(other.metadata, (key, s));
  }

  /** So a last metadata value of one control character, in a manifest without a version, hides the path. */
  lemma {:induction false} MetadataValueHidesPath(names: Names, m: Manifest, other: Manifest, key: string, path: string)
    requires Carried(names) && ManifestInStep(other) && InStep(key)
    requires other.version == None && other.sourceDir == None
    requires m == other.(metadata := other.metadata + [(key, "\U{0001}")], sourceDir := Some(path))
    requires EndsInApk(path) && Readable(path) && 32 <= |path| <= 126
    requires FirstApk(Shown(BeforePath(names, other) + [key])) == None
    ensures PathIsFirstApk(names, m)
    ensures Stale(Some(Generated(names, Some(m))), Some(m))
  {
    var before := BeforePath(names, other) + [key];
    OneControlCharacter();
    MetadataIsLast(names, other, m, key, "\U{0001}");
    BodyInStep(names, other);
    assert forall x :: x in BeforePath(names, other) ==> x in Body(names, other);
    ControlCharacterHidesPath(names, m, before, "\U{0001}", path);
  }

  // ---- The version ----

  lemma {:induction false} VersionAtEnd(ss: seq<string>, idx: nat)
    requires |ss| >= 2 && idx < |ss|
    requires forall k :: 0 <= k < |ss| - 1 ==> !EndsInApk(ss[k])
    requires EndsInApk(ss[|ss| - 1]) && Semver(ss[|ss| - 2])
    ensures VersionBeforeApk(ss, idx) == Some(ss[|ss| - 2])
    decreases |ss| - idx
  {
    if idx < |ss| - 1 {
      VersionAtEnd(ss, idx + 1);
    }
  }

  lemma {:induction false} ShownPair(a: string, b: string)
    requires a != "" && b != "" && Readable(a) && Readable(b)
    ensures Shown([a, b]) == [a, b]
  {
    assert [a, b][1..] == [b] && [b][1..] == [];
    assert Shown([b]) == [b] + Shown([]);
    assert [b] + [] == [b];
  }

  lemma {:induction false} VersionShown(components: seq<string>, version: string, path: string)
    requires version != "" && path != "" && Readable(version) && Readable(path)
    ensures Shown(components + [version, path]) == Shown(components) + [version, path]
    ensures Shown(components + [version]) == Shown(components) + [version]
  {
    ShownPair(version, path);
    ShownConcat(components, [version, path]);
    ShownConcat(components, [version]);
    assert Shown([version]) == [version] + Shown([]);
  }

  lemma {:induction false} VersionOfStrings(shown: seq<string>, version: string, path: string)
    requires forall s :: s in shown ==> !EndsInApk(s)
    requires Semver(version) && !EndsInApk(version) && EndsInApk(path)
    ensures VersionOf(shown + [version, path]) == Some(version)
  {
    var vals := shown + [version, path];
    forall k | 0 <= k < |vals| - 1
      ensures !EndsInApk(vals[k])
    {
      assert k < |shown| ==> vals[k] == shown[k] && shown[k] in shown;
    }
    VersionAtEnd(vals, 0);
  }

  lemma {:induction false} NoApk(ss: seq<string>)
    requires FirstApk(ss) == None
    ensures forall s :: s in ss ==> !EndsInApk(s)
  {
    if ss != [] {
      NoApk(ss[1..]);
    }
  }

  /**
   A dotted-number version that was written is read back, whatever other dotted
   numbers the components hold, as long as the reader can carry it and the apk
   path, and no other string that it can carry ends in base.apk.
   */
  lemma {:induction false} VersionReadsBack(names: Names, m: Manifest)
    requires Carried(names) && ManifestInStep(m)
    requires m.version.Some? && Semver(m.version.value) && Readable(m.version.value)
    requires m.sourceDir.Some? && EndsInApk(m.sourceDir.value) && Readable(m.sourceDir.value)
    requires FirstApk(Shown(BeforePath(names, m))) == None
    ensures VersionOf(Strings(Generated(names, Some(m)), 0)) == m.version
  {
    var shown, version, path := Shown(Components(names, m)), m.version.value, m.sourceDir.value;
    ConfReadsBack(names, m);
    VersionShown(Components(names, m), version, path);
    assert Body(names, m) == Components(names, m) + [version, path];
    assert [names.header] + (shown + [version, path]) == ([names.header] + shown) + [version, path];
    NoApk(shown + [version]);
    assert (shown + [version])[|shown|] == version;
    VersionOfStrings([names.header] + shown, version, path);
  }
}
