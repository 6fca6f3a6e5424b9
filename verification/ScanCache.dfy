/**
 The scan's cache over whole runs.  On memory that does not change, caching is
 invisible; on memory that does, every answer was right for a read made less
 than 30 seconds earlier.
 */
module ScanCache {
  import opened Options
  import opened Octets
  import opened PatternScan
  import opened ScanSearch

  // ---- The key determines the pattern and the mask ----

  lemma {:induction false} KeyTextHead(bytes: seq<Byte>, mask: string)
    requires bytes != []
    ensures KeyText(bytes, mask) == [HexDigit(bytes[0] / 16), HexDigit(bytes[0] % 16)] + KeyText(bytes[1..], mask)
  {
  }

  lemma {:induction false} CancelTwo(a: char, b: char, s: string, c: char, d: char, t: string)
    requires [a, b] + s == [c, d] + t
    ensures a == c && b == d && s == t
  {
    assert ([a, b] + s)[0] == a && ([a, b] + s)[1] == b;
    assert ([a, b] + s)[2..] == s && ([c, d] + t)[2..] == t;
  }

  lemma {:induction false} ByteFromDigits(m: Byte, n: Byte)
    requires HexDigit(m / 16) == HexDigit(n / 16) && HexDigit(m % 16) == HexDigit(n % 16)
    ensures m == n
  {
  }

  lemma {:induction false} KeyTextInjective(a: seq<Byte>, s: string, b: seq<Byte>, t: string)
    requires KeyText(a, s) == KeyText(b, t)
    ensures a == b && s == t
  {
    if a == [] || b == [] {
      assert KeyText(a, s)[0] == '|' <==> a == [];
      assert KeyText(b, t)[0] == '|' <==> b == [];
      assert KeyText([], s)[1..] == s && KeyText([], t)[1..] == t;
    } else {
      KeyTextHead(a, s);
      KeyTextHead(b, t);
      CancelTwo(HexDigit(a[0] / 16), HexDigit(a[0] % 16), KeyText(a[1..], s),
                HexDigit(b[0] / 16), HexDigit(b[0] % 16), KeyText(b[1..], t));
      ByteFromDigits(a[0], b[0]);
      KeyTextInjective(a[1..], s, b[1..], t);
      assert a == [a[0]] + a[1..] && b == [b[0]] + b[1..];
    }
  }

  lemma {:induction false} HashInjective(p: Pattern, p': Pattern)
    requires HashPattern(p) == HashPattern(p')
    ensures p == p'
  {
    KeyTextInjective(p.bytes, p.mask, p'.bytes, p'.mask);
  }

  // ---- Unchanging memory ----

  /** Every entry holds what reading its window would answer. */
  ghost predicate CacheSound(cache: Cache, read: Reader) {
    forall pid: int, addr: nat, n: nat, p: Pattern {:trigger KeyOf(pid, addr, n, p)} ::
      p.Valid() && KeyOf(pid, addr, n, p) in cache ==>
        cache[KeyOf(pid, addr, n, p)].addr == WindowAnswer(read, pid, addr, n, p)
  }

  lemma {:induction false} SoundInsert(cache: Cache, read: Reader, pid: int, addr: nat, n: nat, p: Pattern, now: int)
    requires p.Valid() && CacheSound(cache, read)
    ensures CacheSound(cache[KeyOf(pid, addr, n, p) := Entry(WindowAnswer(read, pid, addr, n, p), now)], read)
  {
    forall pid': int, addr': nat, n': nat, p': Pattern | KeyOf(pid', addr', n', p') == KeyOf(pid, addr, n, p)
      ensures pid' == pid && addr' == addr && n' == n && p' == p
    {
      HashInjective(p', p);
    }
  }

  lemma {:induction false} CachedIsUncached(cache: Cache, read: Reader, now: int, q: Query, off: nat)
    requires q.Valid() && CacheSound(cache, read)
    ensures Cached(cache, read, now, q, off).addr == Uncached(read, q, off)
    ensures CacheSound(Cached(cache, read, now, q, off).cache, read)
    decreases q.size - off
  {
    if q.pattern.bytes != [] && off + |q.pattern.bytes| <= q.size {
      SoundInsert(cache, read, q.pid, q.base + off, WindowSize(q, off), q.pattern, now);
      CachedIsUncached(WindowStep(cache, read, now, q, off).cache, read, now, q, off + CHUNK);
    }
  }

  /** A scan request and the time it is made at. */
  datatype Request = Request(query: Query, now: int)

  function Answers(cache: Cache, read: Reader, rs: seq<Request>): (answers: seq<nat>)
    requires forall k :: 0 <= k < |rs| ==> rs[k].query.Valid()
    ensures |answers| == |rs|
    decreases |rs|
  {
    if rs == [] then []
    else
      var o := Cached(cache, read, rs[0].now, rs[0].query, 0);
      [o.addr] + Answers(o.cache, read, rs[1..])
  }

  /** On memory that does not change, any sequence of scans at any times answers as if there were no cache. */
  lemma {:induction false} CacheIsTransparent(cache: Cache, read: Reader, rs: seq<Request>)
    requires forall k :: 0 <= k < |rs| ==> rs[k].query.Valid()
    requires CacheSound(cache, read)
    ensures forall k :: 0 <= k < |rs| ==> Answers(cache, read, rs)[k] == Uncached(read, rs[k].query, 0)
    decreases |rs|
  {
    if rs != [] {
      CachedIsUncached(cache, read, rs[0].now, rs[0].query, 0);
      var o := Cached(cache, read, rs[0].now, rs[0].query, 0);
      CacheIsTransparent(o.cache, read, rs[1..]);
      forall k | 0 <= k < |rs|
        ensures Answers(cache, read, rs)[k] == Uncached(read, rs[k].query, 0)
      {
        if k > 0 {
          assert rs[k] == rs[1..][k - 1];
          assert Answers(cache, read, rs)[k] == Answers(o.cache, read, rs[1..])[k - 1];
        }
      }
    }
  }

  // ---- Changing memory ----

  /** A scan, the memory as it can be read at that moment, and the time. */
  datatype Scan = Scan(query: Query, read: Reader, now: int)

  ghost predicate ValidScans(ss: seq<Scan>) {
    forall k :: 0 <= k < |ss| ==> ss[k].query.Valid()
  }

  /** The cache before scan k of a run that starts with an empty cache. */
  function CacheBefore(ss: seq<Scan>, k: nat): Cache
    requires ValidScans(ss) && k <= |ss|
  {
    if k == 0 then map[]
    else Cached(CacheBefore(ss, k - 1), ss[k - 1].read, ss[k - 1].now, ss[k - 1].query, 0).cache
  }

  /** What scan k of the run answers. */
  function AnswerOf(ss: seq<Scan>, k: nat): nat
    requires ValidScans(ss) && k < |ss|
  {
    Cached(CacheBefore(ss, k), ss[k].read, ss[k].now, ss[k].query, 0).addr
  }

  /** One of the first count scans was made at time ts and its memory answers a for the window. */
  ghost predicate Witnessed(ss: seq<Scan>, count: nat, ts: int, pid: int, addr: nat, n: nat, p: Pattern, a: nat)
    requires count <= |ss| && p.Valid()
  {
    exists j :: 0 <= j < count && ss[j].now == ts && WindowAnswer(ss[j].read, pid, addr, n, p) == a
  }

  ghost predicate CacheWitnessed(cache: Cache, ss: seq<Scan>, count: nat)
    requires count <= |ss|
  {
    forall pid: int, addr: nat, n: nat, p: Pattern {:trigger KeyOf(pid, addr, n, p)} ::
      p.Valid() && KeyOf(pid, addr, n, p) in cache ==>
        var e := cache[KeyOf(pid, addr, n, p)];
        Witnessed(ss, count, e.ts, pid, addr, n, p, e.addr)
  }

  /** Scan j, made less than the time-to-live before scan k, answers a for the window. */
  ghost predicate RecentlyAnswered(ss: seq<Scan>, k: nat, j: nat, pid: int, addr: nat, n: nat, p: Pattern, a: nat)
    requires j <= k < |ss| && p.Valid()
  {
    ss[k].now - ss[j].now < TTL_MS && WindowAnswer(ss[j].read, pid, addr, n, p) == a
  }

  /** Some scan up to scan k, less than the time-to-live before it, answers a for the window. */
  ghost predicate Recent(ss: seq<Scan>, k: nat, pid: int, addr: nat, n: nat, p: Pattern, a: nat)
    requires k < |ss| && p.Valid()
  {
    exists j :: 0 <= j <= k && RecentlyAnswered(ss, k, j, pid, addr, n, p, a)
  }

  /** The answer of scan k is explained, window by window, by recent reads. */
  ghost predicate Explained(ss: seq<Scan>, k: nat, off: nat, answer: nat)
    requires ValidScans(ss) && k < |ss|
    decreases ss[k].query.size - off
  {
    var q := ss[k].query;
    if q.pattern.bytes == [] || off + |q.pattern.bytes| > q.size then answer == 0
    else
      var n := WindowSize(q, off);
      || (answer != 0 && Recent(ss, k, q.pid, q.base + off, n, q.pattern, answer))
      || (Recent(ss, k, q.pid, q.base + off, n, q.pattern, 0) && Explained(ss, k, off + CHUNK, answer))
  }

  lemma {:induction false} WitnessedInsert(cache: Cache, ss: seq<Scan>, k: nat, pid: int, addr: nat, n: nat, p: Pattern)
    requires p.Valid() && k < |ss| && CacheWitnessed(cache, ss, k + 1)
    ensures var a := WindowAnswer(ss[k].read, pid, addr, n, p);
            CacheWitnessed(cache[KeyOf(pid, addr, n, p) := Entry(a, ss[k].now)], ss, k + 1)
  {
    var a := WindowAnswer(ss[k].read, pid, addr, n, p);
    assert Witnessed(ss, k + 1, ss[k].now, pid, addr, n, p, a);
    forall pid': int, addr': nat, n': nat, p': Pattern | KeyOf(pid', addr', n', p') == KeyOf(pid, addr, n, p)
      ensures pid' == pid && addr' == addr && n' == n && p' == p
    {
      HashInjective(p', p);
    }
  }

  lemma {:induction false} StepIsRecent(cache: Cache, ss: seq<Scan>, k: nat, off: nat, step: Outcome)
    requires ValidScans(ss) && k < |ss| && off <= ss[k].query.size && CacheWitnessed(cache, ss, k + 1)
    requires step == WindowStep(cache, ss[k].read, ss[k].now, ss[k].query, off)
    ensures var q := ss[k].query; Recent(ss, k, q.pid, q.base + off, WindowSize(q, off), q.pattern, step.addr)
  {
    var q := ss[k].query;
    var addr, n := q.base + off, WindowSize(q, off);
    var key := KeyOf(q.pid, addr, n, q.pattern);
    if Live(cache, key, ss[k].now) {
      assert Witnessed(ss, k + 1, cache[key].ts, q.pid, addr, n, q.pattern, step.addr);
      var j: nat :| j < k + 1 && ss[j].now == cache[key].ts && WindowAnswer(ss[j].read, q.pid, addr, n, q.pattern) == step.addr;
      assert RecentlyAnswered(ss, k, j, q.pid, addr, n, q.pattern, step.addr);
    } else {
      assert RecentlyAnswered(ss, k, k, q.pid, addr, n, q.pattern, step.addr);
    }
  }

  lemma {:induction false} StepIsWitnessed(cache: Cache, ss: seq<Scan>, k: nat, off: nat, step: Outcome)
    requires ValidScans(ss) && k < |ss| && off <= ss[k].query.size && CacheWitnessed(cache, ss, k + 1)
    requires step == WindowStep(cache, ss[k].read, ss[k].now, ss[k].query, off)
    ensures CacheWitnessed(step.cache, ss, k + 1)
  {
    var q := ss[k].query;
    WitnessedInsert(cache, ss, k, q.pid, q.base + off, WindowSize(q, off), q.pattern);
  }

  lemma {:induction false} ScanExplained(cache: Cache, ss: seq<Scan>, k: nat, off: nat, o: Outcome)
    requires ValidScans(ss) && k < |ss| && CacheWitnessed(cache, ss, k + 1)
    requires o == Cached(cache, ss[k].read, ss[k].now, ss[k].query, off)
    ensures CacheWitnessed(o.cache, ss, k + 1) && Explained(ss, k, off, o.addr)
    decreases ss[k].query.size - off
  {
    var q := ss[k].query;
    if q.pattern.bytes != [] && off + |q.pattern.bytes| <= q.size {
      var step := WindowStep(cache, ss[k].read, ss[k].now, q, off);
      StepIsRecent(cache, ss, k, off, step);
      StepIsWitnessed(cache, ss, k, off, step);
      if step.addr == 0 {
        ScanExplained(step.cache, ss, k, off + CHUNK, o);
      }
    }
  }

  lemma {:induction false} WitnessedLater(cache: Cache, ss: seq<Scan>, count: nat)
    requires count < |ss| && CacheWitnessed(cache, ss, count)
    ensures CacheWitnessed(cache, ss, count + 1)
  {
    forall pid: int, addr: nat, n: nat, p: Pattern {:trigger KeyOf(pid, addr, n, p)} |
      p.Valid() && KeyOf(pid, addr, n, p) in cache
      ensures var e := cache[KeyOf(pid, addr, n, p)]; Witnessed(ss, count + 1, e.ts, pid, addr, n, p, e.addr)
    {
      var e := cache[KeyOf(pid, addr, n, p)];
      assert Witnessed(ss, count, e.ts, pid, addr, n, p, e.addr);
    }
  }

  lemma {:induction false} RunWitnessed(ss: seq<Scan>, k: nat)
    requires ValidScans(ss) && k <= |ss|
    ensures CacheWitnessed(CacheBefore(ss, k), ss, k)
  {
    if k > 0 {
      RunWitnessed(ss, k - 1);
      WitnessedLater(CacheBefore(ss, k - 1), ss, k - 1);
      var o := Cached(CacheBefore(ss, k - 1), ss[k - 1].read, ss[k - 1].now, ss[k - 1].query, 0);
      ScanExplained(CacheBefore(ss, k - 1), ss, k - 1, 0, o);
    }
  }

  /** In every run over changing memory, each answer is explained by reads less than 30 seconds old. */
  lemma {:induction false} AnswersAreRecent(ss: seq<Scan>, k: nat)
    requires ValidScans(ss) && k < |ss|
    ensures Explained(ss, k, 0, AnswerOf(ss, k))
  {
    RunWitnessed(ss, k);
    WitnessedLater(CacheBefore(ss, k), ss, k);
    ScanExplained(CacheBefore(ss, k), ss, k, 0,
                  Cached(CacheBefore(ss, k), ss[k].read, ss[k].now, ss[k].query, 0));
  }

  /** Memory j held a match at the address less than the time-to-live before scan k. */
  ghost predicate RecentMatch(ss: seq<Scan>, mems: seq<Memory>, k: nat, j: nat, answer: nat)
    requires ValidScans(ss) && j <= k < |ss| == |mems|
  {
    && ss[k].now - ss[j].now < TTL_MS
    && answer >= ss[k].query.base
    && Found(mems[j], ss[k].query, answer - ss[k].query.base)
  }

  lemma {:induction false} AnsweredIsMatch(ss: seq<Scan>, mems: seq<Memory>, k: nat, j: nat, off: nat, answer: nat)
    requires ValidScans(ss) && j <= k < |ss| == |mems| && FullReads(ss[j].read, mems[j])
    requires off % CHUNK == 0 && answer != 0
    requires var q := ss[k].query;
             && q.pattern.bytes != [] && off + |q.pattern.bytes| <= q.size
             && RecentlyAnswered(ss, k, j, q.pid, q.base + off, WindowSize(q, off), q.pattern, answer)
    ensures RecentMatch(ss, mems, k, j, answer)
  {
    AnswerFound(ss[j].read, mems[j], ss[k].query, off, answer);
  }

  lemma {:induction false} RecentIsMatch(ss: seq<Scan>, mems: seq<Memory>, k: nat, off: nat, answer: nat)
    requires ValidScans(ss) && k < |ss| == |mems|
    requires forall i :: 0 <= i < |ss| ==> FullReads(ss[i].read, mems[i])
    requires off % CHUNK == 0 && answer != 0
    requires var q := ss[k].query;
             && q.pattern.bytes != [] && off + |q.pattern.bytes| <= q.size
             && Recent(ss, k, q.pid, q.base + off, WindowSize(q, off), q.pattern, answer)
    ensures exists j :: 0 <= j <= k && RecentMatch(ss, mems, k, j, answer)
  {
    var q := ss[k].query;
    var j :| 0 <= j <= k && RecentlyAnswered(ss, k, j, q.pid, q.base + off, WindowSize(q, off), q.pattern, answer);
    AnsweredIsMatch(ss, mems, k, j, off, answer);
  }

  /** The window in which a recent read gave the answer. */
  lemma {:induction false} ExplainingWindow(ss: seq<Scan>, k: nat, off: nat, answer: nat) returns (at: nat)
    requires ValidScans(ss) && k < |ss|
    requires off % CHUNK == 0 && answer != 0 && Explained(ss, k, off, answer)
    ensures var q := ss[k].query;
            && at % CHUNK == 0 && q.pattern.bytes != [] && at + |q.pattern.bytes| <= q.size
            && Recent(ss, k, q.pid, q.base + at, WindowSize(q, at), q.pattern, answer)
    decreases ss[k].query.size - off
  {
    var q := ss[k].query;
    if Recent(ss, k, q.pid, q.base + off, WindowSize(q, off), q.pattern, answer) {
      at := off;
    } else {
      at := ExplainingWindow(ss, k, off + CHUNK, answer);
    }
  }

  /** With full reads, every address a scan reports held a true match less than 30 seconds earlier. */
  lemma {:induction false} ReportedMatchIsRecent(ss: seq<Scan>, mems: seq<Memory>, k: nat)
    requires ValidScans(ss) && k < |ss| == |mems|
    requires forall i :: 0 <= i < |ss| ==> FullReads(ss[i].read, mems[i])
    ensures AnswerOf(ss, k) != 0 ==> exists j :: 0 <= j <= k && RecentMatch(ss, mems, k, j, AnswerOf(ss, k))
  {
    if AnswerOf(ss, k) != 0 {
      AnswersAreRecent(ss, k);
      var at := ExplainingWindow(ss, k, 0, AnswerOf(ss, k));
      RecentIsMatch(ss, mems, k, at, AnswerOf(ss, k));
    }
  }

  // ---- The cache is used ----

  /** When a window's answer was read: now, unless a live entry served it. */
  function AnsweredAt(cache: Cache, key: Key, now: int): int {
    if key in cache && now - cache[key].ts < 30000 then cache[key].ts else now
  }

  /**
   One window, asked twice.  Less than 30 seconds after its answer was read the
   answer is given again, positive or negative, whatever could be read then;
   from 30 seconds on the window is read again.
   */
  lemma {:induction false} WindowIsRemembered(cache: Cache, read: Reader, now: int, q: Query, off: nat, read': Reader, now': int)
    requires q.Valid() && off <= q.size
    ensures var first := WindowStep(cache, read, now, q, off);
            var n := WindowSize(q, off);
            var key := KeyOf(q.pid, q.base + off, n, q.pattern);
            var again := WindowStep(first.cache, read', now', q, off);
            if now' - AnsweredAt(cache, key, now) < 30000 then again == first
            else again.addr == WindowAnswer(read', q.pid, q.base + off, n, q.pattern)
  {
  }

  /** A scan from some offset on leaves the entries of earlier windows alone. */
  lemma {:induction false} EarlierKeysKept(cache: Cache, read: Reader, now: int, q: Query, off: nat, key: Key)
    requires q.Valid() && key.base < q.base + off
    ensures var after := Cached(cache, read, now, q, off).cache;
            (key in after <==> key in cache) && (key in cache ==> after[key] == cache[key])
    decreases q.size - off
  {
    if q.pattern.bytes != [] && off + |q.pattern.bytes| <= q.size {
      EarlierKeysKept(WindowStep(cache, read, now, q, off).cache, read, now, q, off + CHUNK, key);
    }
  }

  /** What is fresh enough for a scan at now is still fresh enough at now'. */
  ghost predicate StaysLive(cache: Cache, now: int, now': int) {
    forall key :: key in cache && now - cache[key].ts < 30000 ==> now' - cache[key].ts < 30000
  }

  lemma {:induction false} RemainderIsRemembered(cache: Cache, read: Reader, now: int, q: Query, off: nat, read': Reader, now': int, o: Outcome)
    requires q.Valid() && now' - now < 30000 && StaysLive(cache, now, now')
    requires o == Cached(cache, read, now, q, off)
    ensures Cached(o.cache, read', now', q, off) == o
    decreases q.size - off
  {
    if q.pattern.bytes != [] && off + |q.pattern.bytes| <= q.size {
      var step := WindowStep(cache, read, now, q, off);
      var key := KeyOf(q.pid, q.base + off, WindowSize(q, off), q.pattern);
      assert key in step.cache && step.cache[key].addr == step.addr && now' - step.cache[key].ts < 30000;
      if step.addr == 0 {
        EarlierKeysKept(step.cache, read, now, q, off + CHUNK, key);
        RemainderIsRemembered(step.cache, read, now, q, off + CHUNK, read', now', o);
      }
    }
  }

  /** With no live entry a scan answers from what it reads. */
  lemma {:induction false} ExpiredIsRead(cache: Cache, read: Reader, now: int, q: Query, off: nat)
    requires q.Valid()
    requires forall key :: key in cache && key.base >= q.base + off ==> now - cache[key].ts >= 30000
    ensures Cached(cache, read, now, q, off).addr == Uncached(read, q, off)
    decreases q.size - off
  {
    if q.pattern.bytes != [] && off + |q.pattern.bytes| <= q.size {
      ExpiredIsRead(WindowStep(cache, read, now, q, off).cache, read, now, q, off + CHUNK);
    }
  }

  ghost predicate AllStoredAt(cache: Cache, ts: int) {
    forall key :: key in cache ==> cache[key].ts == ts
  }

  lemma {:induction false} TimesAfterScan(cache: Cache, read: Reader, now: int, q: Query, off: nat)
    requires q.Valid() && AllStoredAt(cache, now)
    ensures AllStoredAt(Cached(cache, read, now, q, off).cache, now)
    decreases q.size - off
  {
    if q.pattern.bytes != [] && off + |q.pattern.bytes| <= q.size {
      var step := WindowStep(cache, read, now, q, off);
      assert AllStoredAt(step.cache, now);
      if step.addr == 0 {
        TimesAfterScan(step.cache, read, now, q, off + CHUNK);
        assert Cached(cache, read, now, q, off) == Cached(step.cache, read, now, q, off + CHUNK);
      }
    }
  }

  /**
   Two scans for the same thing, the first with an empty cache.  Less than 30
   seconds apart they answer the same and the second reads nothing, however the
   memory has changed; from 30 seconds on the second answers from what it reads.
   */
  lemma {:induction false} SecondScan(q: Query, read: Reader, now: int, read': Reader, now': int)
    requires q.Valid()
    ensures var first := Cached(map[], read, now, q, 0);
            var second := Cached(first.cache, read', now', q, 0);
            && first.addr == Uncached(read, q, 0)
            && (if now' - now < 30000 then second == first else second.addr == Uncached(read', q, 0))
  {
    var first := Cached(map[], read, now, q, 0);
    ExpiredIsRead(map[], read, now, q, 0);
    TimesAfterScan(map[], read, now, q, 0);
    if now' - now < 30000 {
      RemainderIsRemembered(map[], read, now, q, 0, read', now', first);
    } else {
      ExpiredIsRead(first.cache, read', now', q, 0);
    }
  }

  /** In the middle of a run too: a scan is repeated word for word while nothing that served it has expired. */
  lemma {:induction false} RepeatedScan(cache: Cache, q: Query, read: Reader, now: int, read': Reader, now': int)
    requires q.Valid() && now' - now < 30000 && StaysLive(cache, now, now')
    ensures var first := Cached(cache, read, now, q, 0);
            Cached(first.cache, read', now', q, 0) == first
  {
    RemainderIsRemembered(cache, read, now, q, 0, read', now', Cached(cache, read, now, q, 0));
  }
}
