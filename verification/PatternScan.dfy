/**
 The windowed pattern scanner.  A region is read in 4 MB windows that do not
 overlap; each window's answer is cached for 30 seconds under the window and a
 textual key of the pattern and mask.
 */
module PatternScan {
  import opened Options
  import opened Octets

  const CHUNK := 4 * 1024 * 1024
  const TTL_MS := 30000

  /** A masked pattern: 'x' in the mask must match, anything else is a wildcard.  Every byte needs a mask character. */
  datatype Pattern = Pattern(bytes: seq<Byte>, mask: string) {
    ghost predicate Valid() {
      |bytes| <= |mask|
    }
  }

  /** A request to scan size bytes of a process from base on; address 0 stands for "none". */
  datatype Query = Query(pid: int, base: nat, size: nat, pattern: Pattern) {
    ghost predicate Valid() {
      base > 0 && pattern.Valid()
    }
  }

  /** What reading n bytes of a process at an address yields; fewer than n bytes is a partial read. */
  type Reader = (int, nat, nat) -> seq<Byte>

  // ---- Searching one window ----

  predicate MatchAt(buf: seq<Byte>, i: nat, p: Pattern)
    requires p.Valid() && i + |p.bytes| <= |buf|
  {
    forall j :: 0 <= j < |p.bytes| && p.mask[j] == 'x' ==> buf[i + j] == p.bytes[j]
  }

  /** A required byte of the pattern is not the one there. */
  ghost predicate DiffersAt(buf: seq<Byte>, i: nat, p: Pattern)
    requires p.Valid() && i + |p.bytes| <= |buf|
  {
    exists j :: 0 <= j < |p.bytes| && p.mask[j] == 'x' && buf[i + j] != p.bytes[j]
  }

  /** The least match at or after i. */
  function FirstHit(buf: seq<Byte>, p: Pattern, i: nat): (r: Option<nat>)
    requires p.Valid()
    ensures r.Some? ==> i <= r.value && r.value + |p.bytes| <= |buf| && MatchAt(buf, r.value, p)
    ensures forall k :: i <= k && k + |p.bytes| <= |buf| && (r.Some? ==> k < r.value) ==> !MatchAt(buf, k, p)
    decreases |buf| - i
  {
    if i + |p.bytes| > |buf| then None
    else if MatchAt(buf, i, p) then Some(i)
    else FirstHit(buf, p, i + 1)
  }

  /** The address of the first match in the window of n bytes at addr, or 0. */
  function WindowAnswer(read: Reader, pid: int, addr: nat, n: nat, p: Pattern): nat
    requires p.Valid()
  {
    var hit := FirstHit(read(pid, addr, n), p, 0);
    if hit.Some? then addr + hit.value else 0
  }

  /** The size of the window at offset off. */
  function WindowSize(q: Query, off: nat): nat
    requires off <= q.size
  {
    if off + CHUNK <= q.size then CHUNK else q.size - off
  }

  /** The scan without a cache, from offset off on. */
  function Uncached(read: Reader, q: Query, off: nat): nat
    requires q.Valid()
    decreases q.size - off
  {
    if q.pattern.bytes == [] || off + |q.pattern.bytes| > q.size then 0
    else
      var answer := WindowAnswer(read, q.pid, q.base + off, WindowSize(q, off), q.pattern);
      if answer != 0 then answer else Uncached(read, q, off + CHUNK)
  }

  // ---- The cache ----

  datatype Key = Key(pid: int, base: nat, size: nat, hash: string)

  datatype Entry = Entry(addr: nat, ts: int)

  type Cache = map<Key, Entry>

  function HexDigit(n: nat): (c: char)
    requires n < 16
    ensures c != '|'
  {
    if n < 10 then '0' + n as char else 'a' + (n - 10) as char
  }

  function HexBytes(bytes: seq<Byte>): string {
    if bytes == [] then "" else [HexDigit(bytes[0] / 16), HexDigit(bytes[0] % 16)] + HexBytes(bytes[1..])
  }

  /** The key text of a byte string and a mask. */
  function KeyText(bytes: seq<Byte>, mask: string): string {
    HexBytes(bytes) + ("|" + mask)
  }

  function HashPattern(p: Pattern): string {
    KeyText(p.bytes, p.mask)
  }

  function KeyOf(pid: int, addr: nat, n: nat, p: Pattern): Key {
    Key(pid, addr, n, HashPattern(p))
  }

  predicate Live(cache: Cache, key: Key, now: int) {
    key in cache && now - cache[key].ts < TTL_MS
  }

  datatype Outcome = Outcome(addr: nat, cache: Cache)

  /** The answer for one window, from the cache while the entry lives, and the cache afterwards. */
  function WindowStep(cache: Cache, read: Reader, now: int, q: Query, off: nat): Outcome
    requires q.Valid() && off <= q.size
  {
    var n := WindowSize(q, off);
    var key := KeyOf(q.pid, q.base + off, n, q.pattern);
    if Live(cache, key, now) then Outcome(cache[key].addr, cache)
    else
      var answer := WindowAnswer(read, q.pid, q.base + off, n, q.pattern);
      Outcome(answer, cache[key := Entry(answer, now)])
  }

  /** The scan with the cache, from offset off on. */
  function Cached(cache: Cache, read: Reader, now: int, q: Query, off: nat): Outcome
    requires q.Valid()
    decreases q.size - off
  {
    if q.pattern.bytes == [] || off + |q.pattern.bytes| > q.size then Outcome(0, cache)
    else
      var step := WindowStep(cache, read, now, q, off);
      if step.addr != 0 then step else Cached(step.cache, read, now, q, off + CHUNK)
  }

  class AobScanner {
    var cache: Cache

    constructor ()
      ensures cache == map[]
    {
      cache := map[];
    }

    /** The index of the first match in buf, or none. */
    method FindInWindow(buf: seq<Byte>, p: Pattern) returns (hit: Option<nat>)
      requires p.Valid()
      ensures hit == FirstHit(buf, p, 0)
      ensures hit.Some? ==>
                hit.value + |p.bytes| <= |buf|
                && forall j :: 0 <= j < |p.bytes| && p.mask[j] == 'x' ==> buf[hit.value + j] == p.bytes[j]
      ensures forall i: nat :: i + |p.bytes| <= |buf| && (hit.Some? ==> i < hit.value) ==> DiffersAt(buf, i, p)
    {
      var i := 0;
      while i + |p.bytes| <= |buf|
        invariant FirstHit(buf, p, 0) == FirstHit(buf, p, i)
        invariant forall k: nat :: k < i && k + |p.bytes| <= |buf| ==> DiffersAt(buf, k, p)
      {
        var isMatch := true;
        var j := 0;
        while j < |p.bytes|
          invariant 0 <= j <= |p.bytes| && isMatch
          invariant forall k :: 0 <= k < j && p.mask[k] == 'x' ==> buf[i + k] == p.bytes[k]
        {
          if p.mask[j] == 'x' && buf[i + j] != p.bytes[j] {
            isMatch := false;
            assert DiffersAt(buf, i, p);
            break;
          }
          j := j + 1;
        }
        if isMatch {
          return Some(i);
        }
        i := i + 1;
      }
      return None;
    }

    method Scan(q: Query, read: Reader, now: int) returns (addr: nat)
      requires q.Valid()
      modifies this
      ensures Outcome(addr, cache) == Cached(old(cache), read, now, q, 0)
    {
      if |q.pattern.bytes| == 0 || q.size < |q.pattern.bytes| {
        return 0;
      }
      var off := 0;
      while off + |q.pattern.bytes| <= q.size
        invariant Cached(cache, read, now, q, off) == Cached(old(cache), read, now, q, 0)
        decreases q.size - off
      {
        var chunkBase := q.base + off;
        var chunkSize := if off + CHUNK <= q.size then CHUNK else q.size - off;
        var key := KeyOf(q.pid, chunkBase, chunkSize, q.pattern);
        if key in cache && now - cache[key].ts < TTL_MS {
          if cache[key].addr != 0 {
            return cache[key].addr;
          }
        } else {
          var buf := read(q.pid, chunkBase, chunkSize);
          var hit := FindInWindow(buf, q.pattern);
          if hit.Some? {
            cache := cache[key := Entry(chunkBase + hit.value, now)];
            return chunkBase + hit.value;
          }
          cache := cache[key := Entry(0, now)];
        }
        off := off + CHUNK;
      }
      return 0;
    }
  }
}
