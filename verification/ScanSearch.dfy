/**
 What a scan finds, without the cache: the lowest match that lies wholly inside
 one window.  A match across a window boundary is not found.
 */
module ScanSearch {
  import opened Options
  import opened Octets
  import opened PatternScan

  type Memory = (int, nat) -> Byte

  /** Every read returns all the bytes asked for. */
  ghost predicate FullReads(read: Reader, mem: Memory) {
    forall pid: int, addr: nat, n: nat ::
      |read(pid, addr, n)| == n && forall k :: 0 <= k < n ==> read(pid, addr, n)[k] == mem(pid, addr + k)
  }

  /** The pattern matches at offset off of the region. */
  predicate Matches(mem: Memory, q: Query, off: nat)
    requires q.Valid()
  {
    && off + |q.pattern.bytes| <= q.size
    && forall j :: 0 <= j < |q.pattern.bytes| && q.pattern.mask[j] == 'x' ==>
                     mem(q.pid, q.base + off + j) == q.pattern.bytes[j]
  }

  /** The bytes from offset off on that the pattern covers lie in one window. */
  predicate InOneWindow(q: Query, off: nat) {
    off % CHUNK + |q.pattern.bytes| <= CHUNK
  }

  predicate Found(mem: Memory, q: Query, off: nat)
    requires q.Valid()
  {
    Matches(mem, q, off) && InOneWindow(q, off)
  }

  lemma {:induction false} MatchInWindow(read: Reader, mem: Memory, q: Query, off: nat, k: nat)
    requires q.Valid() && FullReads(read, mem)
    requires off <= q.size && k + |q.pattern.bytes| <= WindowSize(q, off)
    ensures MatchAt(read(q.pid, q.base + off, WindowSize(q, off)), k, q.pattern) <==> Matches(mem, q, off + k)
  {
  }

  lemma {:induction false} OffsetInWindow(w: nat, k: nat)
    requires w % CHUNK == 0 && k < CHUNK
    ensures (w + k) % CHUNK == k
  {
  }

  ghost predicate NoneFound(mem: Memory, q: Query, lo: nat, hi: nat)
    requires q.Valid()
  {
    forall o :: lo <= o < hi ==> !Found(mem, q, o)
  }

  /** The answer is the address of the lowest match found from lo on and below hi, or 0 if there is none. */
  ghost predicate LowestFound(mem: Memory, q: Query, lo: nat, hi: nat, answer: nat)
    requires q.Valid()
  {
    if answer == 0 then NoneFound(mem, q, lo, hi)
    else q.base + lo <= answer < q.base + hi && Found(mem, q, answer - q.base) && NoneFound(mem, q, lo, answer - q.base)
  }

  /** One window: its answer is the lowest match found between its offset and the next window's. */
  lemma {:induction false} WindowFindsLowest(read: Reader, mem: Memory, q: Query, off: nat, answer: nat)
    requires q.Valid() && q.pattern.bytes != [] && FullReads(read, mem)
    requires off % CHUNK == 0 && off + |q.pattern.bytes| <= q.size
    requires answer == WindowAnswer(read, q.pid, q.base + off, WindowSize(q, off), q.pattern)
    ensures LowestFound(mem, q, off, off + CHUNK, answer)
  {
    var n := WindowSize(q, off);
    var buf := read(q.pid, q.base + off, n);
    var hit := FirstHit(buf, q.pattern, 0);
    forall o | off <= o < off + CHUNK && Found(mem, q, o)
      ensures hit.Some? && off + hit.value <= o
    {
      OffsetInWindow(off, o - off);
      MatchInWindow(read, mem, q, off, o - off);
    }
    if hit.Some? {
      OffsetInWindow(off, hit.value);
      MatchInWindow(read, mem, q, off, hit.value);
    }
  }

  lemma {:induction false} AnswerFound(read: Reader, mem: Memory, q: Query, off: nat, answer: nat)
    requires q.Valid() && q.pattern.bytes != [] && FullReads(read, mem)
    requires off % CHUNK == 0 && off + |q.pattern.bytes| <= q.size
    requires answer != 0 && answer == WindowAnswer(read, q.pid, q.base + off, WindowSize(q, off), q.pattern)
    ensures answer >= q.base && Found(mem, q, answer - q.base)
  {
    WindowFindsLowest(read, mem, q, off, answer);
  }

  lemma {:induction false} Continue(mem: Memory, q: Query, lo: nat, mid: nat, hi: nat, answer: nat)
    requires q.Valid() && lo <= mid <= hi
    requires NoneFound(mem, q, lo, mid) && LowestFound(mem, q, mid, hi, answer)
    ensures LowestFound(mem, q, lo, hi, answer)
  {
  }

  lemma {:induction false} NoneBeyond(mem: Memory, q: Query, off: nat, hi: nat)
    requires q.Valid() && off + |q.pattern.bytes| > q.size
    ensures LowestFound(mem, q, off, hi, 0)
  {
  }

  lemma {:induction false} UncachedFindsLowest(read: Reader, mem: Memory, q: Query, off: nat, hi: nat, answer: nat)
    requires q.Valid() && q.pattern.bytes != [] && FullReads(read, mem)
    requires off % CHUNK == 0 && q.size + CHUNK <= hi
    requires answer == Uncached(read, q, off)
    ensures LowestFound(mem, q, off, hi, answer)
    decreases q.size - off
  {
    if off + |q.pattern.bytes| > q.size {
      NoneBeyond(mem, q, off, hi);
    } else {
      var a := WindowAnswer(read, q.pid, q.base + off, WindowSize(q, off), q.pattern);
      WindowFindsLowest(read, mem, q, off, a);
      if a == 0 {
        UncachedFindsLowest(read, mem, q, off + CHUNK, hi, answer);
        Continue(mem, q, off, off + CHUNK, hi, answer);
      } else {
        Widen(mem, q, off, off + CHUNK, hi, a);
      }
    }
  }

  lemma {:induction false} Widen(mem: Memory, q: Query, lo: nat, mid: nat, hi: nat, answer: nat)
    requires q.Valid() && mid <= hi
    requires answer != 0 && LowestFound(mem, q, lo, mid, answer)
    ensures LowestFound(mem, q, lo, hi, answer)
  {
  }

  /**
   With full reads the scan reports the lowest address where the pattern matches
   wholly inside one window, and 0 when there is none.
   */
  lemma {:induction false} ScanFindsLowest(read: Reader, mem: Memory, q: Query)
    requires q.Valid() && q.pattern.bytes != [] && FullReads(read, mem)
    ensures var r := Uncached(read, q, 0);
            && (r == 0 <==> forall o: nat :: !Found(mem, q, o))
            && (r != 0 ==> q.base <= r && Found(mem, q, r - q.base) && NoneFound(mem, q, 0, r - q.base))
  {
    UncachedFindsLowest(read, mem, q, 0, q.size + CHUNK, Uncached(read, q, 0));
    assert forall o: nat :: Found(mem, q, o) ==> o < q.size + CHUNK;
  }

  /** The lowest match at or after off, wherever it lies. */
  function Naive(mem: Memory, q: Query, off: nat): (r: Option<nat>)
    requires q.Valid()
    ensures r.Some? ==> off <= r.value && Matches(mem, q, r.value)
    ensures forall o :: off <= o && (r.Some? ==> o < r.value) ==> !Matches(mem, q, o)
    decreases q.size - off
  {
    if off + |q.pattern.bytes| > q.size then None
    else if Matches(mem, q, off) then Some(off)
    else Naive(mem, q, off + 1)
  }

  /** The address that a plain search of the whole region reports. */
  function NaiveAddress(mem: Memory, q: Query): nat
    requires q.Valid()
  {
    var r := Naive(mem, q, 0);
    if r.Some? then q.base + r.value else 0
  }

  /**
   With full reads the scan reports what a plain search reports exactly when the
   lowest match, if there is one, lies inside one window.
   */
  lemma {:induction false} ScanIsNaiveIff(read: Reader, mem: Memory, q: Query)
    requires q.Valid() && q.pattern.bytes != [] && FullReads(read, mem)
    ensures Uncached(read, q, 0) == NaiveAddress(mem, q)
       <==> (Naive(mem, q, 0).Some? ==> InOneWindow(q, Naive(mem, q, 0).value))
  {
    ScanFindsLowest(read, mem, q);
    var r, lowest := Uncached(read, q, 0), Naive(mem, q, 0);
    assert r != 0 ==> Matches(mem, q, r - q.base);
    if lowest.Some? && InOneWindow(q, lowest.value) {
      assert Found(mem, q, lowest.value);
    }
  }

  /** A region of at most one window is searched exactly. */
  lemma {:induction false} SmallRegionExact(read: Reader, mem: Memory, q: Query)
    requires q.Valid() && q.pattern.bytes != [] && FullReads(read, mem)
    requires q.size <= CHUNK
    ensures Uncached(read, q, 0) == NaiveAddress(mem, q)
  {
    ScanIsNaiveIff(read, mem, q);
    var lowest := Naive(mem, q, 0);
    if lowest.Some? {
      OffsetInWindow(0, lowest.value);
    }
  }

  /** Two 1-bytes across the first boundary, and no others: the scan reports none although they match. */
  lemma {:induction false} StraddlingMatchIsMissed(read: Reader, mem: Memory)
    requires FullReads(read, mem)
    requires forall a: nat :: mem(0, a) == if a == CHUNK || a == CHUNK + 1 then 1 else 0
    ensures var q := Query(0, 1, 2 * CHUNK, Pattern([1, 1], "xx"));
            Matches(mem, q, CHUNK - 1) && Uncached(read, q, 0) == 0
  {
    var q := Query(0, 1, 2 * CHUNK, Pattern([1, 1], "xx"));
    assert q.pattern.mask[0] == 'x' && q.pattern.mask[1] == 'x';
    ScanFindsLowest(read, mem, q);
    forall o: nat | Matches(mem, q, o)
      ensures o == CHUNK - 1 && !InOneWindow(q, o)
    {
      assert mem(q.pid, q.base + o + 0) == 1 && mem(q.pid, q.base + o + 1) == 1;
    }
  }

  // ---- For which requests the scan is exact ----

  /** Reads that return all the bytes asked for. */
  function ReadOf(mem: Memory): Reader {
    (pid: int, addr: nat, n: nat) => seq(n, k requires 0 <= k < n => mem(pid, addr + k))
  }

  /** Whatever the memory holds, the scan reports what a plain search reports. */
  ghost predicate AlwaysExact(q: Query)
    requires q.Valid()
  {
    forall mem: Memory :: Uncached(ReadOf(mem), q, 0) == NaiveAddress(mem, q)
  }

  predicate AllWildcards(p: Pattern)
    requires p.Valid()
  {
    forall j :: 0 <= j < |p.bytes| ==> p.mask[j] != 'x'
  }

  /** One window, no room for a match, one byte, or a pattern that matches at once. */
  predicate ExactRequest(q: Query)
    requires q.Valid()
  {
    || q.size <= 4194304 || q.size < |q.pattern.bytes| || |q.pattern.bytes| == 1
    || (AllWildcards(q.pattern) && |q.pattern.bytes| <= 4194304)
  }

  /** The pattern at offset off of the region, and the byte background everywhere else. */
  function Planted(q: Query, off: nat, background: Byte): Memory
    requires q.Valid()
  {
    (pid: int, addr: nat) =>
      var j := addr - (q.base + off);
      if 0 <= j < |q.pattern.bytes| && q.pattern.mask[j] == 'x' then q.pattern.bytes[j] else background
  }

  lemma {:induction false} PlantedMatches(q: Query, off: nat, background: Byte)
    requires q.Valid() && off + |q.pattern.bytes| <= q.size
    ensures Matches(Planted(q, off, background), q, off)
  {
  }

  lemma {:induction false} NoneBeforePlanted(q: Query, off: nat, background: Byte, first: nat, o: nat)
    requires q.Valid() && off + |q.pattern.bytes| <= q.size && o < off
    requires first < |q.pattern.bytes| && q.pattern.mask[first] == 'x' && background != q.pattern.bytes[first]
    requires forall j :: 0 <= j < first ==> q.pattern.mask[j] != 'x'
    ensures !Matches(Planted(q, off, background), q, o)
  {
    assert Planted(q, off, background)(q.pid, q.base + o + first) == background;
  }

  /** No match comes before the planted one when the background differs from the pattern's first required byte. */
  lemma {:induction false} PlantedIsLowest(q: Query, off: nat, background: Byte, first: nat)
    requires q.Valid() && off + |q.pattern.bytes| <= q.size
    requires first < |q.pattern.bytes| && q.pattern.mask[first] == 'x' && background != q.pattern.bytes[first]
    requires forall j :: 0 <= j < first ==> q.pattern.mask[j] != 'x'
    ensures Naive(Planted(q, off, background), q, 0) == Some(off)
  {
    var mem := Planted(q, off, background);
    PlantedMatches(q, off, background);
    forall o | 0 <= o < off
      ensures !Matches(mem, q, o)
    {
      NoneBeforePlanted(q, off, background, first, o);
    }
  }

  lemma {:induction false} FirstRequired(p: Pattern, from: nat) returns (first: nat)
    requires p.Valid() && exists j :: from <= j < |p.bytes| && p.mask[j] == 'x'
    ensures from <= first < |p.bytes| && p.mask[first] == 'x'
    ensures forall j :: from <= j < first ==> p.mask[j] != 'x'
    decreases |p.bytes| - from
  {
    first := from;
    if p.mask[from] != 'x' {
      first := FirstRequired(p, from + 1);
    }
  }

  /** A lowest match outside every window is missed. */
  lemma {:induction false} MissedOutsideWindows(mem: Memory, q: Query)
    requires q.Valid() && q.pattern.bytes != []
    requires Naive(mem, q, 0).Some? && !InOneWindow(q, Naive(mem, q, 0).value)
    ensures !AlwaysExact(q)
  {
    ScanIsNaiveIff(ReadOf(mem), mem, q);
    assert Uncached(ReadOf(mem), q, 0) != NaiveAddress(mem, q);
  }

  lemma {:induction false} LongPatternMissed(q: Query, mem: Memory)
    requires q.Valid() && CHUNK < |q.pattern.bytes| <= q.size && mem == Planted(q, 0, 0)
    ensures !AlwaysExact(q)
  {
    PlantedMatches(q, 0, 0);
    assert Naive(mem, q, 0).Some?;
    MissedOutsideWindows(mem, q);
  }

  lemma {:induction false} PlantedMissed(q: Query, off: nat, background: Byte, first: nat, mem: Memory)
    requires q.Valid() && off + |q.pattern.bytes| <= q.size && !InOneWindow(q, off)
    requires first < |q.pattern.bytes| && q.pattern.mask[first] == 'x' && background != q.pattern.bytes[first]
    requires forall j :: 0 <= j < first ==> q.pattern.mask[j] != 'x'
    requires mem == Planted(q, off, background)
    ensures !AlwaysExact(q)
  {
    PlantedIsLowest(q, off, background, first);
    MissedOutsideWindows(mem, q);
  }

  /** The last offset of a window from which a pattern of n bytes reaches into the next one. */
  lemma {:induction false} StraddlingOffset(q: Query, n: nat)
    requires 2 <= n <= CHUNK && n == |q.pattern.bytes|
    ensures !InOneWindow(q, CHUNK - n + 1)
  {
    OffsetInWindow(0, CHUNK - n + 1);
  }

  lemma {:induction false} InexactRequest(q: Query)
    requires q.Valid() && q.pattern.bytes != [] && !ExactRequest(q)
    ensures !AlwaysExact(q)
  {
    var n := |q.pattern.bytes|;
    if n > CHUNK {
      LongPatternMissed(q, Planted(q, 0, 0));
    } else {
      var first := FirstRequired(q.pattern, 0);
      var background: Byte := if q.pattern.bytes[first] == 0 then 1 else 0;
      StraddlingOffset(q, n);
      PlantedMissed(q, CHUNK - n + 1, background, first, Planted(q, CHUNK - n + 1, background));
    }
  }

  lemma {:induction false} ExactRequestIsExact(q: Query, mem: Memory)
    requires q.Valid() && q.pattern.bytes != [] && ExactRequest(q)
    ensures Uncached(ReadOf(mem), q, 0) == NaiveAddress(mem, q)
  {
    var lowest := Naive(mem, q, 0);
    ScanIsNaiveIff(ReadOf(mem), mem, q);
    if q.size <= CHUNK {
      SmallRegionExact(ReadOf(mem), mem, q);
    } else if |q.pattern.bytes| != 1 && q.size >= |q.pattern.bytes| {
      assert Matches(mem, q, 0);
    }
  }

  /**
   Whatever the memory holds, the scan reports what a plain search reports if
   and only if the region is one window, too small for the pattern, or the
   pattern is one byte or all wildcards and no longer than a window.
   */
  lemma {:induction false} AlwaysExactIff(q: Query)
    requires q.Valid() && q.pattern.bytes != []
    ensures AlwaysExact(q) <==> ExactRequest(q)
  {
    if ExactRequest(q) {
      forall mem: Memory
        ensures Uncached(ReadOf(mem), q, 0) == NaiveAddress(mem, q)
      {
        ExactRequestIsExact(q, mem);
      }
    } else {
      InexactRequest(q);
    }
  }
}
