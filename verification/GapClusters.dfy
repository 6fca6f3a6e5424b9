/**
 Clustering a class's pool slots: maximal runs in which neighbours lie at most
 a given gap apart.
 */
module GapClusters {

  /** A pool slot: its address and the text of its body. */
  datatype Slot = Slot(offset: int, body: string)

  function Flat(clusters: seq<seq<Slot>>): seq<Slot> {
    if clusters == [] then [] else clusters[0] + Flat(clusters[1..])
  }

  /** Neighbours of the cluster are close. */
  ghost predicate Tight(c: seq<Slot>, maxgap: int) {
    c != [] && forall k :: 0 <= k < |c| - 1 ==> c[k + 1].offset - c[k].offset <= maxgap
  }

  /** The second cluster begins further than the gap after the end of the first. */
  ghost predicate Apart(c: seq<Slot>, d: seq<Slot>, maxgap: int)
    requires c != [] && d != []
  {
    d[0].offset - c[|c| - 1].offset > maxgap
  }

  /** A division of the slots into tight clusters, consecutive ones apart. */
  ghost predicate Clustering(clusters: seq<seq<Slot>>, slots: seq<Slot>, maxgap: int) {
    && Flat(clusters) == slots
    && (forall k :: 0 <= k < |clusters| ==> Tight(clusters[k], maxgap))
    && (forall k :: 0 <= k < |clusters| - 1 ==> Apart(clusters[k], clusters[k + 1], maxgap))
  }

  lemma {:induction false} FlatAppend(clusters: seq<seq<Slot>>, c: seq<Slot>)
    ensures Flat(clusters + [c]) == Flat(clusters) + c
  {
    if clusters == [] {
      assert [c][1..] == [] && [] + [c] == [c];
    } else {
      assert (clusters + [c])[1..] == clusters[1..] + [c];
      FlatAppend(clusters[1..], c);
    }
  }

  /** A close slot joins the last cluster. */
  lemma {:induction false} JoinLast(init: seq<seq<Slot>>, last: seq<Slot>, slots: seq<Slot>, s: Slot, maxgap: int)
    requires Clustering(init + [last], slots, maxgap)
    requires last != [] && s.offset - last[|last| - 1].offset <= maxgap
    ensures Clustering(init + [last + [s]], slots + [s], maxgap)
  {
    var before, after := init + [last], init + [last + [s]];
    FlatAppend(init, last);
    FlatAppend(init, last + [s]);
    forall k | 0 <= k < |after|
      ensures Tight(after[k], maxgap)
    {
      assert Tight(before[k], maxgap);
    }
    forall k | 0 <= k < |after| - 1
      ensures Apart(after[k], after[k + 1], maxgap)
    {
      assert Apart(before[k], before[k + 1], maxgap);
    }
  }

  /** A distant slot begins a cluster of its own. */
  lemma {:induction false} StartNew(clusters: seq<seq<Slot>>, slots: seq<Slot>, s: Slot, maxgap: int)
    requires Clustering(clusters, slots, maxgap)
    requires clusters != [] ==> clusters[|clusters| - 1] != []
    requires clusters != [] ==> Apart(clusters[|clusters| - 1], [s], maxgap)
    ensures Clustering(clusters + [[s]], slots + [s], maxgap)
  {
    FlatAppend(clusters, [s]);
  }

  method Clusters(slots: seq<Slot>, maxgap: int) returns (out: seq<seq<Slot>>)
    ensures Clustering(out, slots, maxgap)
  {
    out := [];
    for i := 0 to |slots|
      invariant Clustering(out, slots[..i], maxgap)
    {
      var s, n := slots[i], |out|;
      assert slots[..i + 1] == slots[..i] + [s];
      assert n > 0 ==> Tight(out[n - 1], maxgap);
      if n > 0 && s.offset - out[n - 1][|out[n - 1]| - 1].offset <= maxgap {
        var last := out[n - 1];
        assert out == out[..n - 1] + [last];
        JoinLast(out[..n - 1], last, slots[..i], s, maxgap);
        out := out[..n - 1] + [last + [s]];
      } else {
        StartNew(out, slots[..i], s, maxgap);
        out := out + [[s]];
      }
    }
    assert slots[..|slots|] == slots;
  }

  // ---- There is only one such division ----

  /** A longer beginning than the first cluster is not tight: it runs across the gap after that cluster. */
  lemma {:induction false} LongerIsNotTight(c: seq<Slot>, rest: seq<seq<Slot>>, d: seq<Slot>, slots: seq<Slot>, maxgap: int)
    requires c != [] && |d| > |c| && d <= slots && slots == c + Flat(rest)
    requires rest != [] ==> rest[0] != [] && Apart(c, rest[0], maxgap)
    ensures !Tight(d, maxgap)
  {
    var k := |c| - 1;
    assert rest != [];
    assert slots[|c|] == Flat(rest)[0] == rest[0][0];
    assert d[k] == slots[k] == c[k] && d[k + 1] == slots[k + 1];
  }

  lemma {:induction false} ClusteringTail(clusters: seq<seq<Slot>>, slots: seq<Slot>, maxgap: int)
    requires clusters != [] && Clustering(clusters, slots, maxgap)
    ensures clusters[0] != [] && slots == clusters[0] + Flat(clusters[1..])
    ensures Clustering(clusters[1..], slots[|clusters[0]|..], maxgap)
  {
  }

  /** Any two clusterings of the same slots are the same: the runs are maximal. */
  lemma {:induction false} ClusteringIsUnique(a: seq<seq<Slot>>, b: seq<seq<Slot>>, slots: seq<Slot>, maxgap: int)
    requires Clustering(a, slots, maxgap) && Clustering(b, slots, maxgap)
    ensures a == b
    decreases |a|
  {
    if a == [] || b == [] {
      if a != [] {
        ClusteringTail(a, slots, maxgap);
      }
      if b != [] {
        ClusteringTail(b, slots, maxgap);
      }
    } else {
      ClusteringTail(a, slots, maxgap);
      ClusteringTail(b, slots, maxgap);
      assert |a| > 1 ==> Apart(a[0], a[1], maxgap);
      assert |b| > 1 ==> Apart(b[0], b[1], maxgap);
      assert Tight(a[0], maxgap) && Tight(b[0], maxgap);
      assert (|a| > 1 ==> Tight(a[1], maxgap)) && (|b| > 1 ==> Tight(b[1], maxgap));
      if |b[0]| > |a[0]| {
        LongerIsNotTight(a[0], a[1..], b[0], slots, maxgap);
      }
      if |a[0]| > |b[0]| {
        LongerIsNotTight(b[0], b[1..], a[0], slots, maxgap);
      }
      assert a[0] == slots[..|a[0]|] && b[0] == slots[..|b[0]|];
      ClusteringIsUnique(a[1..], b[1..], slots[|a[0]|..], maxgap);
      assert a == [a[0]] + a[1..] && b == [b[0]] + b[1..];
    }
  }

  // ---- Sorted slots ----

  ghost predicate Sorted(slots: seq<Slot>) {
    forall i, j :: 0 <= i < j < |slots| ==> slots[i].offset <= slots[j].offset
  }

  lemma {:induction false} InFlat(clusters: seq<seq<Slot>>, k: nat, s: Slot)
    requires k < |clusters| && s in clusters[k]
    ensures s in Flat(clusters)
  {
    if k > 0 {
      InFlat(clusters[1..], k - 1, s);
    }
  }

  /** In address order, slots of different clusters are further apart than the gap, whichever clusters they are in. */
  lemma {:induction false} ClustersFarApart(clusters: seq<seq<Slot>>, slots: seq<Slot>, maxgap: int,
                                            i: nat, j: nat, s: Slot, t: Slot)
    requires Clustering(clusters, slots, maxgap) && Sorted(slots)
    requires i < j < |clusters| && s in clusters[i] && t in clusters[j]
    ensures t.offset - s.offset > maxgap
    decreases i
  {
    ClusteringTail(clusters, slots, maxgap);
    var first, rest := clusters[0], slots[|clusters[0]|..];
    if i > 0 {
      ClustersFarApart(clusters[1..], rest, maxgap, i - 1, j - 1, s, t);
    } else {
      assert Apart(first, clusters[1], maxgap) && Tight(clusters[1], maxgap);
      InFlat(clusters[1..], j - 1, t);
      var x :| 0 <= x < |rest| && rest[x] == t;
      var y :| 0 <= y < |first| && first[y] == s;
      assert slots[y] == s && slots[|first| + x] == t && slots[|first| - 1] == first[|first| - 1];
      assert Flat(clusters[1..])[0] == clusters[1][0];
      assert slots[|first|] == clusters[1][0];
    }
  }

  // ---- The slots of a class, in address order ----

  /** The slots whose body mentions the class, in the order of the pool. */
  function Mentioning(pool: seq<Slot>, mentions: Slot -> bool): seq<Slot> {
    if pool == [] then []
    else Mentioning(pool[..|pool| - 1], mentions) + if mentions(pool[|pool| - 1]) then [pool[|pool| - 1]] else []
  }

  /** The slots that mention the class are picked one by one, in the order of the pool. */
  lemma {:induction false} MentioningIs(a: seq<Slot>, b: seq<Slot>, s: Slot, mentions: Slot -> bool)
    ensures Mentioning([s], mentions) == if mentions(s) then [s] else []
    ensures Mentioning(a + b, mentions) == Mentioning(a, mentions) + Mentioning(b, mentions)
    decreases |b|
  {
    assert [s][..0] == [];
    if b == [] {
      assert a + b == a;
    } else {
      var init, last := b[..|b| - 1], b[|b| - 1];
      MentioningIs(a, init, s, mentions);
      assert (a + b)[..|a + b| - 1] == a + init;
    }
  }

  lemma {:induction false} MentioningCounts(pool: seq<Slot>, mentions: Slot -> bool, s: Slot)
    ensures multiset(Mentioning(pool, mentions))[s] == if mentions(s) then multiset(pool)[s] else 0
  {
    if pool != [] {
      MentioningCounts(pool[..|pool| - 1], mentions, s);
      assert pool == pool[..|pool| - 1] + [pool[|pool| - 1]];
    }
  }

  function Inserted(s: Slot, slots: seq<Slot>): seq<Slot> {
    if slots == [] || s.offset <= slots[0].offset then [s] + slots
    else [slots[0]] + Inserted(s, slots[1..])
  }

  /** The stable sort by address. */
  function InAddressOrder(slots: seq<Slot>): seq<Slot> {
    if slots == [] then [] else Inserted(slots[0], InAddressOrder(slots[1..]))
  }

  lemma {:induction false} InsertedContents(s: Slot, slots: seq<Slot>)
    ensures multiset(Inserted(s, slots)) == multiset(slots) + multiset{s}
  {
    if slots != [] && s.offset > slots[0].offset {
      InsertedContents(s, slots[1..]);
      assert slots == [slots[0]] + slots[1..];
    }
  }

  lemma {:induction false} InsertedSorted(s: Slot, slots: seq<Slot>)
    requires Sorted(slots)
    ensures Sorted(Inserted(s, slots))
  {
    if slots != [] && s.offset > slots[0].offset {
      var first, rest := slots[0], slots[1..];
      var ins := Inserted(s, rest);
      InsertedSorted(s, rest);
      InsertedContents(s, rest);
      forall k | 0 <= k < |ins|
        ensures first.offset <= ins[k].offset
      {
        assert ins[k] in multiset(rest) + multiset{s};
      }
    }
  }

  lemma {:induction false} InAddressOrderSorted(slots: seq<Slot>)
    ensures Sorted(InAddressOrder(slots)) && multiset(InAddressOrder(slots)) == multiset(slots)
  {
    if slots != [] {
      InAddressOrderSorted(slots[1..]);
      InsertedSorted(slots[0], InAddressOrder(slots[1..]));
      InsertedContents(slots[0], InAddressOrder(slots[1..]));
      assert slots == [slots[0]] + slots[1..];
    }
  }

  /** The slots at one address, in order. */
  function AtAddress(slots: seq<Slot>, offset: int): seq<Slot> {
    if slots == [] then []
    else (if slots[0].offset == offset then [slots[0]] else []) + AtAddress(slots[1..], offset)
  }

  lemma {:induction false} InsertedStable(s: Slot, slots: seq<Slot>, offset: int)
    ensures AtAddress(Inserted(s, slots), offset) == AtAddress([s] + slots, offset)
  {
    assert ([s] + slots)[1..] == slots;
    if slots != [] && s.offset > slots[0].offset {
      InsertedStable(s, slots[1..], offset);
      assert ([s] + slots[1..])[1..] == slots[1..];
      assert Inserted(s, slots)[1..] == Inserted(s, slots[1..]);
    }
  }

  /** Slots with equal addresses keep their order. */
  lemma {:induction false} InAddressOrderStable(slots: seq<Slot>, offset: int)
    ensures AtAddress(InAddressOrder(slots), offset) == AtAddress(slots, offset)
  {
    if slots != [] {
      InAddressOrderStable(slots[1..], offset);
      InsertedStable(slots[0], InAddressOrder(slots[1..]), offset);
      assert ([slots[0]] + InAddressOrder(slots[1..]))[1..] == InAddressOrder(slots[1..]);
    }
  }

  method FamSlots(pool: seq<Slot>, mentions: Slot -> bool) returns (out: seq<Slot>)
    ensures Sorted(out) && multiset(out) == multiset(Mentioning(pool, mentions))
    ensures forall offset :: AtAddress(out, offset) == AtAddress(Mentioning(pool, mentions), offset)
    ensures forall s :: multiset(out)[s] == if mentions(s) then multiset(pool)[s] else 0
  {
    out := [];
    for i := 0 to |pool|
      invariant out == Mentioning(pool[..i], mentions)
    {
      assert pool[..i + 1][..i] == pool[..i];
      if mentions(pool[i]) {
        out := out + [pool[i]];
      }
    }
    assert pool[..|pool|] == pool;
    InAddressOrderSorted(out);
    forall s
      ensures multiset(out)[s] == if mentions(s) then multiset(pool)[s] else 0
    {
      MentioningCounts(pool, mentions, s);
    }
    forall offset
      ensures AtAddress(InAddressOrder(out), offset) == AtAddress(out, offset)
    {
      InAddressOrderStable(out, offset);
    }
    out := InAddressOrder(out);
  }

  /**
   The clusters of a class's slots: together they are exactly the slots that
   mention it, in address order, and slots of different clusters are further
   apart than the gap.
   */
  method FamClusters(pool: seq<Slot>, mentions: Slot -> bool, maxgap: int) returns (out: seq<seq<Slot>>)
    ensures Sorted(Flat(out)) && multiset(Flat(out)) == multiset(Mentioning(pool, mentions))
    ensures Clustering(out, Flat(out), maxgap)
    ensures forall i, j, s, t :: 0 <= i < j < |out| && s in out[i] && t in out[j] ==> t.offset - s.offset > maxgap
  {
    var slots := FamSlots(pool, mentions);
    out := Clusters(slots, maxgap);
    forall i, j, s, t | 0 <= i < j < |out| && s in out[i] && t in out[j]
      ensures t.offset - s.offset > maxgap
    {
      ClustersFarApart(out, slots, maxgap, i, j, s, t);
    }
  }
}
