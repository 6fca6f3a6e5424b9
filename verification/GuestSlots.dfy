/**
 The host's table of guest processes: which guest owns which of the process
 slots :p0 to :p3, the binder that answers for each slot, and the death
 recipient linked to it.

 GuestProcessTable is the table as the source keeps it, three maps updated in
 place.  The module GuestLaunch drives it through whole runs of launches and
 deaths.
 */
module GuestSlots {
  import opened Options

  const MAX_SLOTS := 4

  datatype ClientConfig = ClientConfig(guestPkg: string, slot: int, userId: int)

  /** The identity of a child process's binder. */
  type Binder = nat

  /** A death recipient: one object per handshake (hence the id) that captures the configuration it was made for. */
  datatype Recipient = Recipient(id: nat, guestPkg: string, slot: int)

  /** How the try block around unlinkToDeath and linkToDeath ends. */
  datatype LinkOutcome = Linked | UnlinkThrew | LinkThrew

  /** The contents of the three maps. */
  datatype Table = Table(
    slotOf: map<string, int>,
    clientOf: map<int, Binder>,
    deathOf: map<int, Recipient>)

  // ---- What a state of the table must satisfy ----

  ghost predicate SlotsInRange(t: Table) {
    forall g :: g in t.slotOf ==> 0 <= t.slotOf[g] < MAX_SLOTS
  }

  ghost predicate Injective(t: Table) {
    forall g, h :: g in t.slotOf && h in t.slotOf && t.slotOf[g] == t.slotOf[h] ==> g == h
  }

  /** Every slot with a client has a death recipient, and the other way round. */
  ghost predicate KeysAgree(t: Table) {
    t.clientOf.Keys == t.deathOf.Keys
  }

  /** Each mapped guest's slot carries the recipient made for that guest and that slot. */
  ghost predicate OwnRecipients(t: Table) {
    forall g :: g in t.slotOf ==>
                  && t.slotOf[g] in t.deathOf
                  && t.deathOf[t.slotOf[g]].guestPkg == g
                  && t.deathOf[t.slotOf[g]].slot == t.slotOf[g]
  }

  // ---- The operations on values ----

  predicate TakenByOther(t: Table, guestPkg: string, slot: int) {
    exists k :: k in t.slotOf && t.slotOf[k] == slot && k != guestPkg
  }

  predicate Free(t: Table, guestPkg: string, running: set<int>, slot: int) {
    !TakenByOther(t, guestPkg, slot) && slot !in running
  }

  predicate Alive(t: Table, pinging: set<Binder>, slot: int) {
    slot in t.clientOf && t.clientOf[slot] in pinging
  }

  /** The least free slot at or above from, or -1. */
  function FirstFree(t: Table, guestPkg: string, running: set<int>, from: nat): (slot: int)
    requires from <= MAX_SLOTS
    ensures slot == -1 || (from <= slot < MAX_SLOTS && Free(t, guestPkg, running, slot))
    ensures forall s :: from <= s < (if slot == -1 then MAX_SLOTS else slot) ==> !Free(t, guestPkg, running, s)
    decreases MAX_SLOTS - from
  {
    if from == MAX_SLOTS then -1
    else if Free(t, guestPkg, running, from) then from
    else FirstFree(t, guestPkg, running, from + 1)
  }

  /** A guest whose slot still answers keeps it; any other gets the least free slot, or -1. */
  function Allocated(t: Table, guestPkg: string, pinging: set<Binder>, running: set<int>): int {
    if guestPkg in t.slotOf && Alive(t, pinging, t.slotOf[guestPkg]) then t.slotOf[guestPkg]
    else FirstFree(t, guestPkg, running, 0)
  }

  function Configured(t: Table, cfg: ClientConfig, reply: Option<Binder>, outcome: LinkOutcome, id: nat): Table {
    match reply
    case None => t
    case Some(client) =>
      Table(
        t.slotOf[cfg.guestPkg := cfg.slot],
        if outcome.Linked? then t.clientOf[cfg.slot := client] else t.clientOf,
        if outcome.Linked? then t.deathOf[cfg.slot := Recipient(id, cfg.guestPkg, cfg.slot)] else t.deathOf)
  }

  function Released(t: Table, r: Recipient): Table {
    Table(
      if r.guestPkg in t.slotOf && t.slotOf[r.guestPkg] == r.slot then t.slotOf - {r.guestPkg} else t.slotOf,
      t.clientOf - {r.slot},
      t.deathOf - {r.slot})
  }

  // ---- The table itself ----

  class GuestProcessTable {
    var slotOf: map<string, int>
    var clientOf: map<int, Binder>
    var deathOf: map<int, Recipient>

    ghost function Contents(): Table
      reads this
    {
      Table(slotOf, clientOf, deathOf)
    }

    constructor ()
      ensures Contents() == Table(map[], map[], map[])
    {
      slotOf, clientOf, deathOf := map[], map[], map[];
    }

    method IsSlotAlive(slot: int, pinging: set<Binder>) returns (alive: bool)
      ensures alive == Alive(Contents(), pinging, slot)
      ensures alive <==> slot in clientOf && clientOf[slot] in pinging
    {
      alive := slot in clientOf && clientOf[slot] in pinging;
    }

    /** The slot that the guest has, if the process there answers. */
    ghost predicate Keeps(guestPkg: string, pinging: set<Binder>)
      reads this
    {
      guestPkg in slotOf && slotOf[guestPkg] in clientOf && clientOf[slotOf[guestPkg]] in pinging
    }

    /** The process name of the slot is running, or another guest is mapped to it. */
    ghost predicate Occupied(guestPkg: string, running: set<int>, slot: int)
      reads this
    {
      slot in running || exists k :: k in slotOf && k != guestPkg && slotOf[k] == slot
    }

    /**
     pinging holds the binders that answer a ping, running the slots whose process
     name is listed as running.  A guest whose slot answers keeps it, even when a
     lower slot is free; any other gets the least slot of 0..3 that is not occupied.
     */
    method Allocate(guestPkg: string, pinging: set<Binder>, running: set<int>) returns (slot: int)
      ensures slot == Allocated(Contents(), guestPkg, pinging, running)
      ensures Keeps(guestPkg, pinging) ==> slot == slotOf[guestPkg]
      ensures !Keeps(guestPkg, pinging) ==> slot == -1 || (0 <= slot <= 3 && !Occupied(guestPkg, running, slot))
      ensures !Keeps(guestPkg, pinging) ==>
                forall s :: 0 <= s <= 3 && (slot == -1 || s < slot) ==> Occupied(guestPkg, running, s)
    {
      if guestPkg in slotOf {
        var alive := IsSlotAlive(slotOf[guestPkg], pinging);
        if alive {
          return slotOf[guestPkg];
        }
      }
      for s := 0 to MAX_SLOTS
        invariant FirstFree(Contents(), guestPkg, running, 0) == FirstFree(Contents(), guestPkg, running, s)
        invariant forall r :: 0 <= r < s ==> Occupied(guestPkg, running, r)
      {
        var taken := exists k :: k in slotOf && slotOf[k] == s && k != guestPkg;
        if !taken && s !in running {
          return s;
        }
      }
      return -1;
    }

    /** reply is the binder the child returned; id is the identity of the recipient object made here. */
    method SpawnAndConfig(cfg: ClientConfig, reply: Option<Binder>, outcome: LinkOutcome, id: nat) returns (ok: bool)
      modifies this
      ensures Contents() == Configured(old(Contents()), cfg, reply, outcome, id)
      ensures ok == reply.Some?
      ensures reply.None? ==> slotOf == old(slotOf)
      ensures reply.Some? ==> slotOf == old(slotOf)[cfg.guestPkg := cfg.slot]
      ensures reply.Some? && outcome.Linked? ==>
                clientOf == old(clientOf)[cfg.slot := reply.value]
                && deathOf == old(deathOf)[cfg.slot := Recipient(id, cfg.guestPkg, cfg.slot)]
      ensures reply.None? || !outcome.Linked? ==> clientOf == old(clientOf) && deathOf == old(deathOf)
    {
      if reply.None? {
        return false;
      }
      if outcome.Linked? {
        clientOf := clientOf[cfg.slot := reply.value];
        deathOf := deathOf[cfg.slot := Recipient(id, cfg.guestPkg, cfg.slot)];
      }
      slotOf := slotOf[cfg.guestPkg := cfg.slot];
      return true;
    }

    /** The body of the death recipient r. */
    method BinderDied(r: Recipient)
      modifies this
      ensures Contents() == Released(old(Contents()), r)
      ensures clientOf == old(clientOf) - {r.slot} && deathOf == old(deathOf) - {r.slot}
      ensures forall g :: g in slotOf <==> g in old(slotOf) && !(g == r.guestPkg && old(slotOf)[g] == r.slot)
      ensures forall g :: g in slotOf ==> slotOf[g] == old(slotOf)[g]
    {
      clientOf := clientOf - {r.slot};
      deathOf := deathOf - {r.slot};
      if r.guestPkg in slotOf && slotOf[r.guestPkg] == r.slot {
        slotOf := slotOf - {r.guestPkg};
      }
    }
  }

  // ---- What one operation does to the invariants ----

  /** An allocated slot is a real slot that no other guest owns. */
  lemma {:induction false} AllocatedIsUnowned(t: Table, guestPkg: string, pinging: set<Binder>, running: set<int>)
    requires SlotsInRange(t) && Injective(t)
    ensures var s := Allocated(t, guestPkg, pinging, running);
            s == -1 || (0 <= s < MAX_SLOTS && !TakenByOther(t, guestPkg, s))
  {
  }

  /**
   A successful handshake keeps the table injective exactly when no other
   guest owns the slot at that moment: allocate reserves nothing, so two
   launches that overlap can break it.
   */
  lemma {:induction false} ConfiguredInjectiveIff(t: Table, cfg: ClientConfig, client: Binder, outcome: LinkOutcome, id: nat)
    requires Injective(t)
    ensures Injective(Configured(t, cfg, Some(client), outcome, id)) <==> !TakenByOther(t, cfg.guestPkg, cfg.slot)
  {
    var t' := Configured(t, cfg, Some(client), outcome, id);
    if TakenByOther(t, cfg.guestPkg, cfg.slot) {
      var k :| k in t.slotOf && t.slotOf[k] == cfg.slot && k != cfg.guestPkg;
      assert t'.slotOf[k] == t'.slotOf[cfg.guestPkg];
    }
  }

  /** Two launches that overlap are both given slot 0, and both are recorded there. */
  lemma {:induction false} OverlappingLaunchesCollide()
    ensures var empty := Table(map[], map[], map[]);
            var sa := Allocated(empty, "a", {}, {});
            var sb := Allocated(empty, "b", {}, {});
            var t := Configured(empty, ClientConfig("a", sa, 0), Some(1), Linked, 0);
            sa == sb == 0 && !Injective(Configured(t, ClientConfig("b", sb, 0), Some(1), Linked, 1))
  {
    var empty := Table(map[], map[], map[]);
    assert Free(empty, "a", {}, 0) && Free(empty, "b", {}, 0);
    var t := Configured(empty, ClientConfig("a", 0, 0), Some(1), Linked, 0);
    var t' := Configured(t, ClientConfig("b", 0, 0), Some(1), Linked, 1);
    assert t'.slotOf["a"] == t'.slotOf["b"] && "a" != "b";
  }

  /**
   Running a recipient keeps every mapped guest's own recipient in place
   exactly when no guest other than the recipient's owns its slot: a recipient
   delivered after it was unlinked takes the next owner's record away.
   */
  lemma {:induction false} ReleasedOwnRecipientsIff(t: Table, r: Recipient)
    requires OwnRecipients(t)
    ensures OwnRecipients(Released(t, r)) <==> !TakenByOther(t, r.guestPkg, r.slot)
  {
    var t' := Released(t, r);
    if TakenByOther(t, r.guestPkg, r.slot) {
      var k :| k in t.slotOf && t.slotOf[k] == r.slot && k != r.guestPkg;
      assert k in t'.slotOf;
    }
  }

  // ---- Capacity ----

  lemma {:induction false} InjectiveRangeBound(m: map<string, int>, guests: set<string>, n: nat)
    requires forall g :: g in guests ==> g in m && 0 <= m[g] < n
    requires forall g, h :: g in guests && h in guests && m[g] == m[h] ==> g == h
    ensures |guests| <= n
  {
    if n == 0 {
      assert guests == {};
    } else if g :| g in guests && m[g] == n - 1 {
      InjectiveRangeBound(m, guests - {g}, n - 1);
    } else {
      InjectiveRangeBound(m, guests, n - 1);
    }
  }

  /** At most four guests are mapped at once. */
  lemma {:induction false} AtMostFourGuests(t: Table)
    requires SlotsInRange(t) && Injective(t)
    ensures |t.slotOf| <= MAX_SLOTS
  {
    InjectiveRangeBound(t.slotOf, t.slotOf.Keys, MAX_SLOTS);
  }

  lemma {:induction false} FourOwners(t: Table, guestPkg: string)
    requires SlotsInRange(t) && Injective(t)
    requires forall s :: 0 <= s < MAX_SLOTS ==> TakenByOther(t, guestPkg, s)
    ensures |t.slotOf| == MAX_SLOTS && guestPkg !in t.slotOf
  {
    assert TakenByOther(t, guestPkg, 0) && TakenByOther(t, guestPkg, 1);
    var k0 :| k0 in t.slotOf && t.slotOf[k0] == 0 && k0 != guestPkg;
    var k1 :| k1 in t.slotOf && t.slotOf[k1] == 1 && k1 != guestPkg;
    assert TakenByOther(t, guestPkg, 2) && TakenByOther(t, guestPkg, 3);
    var k2 :| k2 in t.slotOf && t.slotOf[k2] == 2 && k2 != guestPkg;
    var k3 :| k3 in t.slotOf && t.slotOf[k3] == 3 && k3 != guestPkg;
    var owners := {k0, k1, k2, k3};
    assert |owners| == 4;
    assert t.slotOf.Keys == owners by {
      forall g | g in t.slotOf
        ensures g in owners
      {
        assert t.slotOf[g] == 0 || t.slotOf[g] == 1 || t.slotOf[g] == 2 || t.slotOf[g] == 3;
      }
    }
  }

  /**
   A launch is refused exactly when the guest has no slot that answers and every
   slot is owned by another guest or listed as running.
   */
  lemma {:induction false} RefusedIff(t: Table, guestPkg: string, pinging: set<Binder>, running: set<int>)
    requires SlotsInRange(t)
    ensures Allocated(t, guestPkg, pinging, running) == -1 <==>
            && (guestPkg in t.slotOf ==> !Alive(t, pinging, t.slotOf[guestPkg]))
            && (forall s :: 0 <= s < MAX_SLOTS ==> TakenByOther(t, guestPkg, s) || s in running)
  {
    assert forall s :: Free(t, guestPkg, running, s) <==> !TakenByOther(t, guestPkg, s) && s !in running;
  }

  /**
   When no slot's process name is running, a launch is refused exactly when
   four other guests hold the four slots.
   */
  lemma {:induction false} RefusedIffFull(t: Table, guestPkg: string, pinging: set<Binder>)
    requires SlotsInRange(t) && Injective(t)
    ensures Allocated(t, guestPkg, pinging, {}) == -1 <==> |t.slotOf| == MAX_SLOTS && guestPkg !in t.slotOf
  {
    var s := Allocated(t, guestPkg, pinging, {});
    if s == -1 {
      forall k | 0 <= k < MAX_SLOTS
        ensures TakenByOther(t, guestPkg, k)
      {
        assert !Free(t, guestPkg, {}, k);
      }
      FourOwners(t, guestPkg);
    } else if |t.slotOf| == MAX_SLOTS && guestPkg !in t.slotOf {
      // A fifth guest in a free slot would be one too many.
      var t' := Configured(t, ClientConfig(guestPkg, s, 0), Some(0), LinkThrew, 0);
      ConfiguredInjectiveIff(t, ClientConfig(guestPkg, s, 0), 0, LinkThrew, 0);
      assert t'.slotOf.Keys == t.slotOf.Keys + {guestPkg};
      assert |t'.slotOf.Keys| == |t.slotOf.Keys| + 1;
      AtMostFourGuests(t');
    }
  }
}
