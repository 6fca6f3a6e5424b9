/**
 Whole runs of the slot protocol.  A launch is three steps (allocate, handshake,
 start the stub activity); launches do not overlap one another, and a death
 may be delivered between any two steps.
 */
module GuestLaunch {
  import opened Options
  import opened GuestSlots

  datatype Phase =
    | Idle
    | Reserved(guestPkg: string, slot: int)
    | Answered(guestPkg: string, slot: int)

  /** A started stub activity, with the guest-to-slot map of that moment. */
  datatype Dispatch = Dispatch(guestPkg: string, slot: int, slotOf: map<string, int>)

  /** links holds the (binder, recipient) pairs that are linked and not yet unlinked or delivered. */
  datatype World = World(
    table: Table,
    links: set<(Binder, Recipient)>,
    nextId: nat,
    phase: Phase,
    dispatched: seq<Dispatch>)

  datatype Event =
    | Launch(launchPkg: string, pinging: set<Binder>, running: set<int>)
    | Handshake(userId: int, reply: Option<Binder>, outcome: LinkOutcome)
    | StartActivity
    | Abort
    | Death(binder: Binder, recipient: Recipient)

  const START := World(Table(map[], map[], map[]), {}, 0, Idle, [])

  /** The link that unlinkToDeath removes during a handshake on slot. */
  function OldLink(t: Table, slot: int): set<(Binder, Recipient)> {
    if slot in t.deathOf && slot in t.clientOf then {(t.clientOf[slot], t.deathOf[slot])} else {}
  }

  function LinksAfter(w: World, slot: int, client: Binder, outcome: LinkOutcome, r: Recipient): set<(Binder, Recipient)> {
    match outcome
    case UnlinkThrew => w.links
    case LinkThrew => w.links - OldLink(w.table, slot)
    case Linked => w.links - OldLink(w.table, slot) + {(client, r)}
  }

  /** One step.  An event that the phase does not allow changes nothing. */
  function Next(w: World, e: Event): World {
    match e
    case Launch(g, pinging, running) =>
      if !w.phase.Idle? then w else
      var slot := Allocated(w.table, g, pinging, running);
      if slot < 0 then w else w.(phase := Reserved(g, slot))
    case Handshake(userId, reply, outcome) =>
      if !w.phase.Reserved? then w else
      var Reserved(g, slot) := w.phase;
      var cfg := ClientConfig(g, slot, userId);
      w.(table := Configured(w.table, cfg, reply, outcome, w.nextId),
      links := if reply.Some? then LinksAfter(w, slot, reply.value, outcome, Recipient(w.nextId, g, slot)) else w.links,
      nextId := w.nextId + 1,
      phase := Answered(g, slot))
    case StartActivity =>
      if !w.phase.Answered? then w else
      w.(dispatched := w.dispatched + [Dispatch(w.phase.guestPkg, w.phase.slot, w.table.slotOf)],
      phase := Idle)
    case Abort =>
      w.(phase := Idle)
    case Death(b, r) =>
      w.(table := Released(w.table, r), links := w.links - {(b, r)})
  }

  function Run(w: World, es: seq<Event>): World
    decreases |es|
  {
    if es == [] then w else Run(Next(w, es[0]), es[1..])
  }

  // ---- Safety: any event at any time ----

  ghost predicate ProperDispatch(d: Dispatch) {
    && 0 <= d.slot < MAX_SLOTS
    && forall g :: g in d.slotOf && d.slotOf[g] == d.slot ==> g == d.guestPkg
  }

  ghost predicate Safe(w: World) {
    && SlotsInRange(w.table)
    && Injective(w.table)
    && KeysAgree(w.table)
    && (!w.phase.Idle? ==> 0 <= w.phase.slot < MAX_SLOTS && !TakenByOther(w.table, w.phase.guestPkg, w.phase.slot))
    && forall i :: 0 <= i < |w.dispatched| ==> ProperDispatch(w.dispatched[i])
  }

  lemma {:induction false} SafeNext(w: World, e: Event)
    requires Safe(w)
    ensures Safe(Next(w, e))
  {
  }

  /**
   In every run, whatever deaths are delivered and whether or not linking
   succeeds: slots are distinct and in 0..3, the client and recipient maps
   have the same keys, and every stub was started on a slot that no other guest
   owned at that moment.
   */
  lemma {:induction false} RunIsSafe(w: World, es: seq<Event>)
    requires Safe(w)
    ensures Safe(Run(w, es))
    decreases |es|
  {
    if es != [] {
      SafeNext(w, es[0]);
      RunIsSafe(Next(w, es[0]), es[1..]);
    }
  }

  // ---- Exact release: linking succeeds and only linked recipients are delivered ----

  ghost predicate Disciplined(w: World, e: Event) {
    match e
    case Handshake(_, _, outcome) => outcome.Linked?
    case Death(b, r) => (b, r) in w.links
    case _ => true
  }

  ghost predicate DisciplinedRun(w: World, es: seq<Event>)
    decreases |es|
  {
    es == [] || (Disciplined(w, es[0]) && DisciplinedRun(Next(w, es[0]), es[1..]))
  }

  ghost predicate Recorded(t: Table, b: Binder, r: Recipient) {
    && r.slot in t.clientOf && r.slot in t.deathOf
    && t.clientOf[r.slot] == b
    && t.deathOf[r.slot] == r
  }

  /** The links are exactly the ones the table records, one for each occupied slot. */
  ghost predicate LinksRecorded(w: World) {
    forall b: Binder, r: Recipient :: (b, r) in w.links <==> Recorded(w.table, b, r)
  }

  ghost predicate RecipientsFresh(w: World) {
    && (forall s :: s in w.table.deathOf ==> w.table.deathOf[s].id < w.nextId && w.table.deathOf[s].slot == s)
    && (forall s, s' :: s in w.table.deathOf && s' in w.table.deathOf && s != s' ==> w.table.deathOf[s].id != w.table.deathOf[s'].id)
  }

  ghost predicate Exact(w: World) {
    && Safe(w)
    && OwnRecipients(w.table)
    && RecipientsFresh(w)
    && LinksRecorded(w)
  }

  lemma {:induction false} ExactHandshake(w: World, userId: int, client: Binder)
    requires Exact(w) && w.phase.Reserved?
    ensures Exact(Next(w, Handshake(userId, Some(client), Linked)))
  {
    var w' := Next(w, Handshake(userId, Some(client), Linked));
    var Reserved(g, slot) := w.phase;
    SafeNext(w, Handshake(userId, Some(client), Linked));
    assert OwnRecipients(w'.table) by {
      forall h | h in w.table.slotOf && h != g
        ensures w.table.slotOf[h] != slot
      {
        assert !TakenByOther(w.table, g, slot);
      }
    }
    assert LinksRecorded(w') by {
      forall b: Binder, r: Recipient
        ensures (b, r) in w'.links <==> Recorded(w'.table, b, r)
      {
        assert (b, r) in w.links <==> Recorded(w.table, b, r);
      }
    }
  }

  lemma {:induction false} ExactDeath(w: World, b: Binder, r: Recipient)
    requires Exact(w) && (b, r) in w.links
    ensures Exact(Next(w, Death(b, r)))
  {
    SafeNext(w, Death(b, r));
    assert Recorded(w.table, b, r);
    assert !TakenByOther(w.table, r.guestPkg, r.slot);
    ReleasedOwnRecipientsIff(w.table, r);
  }

  lemma {:induction false} ExactNext(w: World, e: Event)
    requires Exact(w) && Disciplined(w, e)
    ensures Exact(Next(w, e))
  {
    match e
    case Handshake(userId, Some(client), _) =>
      if w.phase.Reserved? {
        ExactHandshake(w, userId, client);
      }
    case Death(b, r) => ExactDeath(w, b, r);
    case _ => SafeNext(w, e);
  }

  lemma {:induction false} RunIsExact(w: World, es: seq<Event>)
    requires Exact(w) && DisciplinedRun(w, es)
    ensures Exact(Run(w, es))
    decreases |es|
  {
    if es != [] {
      ExactNext(w, es[0]);
      RunIsExact(Next(w, es[0]), es[1..]);
    }
  }

  /**
   What one delivery does.  If the recipient's guest still sits in its slot, that
   guest alone is unmapped and the slot becomes free for any guest; if the guest
   has moved or gone, no guest is unmapped.
   */
  lemma {:induction false} DeathFreesOwnSlotOnly(w: World, b: Binder, r: Recipient, other: string)
    requires Exact(w) && (b, r) in w.links
    ensures var t, t' := w.table, Next(w, Death(b, r)).table;
            && (if r.guestPkg in t.slotOf && t.slotOf[r.guestPkg] == r.slot
                then t'.slotOf == t.slotOf - {r.guestPkg}
                else t'.slotOf == t.slotOf)
            && r.slot !in t'.clientOf
            && !TakenByOther(t', other, r.slot)
            && (forall s :: s in t.clientOf && s != r.slot ==>
                              s in t'.clientOf && t'.clientOf[s] == t.clientOf[s] && t'.deathOf[s] == t.deathOf[s])
  {
  }

  /** Every mapped guest has exactly one link: its own recipient on its own slot's binder. */
  lemma {:induction false} MappedGuestHasOneLink(w: World, g: string)
    requires Exact(w) && g in w.table.slotOf
    ensures var s := w.table.slotOf[g];
            && s in w.table.clientOf && s in w.table.deathOf
            && (w.table.clientOf[s], w.table.deathOf[s]) in w.links
            && w.table.deathOf[s].guestPkg == g
            && (forall b, r :: (b, r) in w.links && r.guestPkg == g && r.slot == s ==>
                                 b == w.table.clientOf[s] && r == w.table.deathOf[s])
  {
  }

  /** Both whole-run results from the empty table. */
  lemma {:induction false} RunsFromStart(es: seq<Event>)
    ensures Safe(Run(START, es))
    ensures DisciplinedRun(START, es) ==> Exact(Run(START, es))
  {
    RunIsSafe(START, es);
    if DisciplinedRun(START, es) {
      RunIsExact(START, es);
    }
  }
}
