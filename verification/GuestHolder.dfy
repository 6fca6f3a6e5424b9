/**
 The child side of the handshake: the process in a slot keeps the identity it
 was given first and refuses any other guest, until it is reset.  The identity
 of the diagnostic button never pins a process.
 */
module GuestHolder {
  import opened Options
  import opened GuestSlots

  const DIAG_PKG := "com.aether.test.chaincheck"

  /** The request bundle: every key may be missing. */
  datatype Extras = Extras(guestPkg: Option<string>, slot: Option<int>, userId: Option<int>)

  datatype InitReply = BadConfig | Rejected(boundTo: string) | Accepted

  function ConfigToBundle(cfg: ClientConfig): Extras {
    Extras(Some(cfg.guestPkg), Some(cfg.slot), Some(cfg.userId))
  }

  function OrElse<T>(o: Option<T>, default: T): T {
    if o.Some? then o.value else default
  }

  /** A request names a guest and a slot. */
  predicate WellFormed(extras: Option<Extras>) {
    extras.Some? && OrElse(extras.value.guestPkg, "") != "" && OrElse(extras.value.slot, -1) >= 0
  }

  function InitReplyOf(config: Option<ClientConfig>, extras: Option<Extras>): InitReply {
    if !WellFormed(extras) then BadConfig
    else if config.Some? && config.value.guestPkg != extras.value.guestPkg.value && config.value.guestPkg != DIAG_PKG
    then Rejected(config.value.guestPkg)
    else Accepted
  }

  function AfterInit(config: Option<ClientConfig>, extras: Option<Extras>): Option<ClientConfig> {
    if InitReplyOf(config, extras).Accepted?
    then Some(ClientConfig(extras.value.guestPkg.value, extras.value.slot.value, OrElse(extras.value.userId, 0)))
    else config
  }

  function AfterSeed(config: Option<ClientConfig>, guestPkg: string, slot: int): Option<ClientConfig> {
    if config.None? && guestPkg != "" && slot >= 0 then Some(ClientConfig(guestPkg, slot, 0)) else config
  }

  class GuestProcessHolder {
    var config: Option<ClientConfig>

    constructor ()
      ensures config == None
    {
      config := None;
    }

    method Seed(guestPkg: string, slot: int)
      modifies this
      ensures config == AfterSeed(old(config), guestPkg, slot)
      ensures old(config).None? && guestPkg != "" && slot >= 0 ==> config == Some(ClientConfig(guestPkg, slot, 0))
      ensures old(config).Some? || guestPkg == "" || slot < 0 ==> config == old(config)
    {
      if config == None && guestPkg != "" && slot >= 0 {
        config := Some(ClientConfig(guestPkg, slot, 0));
      }
    }

    method Reset()
      modifies this
      ensures config == None
    {
      config := None;
    }

    /**
     A request without a guest's name or a slot is bad; one for a guest other than
     the real one bound here is rejected with the name of that one; any other is
     accepted, and its configuration replaces what was there.
     */
    method HandleInit(extras: Option<Extras>) returns (reply: InitReply)
      modifies this
      ensures reply == InitReplyOf(old(config), extras)
      ensures config == AfterInit(old(config), extras)
      ensures reply.BadConfig? <==>
              extras.None? || extras.value.guestPkg in {None, Some("")} || extras.value.slot.None? || extras.value.slot.value < 0
      ensures reply.Rejected? ==>
                old(config).Some? && reply.boundTo == old(config).value.guestPkg
                && reply.boundTo != "com.aether.test.chaincheck" && Some(reply.boundTo) != extras.value.guestPkg
      ensures reply.Accepted? ==>
                && extras.Some? && extras.value.guestPkg.Some? && extras.value.slot.Some?
                && config == Some(ClientConfig(extras.value.guestPkg.value, extras.value.slot.value,
                                               if extras.value.userId.Some? then extras.value.userId.value else 0))
                && (old(config).None? || old(config).value.guestPkg in {extras.value.guestPkg.value, "com.aether.test.chaincheck"})
      ensures !reply.Accepted? ==> config == old(config)
    {
      var pkg := if extras.Some? then extras.value.guestPkg else None;
      var slot := if extras.Some? then OrElse(extras.value.slot, -1) else -1;
      if pkg.None? || pkg.value == "" || slot < 0 {
        return BadConfig;
      }
      if config.Some? && config.value.guestPkg != pkg.value && config.value.guestPkg != DIAG_PKG {
        return Rejected(config.value.guestPkg);
      }
      config := Some(ClientConfig(pkg.value, slot, OrElse(extras.value.userId, 0)));
      return Accepted;
    }
  }

  // ---- Runs of one child process ----

  datatype HolderEvent = Init(extras: Option<Extras>) | Seed(guestPkg: string, slot: int) | Reset

  function Step(config: Option<ClientConfig>, e: HolderEvent): Option<ClientConfig> {
    match e
    case Init(extras) => AfterInit(config, extras)
    case Seed(guestPkg, slot) => AfterSeed(config, guestPkg, slot)
    case Reset => None
  }

  /** The guests accepted by the handshake, in order. */
  function AcceptedGuests(config: Option<ClientConfig>, es: seq<HolderEvent>): seq<string>
    decreases |es|
  {
    if es == [] then []
    else
      (if es[0].Init? && InitReplyOf(config, es[0].extras).Accepted? then [es[0].extras.value.guestPkg.value] else [])
      + AcceptedGuests(Step(config, es[0]), es[1..])
  }

  /** A process bound to a real guest accepts no one else before its next reset. */
  lemma {:induction false} BoundAcceptsOnlyItsGuest(config: Option<ClientConfig>, es: seq<HolderEvent>, g: string)
    requires config.Some? && config.value.guestPkg == g && g != DIAG_PKG
    requires Reset !in es
    ensures forall i :: 0 <= i < |AcceptedGuests(config, es)| ==> AcceptedGuests(config, es)[i] == g
    decreases |es|
  {
    if es != [] {
      BoundAcceptsOnlyItsGuest(Step(config, es[0]), es[1..], g);
    }
  }

  /** Once a real guest occurs, nothing but that guest follows. */
  ghost predicate OneRealGuest(guests: seq<string>) {
    forall i, j :: 0 <= i < j < |guests| && guests[i] != DIAG_PKG ==> guests[j] == guests[i]
  }

  lemma {:induction false} OneRealGuestPrepend(g: string, rest: seq<string>)
    requires OneRealGuest(rest)
    requires g != DIAG_PKG ==> forall i :: 0 <= i < |rest| ==> rest[i] == g
    ensures OneRealGuest([g] + rest)
  {
  }

  /**
   Between resets a process changes identity at most once, from the diagnostic
   identity to a real guest: after the first real guest, every accepted
   handshake names that same guest.
   */
  lemma {:induction false} OneRealGuestBetweenResets(config: Option<ClientConfig>, es: seq<HolderEvent>)
    requires Reset !in es
    ensures OneRealGuest(AcceptedGuests(config, es))
    decreases |es|
  {
    if es != [] {
      var config' := Step(config, es[0]);
      var acc, rest := AcceptedGuests(config, es), AcceptedGuests(config', es[1..]);
      OneRealGuestBetweenResets(config', es[1..]);
      if es[0].Init? && InitReplyOf(config, es[0].extras).Accepted? {
        var g := config'.value.guestPkg;
        assert acc == [g] + rest;
        if g != DIAG_PKG {
          BoundAcceptsOnlyItsGuest(config', es[1..], g);
        }
        OneRealGuestPrepend(g, rest);
      } else {
        assert acc == rest;
      }
    }
  }

  /**
   The server's bundle carries its configuration to the child exactly: what an
   accepting child stores is the configuration that was sent.
   */
  lemma {:induction false} BundleRoundTrip(config: Option<ClientConfig>, cfg: ClientConfig)
    ensures AfterInit(config, Some(ConfigToBundle(cfg))) == Some(cfg) <==>
            config == Some(cfg)
            || (cfg.guestPkg != "" && cfg.slot >= 0 &&
                (config.None? || config.value.guestPkg in {cfg.guestPkg, DIAG_PKG}))
  {
  }

  /**
   A child that still holds the identity of its slot's owner protects the
   table: even a launch that overlaps the owner's cannot break injectivity,
   because the child's reply then carries no binder.
   */
  lemma {:induction false} PinnedChildKeepsInjective(t: Table, child: Option<ClientConfig>, cfg: ClientConfig, client: Binder,
                                                     outcome: LinkOutcome, id: nat)
    requires Injective(t)
    requires forall g :: g in t.slotOf && t.slotOf[g] == cfg.slot ==>
                           child.Some? && child.value.guestPkg == g && g != DIAG_PKG
    ensures var reply := if InitReplyOf(child, Some(ConfigToBundle(cfg))).Accepted? then Some(client) else None;
            Injective(Configured(t, cfg, reply, outcome, id))
  {
  }

  // ---- Runs of the table and all child processes, launches overlapping at will ----

  /** The table, and the identity held by the process in each slot. */
  datatype Site = Site(table: Table, children: map<int, ClientConfig>)

  datatype SiteEvent =
    | Handshake(cfg: ClientConfig, client: Binder, outcome: LinkOutcome, id: nat)
    | SeedChild(slot: int, guestPkg: string)
    | ResetChild(slot: int)
    | ChildDeath(recipient: Recipient)

  const EMPTY_SITE := Site(Table(map[], map[], map[]), map[])

  function ChildOf(s: Site, slot: int): Option<ClientConfig> {
    if slot in s.children then Some(s.children[slot]) else None
  }

  function WithChild(s: Site, slot: int, config: Option<ClientConfig>): Site {
    s.(children := if config.Some? then s.children[slot := config.value] else s.children - {slot})
  }

  predicate Accepts(s: Site, cfg: ClientConfig) {
    InitReplyOf(ChildOf(s, cfg.slot), Some(ConfigToBundle(cfg))).Accepted?
  }

  /** A handshake may come from any launch; a death delivers a recipient and takes the process with its identity. */
  function NextSite(s: Site, e: SiteEvent): Site {
    match e
    case Handshake(cfg, client, outcome, id) =>
      var reply := if Accepts(s, cfg) then Some(client) else None;
      WithChild(s, cfg.slot, AfterInit(ChildOf(s, cfg.slot), Some(ConfigToBundle(cfg))))
      .(table := Configured(s.table, cfg, reply, outcome, id))
    case SeedChild(slot, guestPkg) => WithChild(s, slot, AfterSeed(ChildOf(s, slot), guestPkg, slot))
    case ResetChild(slot) => WithChild(s, slot, None)
    case ChildDeath(r) => WithChild(s, r.slot, None).(table := Released(s.table, r))
  }

  /** Every mapped guest is real, and the process in its slot holds its identity. */
  ghost predicate Pinned(s: Site) {
    forall g :: g in s.table.slotOf ==>
                  && g != DIAG_PKG
                  && ChildOf(s, s.table.slotOf[g]).Some?
                  && ChildOf(s, s.table.slotOf[g]).value.guestPkg == g
  }

  /**
   The diagnostic identity is not recorded, no process is reset while a guest is
   mapped to its slot, and a death is that of its slot's owner.
   */
  predicate Guarded(s: Site, e: SiteEvent) {
    match e
    case Handshake(cfg, _, _, _) => cfg.guestPkg == DIAG_PKG ==> !Accepts(s, cfg)
    case SeedChild(_, _) => true
    case ResetChild(slot) => forall g :: g in s.table.slotOf ==> s.table.slotOf[g] != slot
    case ChildDeath(r) => !TakenByOther(s.table, r.guestPkg, r.slot)
  }

  lemma {:induction false} PinnedIsInjective(s: Site)
    requires Pinned(s)
    ensures Injective(s.table)
  {
  }

  /** A step keeps every owner pinned to its slot exactly when it is guarded. */
  lemma {:induction false} PinnedNextIff(s: Site, e: SiteEvent)
    requires Pinned(s)
    ensures Pinned(NextSite(s, e)) <==> Guarded(s, e)
  {
    var s' := NextSite(s, e);
    match e
    case Handshake(cfg, _, _, _) =>
      assert Accepts(s, cfg) ==> cfg.guestPkg in s'.table.slotOf;
    case SeedChild(_, _) =>
    case ResetChild(slot) =>
      if g :| g in s.table.slotOf && s.table.slotOf[g] == slot {
        assert g in s'.table.slotOf;
      }
    case ChildDeath(r) =>
      if TakenByOther(s.table, r.guestPkg, r.slot) {
        var k :| k in s.table.slotOf && s.table.slotOf[k] == r.slot && k != r.guestPkg;
        assert k in s'.table.slotOf;
      }
  }

  function RunSite(s: Site, es: seq<SiteEvent>): Site
    decreases |es|
  {
    if es == [] then s else RunSite(NextSite(s, es[0]), es[1..])
  }

  predicate GuardedRun(s: Site, es: seq<SiteEvent>)
    decreases |es|
  {
    es == [] || (Guarded(s, es[0]) && GuardedRun(NextSite(s, es[0]), es[1..]))
  }

  lemma {:induction false} RunStaysPinned(s: Site, es: seq<SiteEvent>)
    requires Pinned(s) && GuardedRun(s, es)
    ensures Pinned(RunSite(s, es))
    decreases |es|
  {
    if es != [] {
      PinnedNextIff(s, es[0]);
      RunStaysPinned(NextSite(s, es[0]), es[1..]);
    }
  }

  /** However launches overlap, a guarded run never maps two guests to one slot. */
  lemma {:induction false} OverlappingRunsStayInjective(es: seq<SiteEvent>)
    requires GuardedRun(EMPTY_SITE, es)
    ensures Injective(RunSite(EMPTY_SITE, es).table)
  {
    RunStaysPinned(EMPTY_SITE, es);
    PinnedIsInjective(RunSite(EMPTY_SITE, es));
  }
}
