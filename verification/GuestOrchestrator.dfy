/**
 The caller of the slot protocol: one launch runs allocate, handshake and stub
 activity in a row on the one shared table, and dispatches to no slot when
 there is none free.
 */
module GuestOrchestrator {
  import opened Options
  import opened GuestSlots
  import opened GuestLaunch

  /** What the system answers during one launch. */
  datatype Answers = Answers(
    prepared: bool,
    pinging: set<Binder>,
    running: set<int>,
    userId: int,
    reply: Option<Binder>,
    outcome: LinkOutcome,
    started: bool)

  /** The protocol steps of one launch that nothing interrupts. */
  function LaunchSteps(guestPkg: string, a: Answers): seq<Event> {
    if !a.prepared then []
    else [Launch(guestPkg, a.pinging, a.running), Handshake(a.userId, a.reply, a.outcome),
          if a.started then StartActivity else Abort]
  }

  /** What such a launch does, all steps together. */
  function Launched(w: World, guestPkg: string, a: Answers): World {
    var slot := Allocated(w.table, guestPkg, a.pinging, a.running);
    if !a.prepared || slot < 0 then w
    else
      var t := Configured(w.table, ClientConfig(guestPkg, slot, a.userId), a.reply, a.outcome, w.nextId);
      var links := if a.reply.None? then w.links
                   else LinksAfter(w, slot, a.reply.value, a.outcome, Recipient(w.nextId, guestPkg, slot));
      World(t, links, w.nextId + 1, Idle,
            w.dispatched + if a.started then [Dispatch(guestPkg, slot, t.slotOf)] else [])
  }

  lemma {:induction false} RunOfLaunch(w: World, guestPkg: string, a: Answers)
    requires w.phase.Idle?
    ensures Run(w, LaunchSteps(guestPkg, a)) == Launched(w, guestPkg, a)
    ensures Safe(w) ==> Safe(Launched(w, guestPkg, a))
  {
    var es := LaunchSteps(guestPkg, a);
    if Safe(w) {
      RunIsSafe(w, es);
    }
    if a.prepared {
      assert es[1..][0] == es[1] && es[1..][1..][0] == es[2] && es[1..][1..][1..] == [];
      var w1 := Next(w, es[0]);
      var w2 := Next(w1, es[1]);
      assert Run(w2, es[1..][1..]) == Next(w2, es[2]);
    }
  }

  class AetherOrchestrator {
    const table: GuestProcessTable
    var nextId: nat
    var dispatched: seq<Dispatch>
    ghost var links: set<(Binder, Recipient)>

    ghost function Contents(): World
      reads this, table
    {
      World(table.Contents(), links, nextId, Idle, dispatched)
    }

    constructor (table: GuestProcessTable)
      ensures this.table == table
      ensures Contents() == START.(table := table.Contents())
    {
      this.table := table;
      nextId, dispatched, links := 0, [], {};
    }

    /**
     A stub is started on the allocated slot with or without a handshake; a
     launch without a slot is refused and leaves everything as it was.
     */
    method LaunchInSandbox(guestPkg: string, a: Answers) returns (ok: bool)
      modifies this, table
      ensures Contents() == Run(old(Contents()), LaunchSteps(guestPkg, a))
      ensures ok == (|dispatched| > |old(dispatched)|)
      ensures ok ==> dispatched[|dispatched| - 1].guestPkg == guestPkg
                     && dispatched[|dispatched| - 1].slot == Allocated(old(table.Contents()), guestPkg, a.pinging, a.running)
      ensures old(Safe(Contents())) ==> Safe(Contents())
      ensures var slot := Allocated(old(table.Contents()), guestPkg, a.pinging, a.running);
              && ok == (a.prepared && slot >= 0 && a.started)
              && (!a.prepared || slot < 0 ==> Contents() == old(Contents()))
              && dispatched == old(dispatched) + (if ok then [Dispatch(guestPkg, slot, table.slotOf)] else [])
              && (a.prepared && slot >= 0 ==>
                    table.Contents() == Configured(old(table.Contents()), ClientConfig(guestPkg, slot, a.userId), a.reply, a.outcome, old(nextId)))
    {
      ghost var w := Contents();
      RunOfLaunch(w, guestPkg, a);
      if !a.prepared {
        return false;
      }
      var slot := table.Allocate(guestPkg, a.pinging, a.running);
      if slot < 0 {
        return false;
      }
      ghost var r := Recipient(nextId, guestPkg, slot);
      if a.reply.Some? {
        links := LinksAfter(w, slot, a.reply.value, a.outcome, r);
      }
      var _ := table.SpawnAndConfig(ClientConfig(guestPkg, slot, a.userId), a.reply, a.outcome, nextId);
      nextId := nextId + 1;
      if !a.started {
        return false;
      }
      dispatched := dispatched + [Dispatch(guestPkg, slot, table.slotOf)];
      return true;
    }

    /** The death of a linked process, delivered between launches. */
    method DeliverDeath(b: Binder, r: Recipient)
      modifies this, table
      ensures Contents() == Next(old(Contents()), Death(b, r))
      ensures old(Exact(Contents()) && (b, r) in links) ==> Exact(Contents())
    {
      ghost var w := Contents();
      if Exact(w) && (b, r) in links {
        ExactDeath(w, b, r);
      }
      links := links - {(b, r)};
      table.BinderDied(r);
    }
  }
}
