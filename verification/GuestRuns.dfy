/**
 Whole runs of sandboxed loads and closes in one process: the activity thread
 never holds a guest other than the active runtime's, and closing the bridge
 gives the host back, exactly when the fields can be reached in a way that
 makes restoring possible.
 */
module GuestRuns {
  import opened Options
  import opened GuestSession

  /** The process before any guest: its initial application and the list of all applications. */
  datatype HostApps = HostApps(initial: App, apps: seq<App>)

  /** used holds every application seen so far; each build instantiates a new one. */
  datatype Process = Process(mode: Mode, session: Session, used: set<App>)

  datatype Event = SetMode(mode: Mode) | Load(input: LoadInput) | Suspend | Resume | Close

  function Start(h: HostApps): Process {
    Process(AUTO, Session(Thread(h.initial, h.apps), None), {h.initial} + set a | a in h.apps)
  }

  function WithState(s: Session, from: RuntimeState, to: RuntimeState): Session {
    if s.active.Some? && s.active.value.state == from then s.(active := Some(s.active.value.(state := to))) else s
  }

  function Next(env: Env, p: Process, e: Event): Process {
    match e
    case SetMode(m) => p.(mode := m)
    case Load(l) =>
      p.(session := Loaded(env, p.mode, p.session, l).session,
      used := if l.build.Built? then p.used + {l.build.app} else p.used)
    case Suspend => p.(session := WithState(p.session, ACTIVE, SUSPENDED))
    case Resume => p.(session := WithState(p.session, SUSPENDED, ACTIVE))
    case Close => p.(session := BridgeClosed(env, p.session))
  }

  /** Loads are sandboxed, and a built application is a new object. */
  predicate Allowed(p: Process, e: Event) {
    e.Load? ==> e.input.sandboxed && (e.input.build.Built? ==> e.input.build.app !in p.used)
  }

  ghost predicate AllowedRun(env: Env, p: Process, es: seq<Event>)
    decreases |es|
  {
    es == [] || (Allowed(p, es[0]) && AllowedRun(env, Next(env, p, es[0]), es[1..]))
  }

  function Run(env: Env, p: Process, es: seq<Event>): Process
    decreases |es|
  {
    if es == [] then p else Run(env, Next(env, p, es[0]), es[1..])
  }

  // ---- When the host can be restored ----

  /**
   A guest put into a field can be taken out again: if the first field throws,
   the list must not hold a guest, and if the initial application is replaced,
   the host must be known.
   */
  predicate Restorable(env: Env) {
    !env.attached
    || ((env.initialField.Throws? ==> !env.listField.Present?) && (env.initialField.Present? ==> env.host.Some?))
  }

  /** The host application, when known, is the one the process started with. */
  predicate HostIs(env: Env, h: HostApps) {
    env.host.Some? ==> env.host.value == h.initial
  }

  predicate Live(env: Env, s: Session) {
    env.attached && s.active.Some? && s.active.value.state != DESTROYED
  }

  /** The host's thread with a guest, if any, put into the fields that are present. */
  function WithGuest(env: Env, h: HostApps, guest: Option<App>): Thread {
    Thread(if guest.Some? && env.initialField.Present? then guest.value else h.initial,
           h.apps + if guest.Some? && env.listField.Present? then [guest.value] else [])
  }

  function LiveGuest(env: Env, s: Session): Option<App> {
    if Live(env, s) then Some(s.active.value.app) else None
  }

  /** The thread holds the host's applications and, while a runtime is live, that runtime's guest; nothing else. */
  predicate Clean(env: Env, h: HostApps, s: Session) {
    s.thread == WithGuest(env, h, LiveGuest(env, s))
  }

  ghost predicate Inv(env: Env, h: HostApps, p: Process) {
    && Clean(env, h, p.session)
    && h.initial in p.used && (forall a :: a in h.apps ==> a in p.used)
    && (p.session.active.Some? ==>
          var a := p.session.active.value.app;
          a in p.used && a != h.initial && a !in h.apps)
  }

  // ---- The effect of one step ----

  lemma {:induction false} RemovedOnly(before: seq<App>, x: App, after: seq<App>)
    requires x !in before
    ensures Removed(before + [x] + after, x) == before + after
  {
    var all := before + [x] + after;
    if before == [] {
      assert all[1..] == after;
    } else {
      assert all[0] == before[0] && all[1..] == before[1..] + [x] + after;
      RemovedOnly(before[1..], x, after);
    }
  }

  lemma {:induction false} RemovedAbsent(apps: seq<App>, x: App)
    requires x !in apps
    ensures Removed(apps, x) == apps
  {
    if apps != [] {
      RemovedAbsent(apps[1..], x);
    }
  }

  /** A thread that holds one guest and then, bound on top of it, a second. */
  function WithTwo(env: Env, h: HostApps, first: App, second: App): Thread {
    Thread(if env.initialField.Present? then second else h.initial,
           h.apps + if env.listField.Present? then [first] + [second] else [])
  }

  lemma {:induction false} BindFirst(env: Env, h: HostApps, g: App, state: RuntimeState, resourcesOk: bool)
    requires env.attached && g !in h.apps
    ensures Bound(env, WithGuest(env, h, None), Runtime(g, true, state), resourcesOk).thread == WithGuest(env, h, Some(g))
  {
  }

  lemma {:induction false} BindOver(env: Env, h: HostApps, first: App, g: App, resourcesOk: bool)
    requires env.attached && g !in h.apps && g != first
    ensures Bound(env, WithGuest(env, h, Some(first)), Runtime(g, true, INITIALIZING), resourcesOk).thread
         == WithTwo(env, h, first, g)
  {
  }

  lemma {:induction false} CloseOnly(env: Env, h: HostApps, r: Runtime)
    requires HostIs(env, h) && Restorable(env) && env.attached && r.state != DESTROYED
    requires r.app !in h.apps
    ensures ClosedThread(env, WithGuest(env, h, Some(r.app)), r) == WithGuest(env, h, None)
  {
    if env.listField.Present? {
      assert h.apps + [r.app] == h.apps + [r.app] + [];
      RemovedOnly(h.apps, r.app, []);
    }
  }

  lemma {:induction false} CloseUnder(env: Env, h: HostApps, r: Runtime, g: App)
    requires HostIs(env, h) && Restorable(env) && env.attached && r.state != DESTROYED
    requires r.app !in h.apps && r.app != g && r.app != h.initial
    ensures ClosedThread(env, WithTwo(env, h, r.app, g), r) == WithGuest(env, h, Some(g))
  {
    if env.listField.Present? {
      assert h.apps + ([r.app] + [g]) == h.apps + [r.app] + [g];
      RemovedOnly(h.apps, r.app, [g]);
    }
  }

  lemma {:induction false} CloseActive(env: Env, h: HostApps, p: Process)
    requires HostIs(env, h) && Restorable(env) && Inv(env, h, p)
    ensures ActiveClosed(env, p.session).thread == WithGuest(env, h, None)
  {
    if Live(env, p.session) {
      CloseOnly(env, h, p.session.active.value);
    }
  }

  /** The part of a load after the builder: from a thread whose active guest can be closed and where g may be bound already. */
  lemma {:induction false} BoundInPlaceClean(env: Env, h: HostApps, s: Session, created: Runtime, l: LoadInput)
    requires HostIs(env, h) && Restorable(env) && env.attached
    requires created.baseAttached && created.app !in h.apps
    requires var t := ActiveClosed(env, s).thread;
             t == WithGuest(env, h, None) || (t == WithGuest(env, h, Some(created.app)) && created.state != DESTROYED)
    ensures Clean(env, h, BoundInPlace(env, s, created, l).session)
  {
  }

  lemma {:induction false} LoadKeepsClean(env: Env, h: HostApps, p: Process, l: LoadInput)
    requires HostIs(env, h) && Restorable(env) && Inv(env, h, p)
    requires l.build.Built? && l.build.app !in p.used
    ensures Clean(env, h, LoadedV2(env, p.session, l).session)
  {
    var s, g := p.session, l.build.app;
    if env.attached {
      var created := Runtime(g, true, INITIALIZING);
      if !l.callOnCreate {
        CloseActive(env, h, p);
        BoundInPlaceClean(env, h, s, created, l);
      } else {
        var b := Bound(env, s.thread, created, l.resourcesOk);
        if Live(env, s) {
          BindOver(env, h, s.active.value.app, g, l.resourcesOk);
          CloseUnder(env, h, s.active.value, g);
        } else {
          BindFirst(env, h, g, INITIALIZING, l.resourcesOk);
        }
        BoundInPlaceClean(env, h, s.(thread := b.thread), b.runtime, l);
      }
    }
  }

  // ---- Whole runs ----

  /** A sandboxed load never reaches the old loader: it leaves the session as the new one leaves it. */
  lemma {:induction false} SandboxedLoad(env: Env, mode: Mode, s: Session, l: LoadInput)
    requires l.sandboxed
    ensures var o, v2 := Loaded(env, mode, s, l), LoadedV2(env, s, l);
            && o.session == (if mode == V1_ONLY then s else v2.session)
            && (o.result.None? <==> mode != V1_ONLY && v2.result.None?)
            && (o.result.Some? ==>
                  && V1Start !in o.result.value.events
                  && o.result.value.success == (mode != V1_ONLY && v2.result.value.success)
                  && o.result.value.source == if o.result.value.success then V2 else NoSource)
  {
  }

  /**
   The old loader is reached exactly by an unsandboxed load in a mode that names
   it, or that falls back to it when the new one fails.
   */
  lemma {:induction false} V1ReachedIff(env: Env, mode: Mode, s: Session, l: LoadInput)
    ensures var o, v2 := Loaded(env, mode, s, l), LoadedV2(env, s, l);
            (o.result.Some? && V1Start in o.result.value.events)
            <==> (!l.sandboxed && (mode == V1_ONLY || (mode != V2_ONLY && v2.result.Some? && !v2.result.value.success)))
  {
  }

  lemma {:induction false} InvNext(env: Env, h: HostApps, p: Process, e: Event)
    requires HostIs(env, h) && Restorable(env) && Inv(env, h, p) && Allowed(p, e)
    ensures Inv(env, h, Next(env, p, e))
  {
    match e
    case Load(l) =>
      SandboxedLoad(env, p.mode, p.session, l);
      if l.build.Built? {
        LoadKeepsClean(env, h, p, l);
      }
    case Close => CloseActive(env, h, p);
    case _ =>
  }

  lemma {:induction false} RunIsClean(env: Env, h: HostApps, p: Process, es: seq<Event>)
    requires HostIs(env, h) && Restorable(env) && Inv(env, h, p) && AllowedRun(env, p, es)
    ensures Inv(env, h, Run(env, p, es))
    decreases |es|
  {
    if es != [] {
      InvNext(env, h, p, es[0]);
      RunIsClean(env, h, Next(env, p, es[0]), es[1..]);
    }
  }

  /**
   In every run of sandboxed loads and closes from the host's own state: the list
   of applications is the host's list, plus the active runtime's guest while it
   is live; the initial application is the host or that guest; and closing the
   bridge now would give the host back.
   */
  lemma {:induction false} RunFromHost(env: Env, h: HostApps, es: seq<Event>)
    requires HostIs(env, h) && Restorable(env) && AllowedRun(env, Start(h), es)
    ensures var p := Run(env, Start(h), es);
            && Clean(env, h, p.session)
            && BridgeClosed(env, p.session) == Session(Thread(h.initial, h.apps), None)
  {
    assert h.apps + [] == h.apps;
    RunIsClean(env, h, Start(h), es);
    CloseActive(env, h, Run(env, Start(h), es));
  }

  // ---- What a load does ----

  /** Removing takes out the first occurrence, if there is one, and nothing else. */
  lemma {:induction false} RemovedIs(apps: seq<App>, x: App)
    ensures x !in apps ==> Removed(apps, x) == apps
    ensures forall i :: 0 <= i < |apps| && apps[i] == x && x !in apps[..i] ==> Removed(apps, x) == apps[..i] + apps[i + 1..]
  {
    if x !in apps {
      RemovedAbsent(apps, x);
    }
    forall i | 0 <= i < |apps| && apps[i] == x && x !in apps[..i]
      ensures Removed(apps, x) == apps[..i] + apps[i + 1..]
    {
      assert apps == apps[..i] + [x] + apps[i + 1..];
      RemovedOnly(apps[..i], x, apps[i + 1..]);
    }
  }

  /** The new runtime can be built, and bound without an exception in at least one way. */
  predicate CanBind(env: Env, l: LoadInput) {
    && l.build.Built? && env.attached && env.initialField != Throws
    && (env.initialField == Present || env.listField != Throws || l.resourcesOk)
  }

  /** The initial application and the application list after a load that leaves the guest bound. */
  predicate HoldsGuest(env: Env, t: Thread, app: App) {
    (env.initialField == Present ==> t.initial == app) && (env.listField == Present ==> app in t.apps)
  }

  /**
   When a load by the new runtime succeeds, and what it leaves: after a success
   the built application, with its base context, is the active runtime and in
   the fields that can be used; after a refusal that is not the builder's, the
   previous runtime is closed; after the builder's nothing has changed.
   */
  lemma {:induction false} NewLoadSucceedsIff(env: Env, s: Session, l: LoadInput)
    ensures var o := LoadedV2(env, s, l);
            && (o.result.Some? && o.result.value.success <==> CanBind(env, l))
            && (CanBind(env, l) ==>
                  && o.result.value == LoadResult(true, V2, l.installed, [V2Start, V2Success(l.installed)])
                  && o.session.active == Some(Runtime(l.build.app, true, ACTIVE))
                  && HoldsGuest(env, o.session.thread, l.build.app))
            && (o.result.Some? && !CanBind(env, l) ==>
                  && o.result.value == LoadResult(false, NoSource, 0, [V2Start, V2Failure])
                  && (l.build.Built? && s.active.Some? ==>
                        o.session.active == Some(Runtime(s.active.value.app, s.active.value.baseAttached, DESTROYED)))
                  && (l.build.Built? && s.active.None? ==> o.session.active.None?)
                  && (l.build.BuildFailed? ==> o.session == s))
  {
    assert [V2Start] + [V2Failure] == [V2Start, V2Failure];
  }

  /** The whole of a load by modes: what is tried, in which order, and the events of each attempt. */
  lemma {:induction false} LoadByMode(env: Env, mode: Mode, s: Session, l: LoadInput)
    requires Loaded(env, mode, s, l).result.Some?
    ensures var r := Loaded(env, mode, s, l).result.value;
            var v2 := if CanBind(env, l) then [V2Start, V2Success(l.installed)] else [V2Start, V2Failure];
            var v1 := if l.sandboxed then [V1Failure]
                      else [V1Start, if l.v1.success then V1Success(l.v1.installed) else V1Failure];
            && r.events == (match mode
                            case V2_ONLY => v2
                            case V1_ONLY => v1
                            case _ => if CanBind(env, l) then v2 else v2 + [FallbackTriggered] + v1)
            && (r.success <==> (mode != V1_ONLY && CanBind(env, l))
                               || (!l.sandboxed && l.v1.success && (mode == V1_ONLY || (mode != V2_ONLY && !CanBind(env, l)))))
            && (mode != V1_ONLY && CanBind(env, l) ==> r.installed == l.installed)
            && (r.source == V1 ==> r.installed == l.v1.installed && Loaded(env, mode, s, l).session.thread == l.v1.thread)
  {
    NewLoadSucceedsIff(env, s, l);
  }

  /** The other events, one by one. */
  lemma {:induction false} OtherEvents(env: Env, p: Process, mode: Mode)
    ensures Next(env, p, SetMode(mode)) == Process(mode, p.session, p.used)
    ensures p.session.active.None? ==> Next(env, p, Suspend) == p == Next(env, p, Resume) == Next(env, p, Close)
    ensures p.session.active.Some? ==>
              var t, r := p.session.thread, p.session.active.value;
              && Next(env, p, Suspend).session
                 == Session(t, Some(Runtime(r.app, r.baseAttached, if r.state == ACTIVE then SUSPENDED else r.state)))
              && Next(env, p, Resume).session
                 == Session(t, Some(Runtime(r.app, r.baseAttached, if r.state == SUSPENDED then ACTIVE else r.state)))
              && Next(env, p, Close).session == Session(ClosedThread(env, t, r), None)
  {
  }

  // ---- Loads that end in an exception ----

  /**
   A load ends in an exception, the bind's own guards notwithstanding, exactly
   when the new runtime is built and the initial application cannot be accessed.
   */
  lemma {:induction false} LoadThrowsIff(env: Env, mode: Mode, s: Session, l: LoadInput)
    ensures Loaded(env, mode, s, l).result.None?
       <==> mode != V1_ONLY && l.build.Built? && env.attached && env.initialField.Throws?
  {
  }

  /**
   What such a load leaves: the initial application as it was, the new guest in
   the list if the list can be used, and the bridge with its previous runtime,
   closed unless the builder's own bind threw before; a later close of the
   bridge then takes nothing out of the thread.
   */
  lemma {:induction false} ThrownLoadLeaves(env: Env, mode: Mode, s: Session, l: LoadInput)
    requires Loaded(env, mode, s, l).result.None?
    ensures var s', g := Loaded(env, mode, s, l).session, l.build.app;
            && s'.thread.initial == s.thread.initial
            && s'.thread.apps == s.thread.apps + (if env.listField.Present? && g !in s.thread.apps then [g] else [])
            && s'.active == (if l.callOnCreate then s else ActiveClosed(env, s)).active
            && BridgeClosed(env, s') == Session(s'.thread, None)
  {
  }

  /** DUAL does not run both loaders: it is AUTO. */
  lemma {:induction false} DualIsAuto(env: Env, s: Session, l: LoadInput)
    ensures Loaded(env, DUAL, s, l) == Loaded(env, AUTO, s, l)
  {
  }

  // ---- The metrics ----

  lemma {:induction false} MetricsConcat(a: seq<LoadEvent>, b: seq<LoadEvent>)
    ensures MetricsOf(a + b) ==
            var m, n := MetricsOf(a), MetricsOf(b);
            Metrics(m.v2Attempted || n.v2Attempted, m.v2Succeeded || n.v2Succeeded,
                    m.v1Attempted || n.v1Attempted, m.v1Succeeded || n.v1Succeeded,
                    m.fallbackTriggered || n.fallbackTriggered, m.eventCount + n.eventCount)
  {
    var all := a + b;
    assert forall i :: 0 <= i < |a| ==> all[i] == a[i];
    assert forall i :: 0 <= i < |b| ==> all[|a| + i] == b[i];
  }

  lemma {:induction false} V2Metrics(env: Env, s: Session, l: LoadInput)
    ensures var o := LoadedV2(env, s, l);
            o.result.Some? ==>
              MetricsOf(o.result.value.events) == Metrics(true, o.result.value.success, false, false, false, 2)
              && o.result.value.source == if o.result.value.success then V2 else NoSource
  {
    var o := LoadedV2(env, s, l);
    if o.result.Some? && o.result.value.success {
      assert o.result.value.events[1].V2Success?;
    }
  }

  lemma {:induction false} V1Metrics(s: Session, l: LoadInput)
    ensures var r := LoadedV1(s, l).result.value;
            && MetricsOf(r.events) == Metrics(false, false, !l.sandboxed, r.success, false, if l.sandboxed then 1 else 2)
            && r.source == if r.success then V1 else NoSource
  {
    var r := LoadedV1(s, l).result.value;
    if r.success {
      assert r.events[1].V1Success?;
    }
  }

  /** The flags of a result agree with what happened. */
  lemma {:induction false} MetricsTellTheLoad(env: Env, mode: Mode, s: Session, l: LoadInput)
    requires Loaded(env, mode, s, l).result.Some?
    ensures var r := Loaded(env, mode, s, l).result.value;
            var m := MetricsOf(r.events);
            && (m.v2Attempted <==> mode != V1_ONLY)
            && (m.v2Succeeded <==> r.source == V2)
            && (m.v1Attempted <==> !l.sandboxed && !m.v2Succeeded && mode != V2_ONLY)
            && (m.v1Succeeded <==> r.source == V1)
            && (m.fallbackTriggered <==> mode in {AUTO, DUAL} && !m.v2Succeeded)
            && (r.success <==> m.v1Succeeded || m.v2Succeeded)
  {
    var v2 := LoadedV2(env, s, l);
    V2Metrics(env, s, l);
    V1Metrics(s, l);
    V1Metrics(v2.session, l);
    if mode in {AUTO, DUAL} && !v2.result.value.success {
      var before, after := v2.result.value.events, LoadedV1(v2.session, l).result.value.events;
      MetricsConcat(before, [FallbackTriggered]);
      MetricsConcat(before + [FallbackTriggered], after);
    }
  }

  // ---- And exactly then ----

  /** Every run of sandboxed loads ends, after a close of the bridge, with the thread as the host had it. */
  ghost predicate AlwaysRestores(env: Env, h: HostApps) {
    forall es: seq<Event> :: AllowedRun(env, Start(h), es) ==>
                               BridgeClosed(env, Run(env, Start(h), es).session).thread == Thread(h.initial, h.apps)
  }

  lemma {:induction false} NewApp(used: set<App>) returns (g: App)
    ensures forall a :: a in used ==> a < g
    decreases |used|
  {
    if used == {} {
      g := 0;
    } else {
      var a :| a in used;
      var g' := NewApp(used - {a});
      g := if a < g' then g' else a + 1;
      assert used == (used - {a}) + {a};
    }
  }

  /** One load of a new guest, when the fields cannot be restored: closing leaves the guest behind. */
  lemma {:induction false} LeftBehind(env: Env, h: HostApps, g: App)
    requires !Restorable(env) && g !in Start(h).used
    ensures var es := [Load(LoadInput(true, false, Built(g), true, 0, V1Outcome(false, 0, Thread(0, []))))];
            && AllowedRun(env, Start(h), es)
            && BridgeClosed(env, Run(env, Start(h), es).session).thread != Thread(h.initial, h.apps)
  {
  }

  /** The host is restored after every run if and only if the fields can be reached as Restorable says. */
  lemma {:induction false} AlwaysRestoresIff(env: Env, h: HostApps)
    requires HostIs(env, h)
    ensures AlwaysRestores(env, h) <==> Restorable(env)
  {
    if Restorable(env) {
      forall es: seq<Event> | AllowedRun(env, Start(h), es)
        ensures BridgeClosed(env, Run(env, Start(h), es).session).thread == Thread(h.initial, h.apps)
      {
        RunFromHost(env, h, es);
      }
    } else {
      var g := NewApp(Start(h).used);
      LeftBehind(env, h, g);
    }
  }
}
