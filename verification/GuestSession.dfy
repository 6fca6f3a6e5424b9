/**
 The guest runtime and the bridge that loads it.  Binding puts the guest's
 application into the process's activity thread (the initial application and
 the list of all applications); closing takes it out and restores the host.
 */
module GuestSession {
  import opened Options

  /** The identity of an Application object. */
  type App = nat

  /** How reflection reaches a field: it can be used, it is not there, or every access to it throws. */
  datatype Access = Present | Absent | Throws

  /** What stays fixed for the life of the process; host is the host application, when the context yields one. */
  datatype Env = Env(attached: bool, initialField: Access, listField: Access, host: Option<App>)

  /** The two fields of the activity thread. */
  datatype Thread = Thread(initial: App, apps: seq<App>)

  datatype RuntimeState = INITIALIZING | ACTIVE | SUSPENDED | DESTROYED

  datatype Runtime = Runtime(app: App, baseAttached: bool, state: RuntimeState)

  // ---- Bind and close on values ----

  /** A bind succeeds, is refused, or ends in an exception after its passes. */
  datatype BindStatus = Succeeded | Refused | Threw

  datatype BindResult = BindResult(thread: Thread, runtime: Runtime, status: BindStatus)

  /**
   The three passes of a bind; resourcesOk says whether the guest's resources can be touched.
   The passes are guarded, but the diagnostic read of the initial application after them is not.
   */
  function Bound(env: Env, t: Thread, r: Runtime, resourcesOk: bool): BindResult {
    if !env.attached || !r.baseAttached then BindResult(t, r, Refused)
    else
      var initial := if env.initialField.Present? then r.app else t.initial;
      var apps := if env.listField.Present? && r.app !in t.apps then t.apps + [r.app] else t.apps;
      var ok := env.initialField.Present? || !env.listField.Throws? || resourcesOk;
      BindResult(Thread(initial, apps), if ok then r.(state := ACTIVE) else r,
                 if env.initialField.Throws? then Threw else if ok then Succeeded else Refused)
  }

  /** The list without the first occurrence of app. */
  function Removed(apps: seq<App>, app: App): seq<App> {
    if apps == [] then []
    else if apps[0] == app then apps[1..]
    else [apps[0]] + Removed(apps[1..], app)
  }

  /** Closing: a throw at the first field skips the rest of the clean-up. */
  function ClosedThread(env: Env, t: Thread, r: Runtime): Thread {
    if r.state == DESTROYED || !env.attached || env.initialField.Throws? then t
    else
      Thread(
        if env.initialField.Present? && t.initial == r.app && env.host.Some? then env.host.value else t.initial,
        if env.listField.Present? then Removed(t.apps, r.app) else t.apps)
  }

  // ---- Loading on values ----

  datatype Mode = AUTO | V2_ONLY | V1_ONLY | DUAL

  datatype LoadEvent =
    | V2Start
    | V2Success(installed: nat)
    | V2Failure
    | V1Start
    | V1Success(installed: nat)
    | V1Failure
    | FallbackTriggered

  datatype Source = V2 | V1 | NoSource

  /** Building fails, also when no base context can be attached, or instantiates a new application with one. */
  datatype BuildOutcome = BuildFailed | Built(app: App)

  /** What the old loader does, should it be reached: its success and the activity thread it leaves. */
  datatype V1Outcome = V1Outcome(success: bool, installed: nat, thread: Thread)

  datatype LoadInput = LoadInput(
    sandboxed: bool,
    callOnCreate: bool,
    build: BuildOutcome,
    resourcesOk: bool,
    installed: nat,
    v1: V1Outcome)

  datatype Session = Session(thread: Thread, active: Option<Runtime>)

  datatype LoadResult = LoadResult(success: bool, source: Source, installed: nat, events: seq<LoadEvent>)

  datatype Metrics = Metrics(
    v2Attempted: bool,
    v2Succeeded: bool,
    v1Attempted: bool,
    v1Succeeded: bool,
    fallbackTriggered: bool,
    eventCount: nat)

  /** The metrics that a load attaches to its result. */
  function MetricsOf(events: seq<LoadEvent>): Metrics {
    Metrics(
      V2Start in events,
      exists i :: 0 <= i < |events| && events[i].V2Success?,
      V1Start in events,
      exists i :: 0 <= i < |events| && events[i].V1Success?,
      FallbackTriggered in events,
      |events|)
  }

  /** The session afterwards and the result; no result when the load ended in an exception. */
  datatype LoadOutcome = LoadOutcome(session: Session, result: Option<LoadResult>)

  /** The session after the active runtime, if any, was closed; the bridge keeps pointing at it. */
  function ActiveClosed(env: Env, s: Session): Session {
    if s.active.None? then s
    else Session(ClosedThread(env, s.thread, s.active.value), Some(s.active.value.(state := DESTROYED)))
  }

  const V2_FAILED := LoadResult(false, NoSource, 0, [V2Start, V2Failure])

  /** From the second bind on: the previous runtime is closed and created is bound in its place. */
  function BoundInPlace(env: Env, s: Session, created: Runtime, l: LoadInput): LoadOutcome {
    var s1 := ActiveClosed(env, s);
    var b := Bound(env, s1.thread, created, l.resourcesOk);
    match b.status
    case Threw => LoadOutcome(s1.(thread := b.thread), None)
    case Refused => LoadOutcome(s1.(thread := ClosedThread(env, b.thread, b.runtime)), Some(V2_FAILED))
    case Succeeded =>
      LoadOutcome(Session(b.thread, Some(b.runtime)),
                  Some(LoadResult(true, V2, l.installed, [V2Start, V2Success(l.installed)])))
  }

  function LoadedV2(env: Env, s: Session, l: LoadInput): LoadOutcome {
    if l.build.BuildFailed? then LoadOutcome(s, Some(V2_FAILED))
    else
      var created := Runtime(l.build.app, true, INITIALIZING);
      if !l.callOnCreate then BoundInPlace(env, s, created, l)
      else
        // the builder binds once by itself when asked to start the application
        var b := Bound(env, s.thread, created, l.resourcesOk);
        if b.status.Threw? then LoadOutcome(s.(thread := b.thread), None)
        else BoundInPlace(env, s.(thread := b.thread), b.runtime, l)
  }

  /** The old loader has no sandbox support, so a sandboxed load is refused before it is reached. */
  function LoadedV1(s: Session, l: LoadInput): LoadOutcome {
    if l.sandboxed then LoadOutcome(s, Some(LoadResult(false, NoSource, 0, [V1Failure])))
    else
      var v := l.v1;
      LoadOutcome(s.(thread := v.thread),
                  Some(LoadResult(v.success, if v.success then V1 else NoSource, v.installed,
                                  [V1Start, if v.success then V1Success(v.installed) else V1Failure])))
  }

  function Loaded(env: Env, mode: Mode, s: Session, l: LoadInput): LoadOutcome {
    if mode == V1_ONLY then LoadedV1(s, l)
    else
      var v2 := LoadedV2(env, s, l);
      if v2.result.None? || v2.result.value.success || mode == V2_ONLY then v2
      else
        var v1 := LoadedV1(v2.session, l);
        LoadOutcome(v1.session, Some(v1.result.value.(events := v2.result.value.events + [FallbackTriggered] + v1.result.value.events)))
  }

  function BridgeClosed(env: Env, s: Session): Session {
    ActiveClosed(env, s).(active := None)
  }

  // ---- The objects ----

  class ActivityThread {
    var initial: App
    var apps: seq<App>

    ghost function Contents(): Thread
      reads this
    {
      Thread(initial, apps)
    }
  }

  class GuestRuntime {
    const env: Env
    const at: ActivityThread
    const app: App
    const baseAttached: bool
    var state: RuntimeState

    ghost function Contents(): Runtime
      reads this`state
    {
      Runtime(app, baseAttached, state)
    }

    constructor (env: Env, at: ActivityThread, app: App)
      ensures this.env == env && this.at == at && Contents() == Runtime(app, true, INITIALIZING)
    {
      this.env, this.at, this.app := env, at, app;
      baseAttached, state := true, INITIALIZING;
    }

    method BindToActivityThread(resourcesOk: bool) returns (status: BindStatus)
      modifies this`state, at
      ensures BindResult(at.Contents(), Contents(), status) == Bound(env, old(at.Contents()), old(Contents()), resourcesOk)
      ensures !env.attached || !baseAttached ==>
                status == Refused && state == old(state) && at.initial == old(at.initial) && at.apps == old(at.apps)
      ensures env.attached && baseAttached ==>
                && at.initial == (if env.initialField == Present then app else old(at.initial))
                && at.apps == old(at.apps) + (if env.listField == Present && app !in old(at.apps) then [app] else [])
                && state == (if env.initialField == Present || env.listField != Throws || resourcesOk then ACTIVE else old(state))
                && status == (if env.initialField == Throws then Threw
                              else if env.initialField == Present || env.listField != Throws || resourcesOk then Succeeded
                              else Refused)
    {
      if !env.attached {
        return Refused;
      }
      if !baseAttached {
        return Refused;
      }
      var anyOk := false;
      if env.initialField.Present? {
        at.initial := app;
        anyOk := true;
      }
      if !env.listField.Throws? {
        if env.listField.Present? && app !in at.apps {
          at.apps := at.apps + [app];
        }
        anyOk := true;
      }
      anyOk := anyOk || resourcesOk;
      if anyOk {
        state := ACTIVE;
      }
      if env.initialField.Throws? {
        return Threw;
      }
      status := if anyOk then Succeeded else Refused;
    }

    method Suspend()
      modifies this`state
      ensures state == if old(state) == ACTIVE then SUSPENDED else old(state)
    {
      if state == ACTIVE {
        state := SUSPENDED;
      }
    }

    method Resume()
      modifies this`state
      ensures state == if old(state) == SUSPENDED then ACTIVE else old(state)
    {
      if state == SUSPENDED {
        state := ACTIVE;
      }
    }

    method Close()
      modifies this`state, at
      ensures at.Contents() == ClosedThread(env, old(at.Contents()), old(Contents()))
      ensures state == DESTROYED
      ensures old(state) == DESTROYED || !env.attached || env.initialField == Throws ==>
                at.initial == old(at.initial) && at.apps == old(at.apps)
      ensures old(state) != DESTROYED && env.attached && env.initialField != Throws ==>
                && at.initial == (if env.initialField == Present && old(at.initial) == app && env.host.Some?
                                  then env.host.value else old(at.initial))
                && at.apps == (if env.listField == Present then Removed(old(at.apps), app) else old(at.apps))
    {
      if state == DESTROYED {
        return;
      }
      if env.attached && !env.initialField.Throws? {
        if env.initialField.Present? && at.initial == app && env.host.Some? {
          at.initial := env.host.value;
        }
        if env.listField.Present? {
          at.apps := Removed(at.apps, app);
        }
      }
      state := DESTROYED;
    }
  }

  class GuestRuntimeBridge {
    const env: Env
    const at: ActivityThread
    var mode: Mode
    var lastResult: Option<(LoadResult, Metrics)>
    var activeRuntime: GuestRuntime?

    ghost predicate Valid()
      reads this, activeRuntime
    {
      activeRuntime != null ==> activeRuntime.env == env && activeRuntime.at == at
    }

    ghost function Contents(): Session
      reads this, at, activeRuntime
    {
      Session(at.Contents(), if activeRuntime == null then None else Some(activeRuntime.Contents()))
    }

    constructor (env: Env, at: ActivityThread)
      ensures this.env == env && this.at == at && mode == AUTO
      ensures lastResult == None && activeRuntime == null
      ensures Valid()
    {
      this.env, this.at := env, at;
      mode, lastResult, activeRuntime := AUTO, None, null;
    }

    method LoadV2(l: LoadInput) returns (r: Option<LoadResult>)
      requires Valid()
      modifies this`activeRuntime, at, activeRuntime
      ensures Valid()
      ensures LoadOutcome(Contents(), r) == LoadedV2(env, old(Contents()), l)
    {
      var events := [V2Start];
      assert events + [V2Failure] == [V2Start, V2Failure];
      if l.build.BuildFailed? {
        return Some(LoadResult(false, NoSource, 0, events + [V2Failure]));
      }
      var runtime := new GuestRuntime(env, at, l.build.app);
      if l.callOnCreate {
        var first := runtime.BindToActivityThread(l.resourcesOk);
        if first.Threw? {
          return None;
        }
      }
      if activeRuntime != null {
        activeRuntime.Close();
      }
      var bound := runtime.BindToActivityThread(l.resourcesOk);
      if bound.Threw? {
        return None;
      }
      if bound.Refused? {
        runtime.Close();
        return Some(LoadResult(false, NoSource, 0, events + [V2Failure]));
      }
      activeRuntime := runtime;
      assert events + [V2Success(l.installed)] == [V2Start, V2Success(l.installed)];
      return Some(LoadResult(true, V2, l.installed, events + [V2Success(l.installed)]));
    }

    method LoadV1(l: LoadInput) returns (r: Option<LoadResult>)
      requires Valid()
      modifies at
      ensures Valid()
      ensures LoadOutcome(Contents(), r) == LoadedV1(old(Contents()), l)
    {
      if l.sandboxed {
        return Some(LoadResult(false, NoSource, 0, [V1Failure]));
      }
      var events := [V1Start];
      at.initial, at.apps := l.v1.thread.initial, l.v1.thread.apps;
      events := events + [if l.v1.success then V1Success(l.v1.installed) else V1Failure];
      assert events == [V1Start, if l.v1.success then V1Success(l.v1.installed) else V1Failure];
      return Some(LoadResult(l.v1.success, if l.v1.success then V1 else NoSource, l.v1.installed, events));
    }

    /** AUTO and DUAL run the same code: the new runtime first, then the old loader. */
    method LoadWithFallback(l: LoadInput) returns (r: Option<LoadResult>)
      requires Valid()
      modifies this`activeRuntime, at, activeRuntime
      ensures Valid()
      ensures LoadOutcome(Contents(), r) == Loaded(env, AUTO, old(Contents()), l)
    {
      r := LoadV2(l);
      if r.Some? && !r.value.success {
        var events := r.value.events + [FallbackTriggered];
        r := LoadV1(l);
        r := Some(r.value.(events := events + r.value.events));
      }
    }

    method Load(l: LoadInput) returns (r: Option<LoadResult>)
      requires Valid()
      modifies this`activeRuntime, this`lastResult, at, activeRuntime
      ensures Valid()
      ensures LoadOutcome(Contents(), r) == Loaded(env, mode, old(Contents()), l)
      ensures lastResult == if r.Some? then Some((r.value, MetricsOf(r.value.events))) else old(lastResult)
    {
      match mode {
        case V2_ONLY => r := LoadV2(l);
        case V1_ONLY => r := LoadV1(l);
        case _ => r := LoadWithFallback(l);
      }
      if r.Some? {
        lastResult := Some((r.value, MetricsOf(r.value.events)));
      }
    }

    method Close()
      requires Valid()
      modifies this`activeRuntime, this`lastResult, at, activeRuntime
      ensures Valid() && lastResult == None
      ensures Contents() == BridgeClosed(env, old(Contents()))
    {
      if activeRuntime != null {
        activeRuntime.Close();
      }
      activeRuntime := null;
      lastResult := None;
    }
  }
}
