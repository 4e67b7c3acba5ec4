/**
 * The gateway supervisor's run loop interleaved with start, reload, stop and child
 * events (desktop/src/gateway-supervisor.ts).  Each step is the code between two
 * awaits of one asynchronous function; steps of different functions interleave freely.
 */
module Supervisor {
  import opened Common

  datatype Config = Config(maxAttempts: int, initialBackoffMs: nat, maxBackoffMs: nat)

  // ----- Backoff -----

  function Pow2(n: nat): (r: nat)
    ensures r >= 1
  {
    if n == 0 then 1 else 2 * Pow2(n - 1)
  }

  function BackoffMs(attempt: int, initialMs: nat, maxMs: nat): nat {
    var exp := if attempt - 1 > 0 then attempt - 1 else 0;
    var ms := initialMs * Pow2(exp);
    if maxMs <= ms then maxMs else ms
  }

  lemma {:induction false} Pow2Monotone(m: nat, n: nat)
    requires m <= n
    ensures Pow2(m) <= Pow2(n)
    decreases n
  {
    if m < n {
      Pow2Monotone(m, n - 1);
    }
  }

  lemma ScaleMonotone(k: nat, a: nat, b: nat)
    requires a <= b
    ensures k * a <= k * b
  {
  }

  /** Later attempts never wait less, and nothing waits longer than the cap. */
  lemma BackoffGrowsToCap(a: int, b: int, initialMs: nat, maxMs: nat)
    requires a <= b
    ensures BackoffMs(a, initialMs, maxMs) <= BackoffMs(b, initialMs, maxMs) <= maxMs
  {
    var m, n := if a - 1 > 0 then a - 1 else 0, if b - 1 > 0 then b - 1 else 0;
    Pow2Monotone(m, n);
    ScaleMonotone(initialMs, Pow2(m), Pow2(n));
  }

  // ----- State -----

  /**
   * A spawned process: it may run, be asked to terminate, and exit; `loop` is the run
   * loop that spawned it.  A process that failed to start never runs and never exits.
   */
  datatype Child = Child(live: bool, signalled: bool, exitSeen: bool, loop: nat)

  datatype Status = Starting | Ready | Restarting(attempt: int) | Failed

  /** Where the run loop is suspended. */
  datatype Pc =
    | Idle
    | Top
    | Preparing
    | Spawning
    | HealthTop
    | HealthFetch
    | HealthSleep
    | Healthy
    | Watching(on: Option<nat>)
    | Cleaning(on: Option<nat>)
    | BackingOff
    | Finished

  /** A pending `reload` or `stop` call; `took` is the child its `terminateChild` is draining. */
  datatype Task =
    | Reloading(took: Option<nat>)
    | Stopping(took: Option<nat>, called: nat)
    | AwaitingLoop(loop: nat, called: nat)
    | Stopped(called: nat)
    | Reloaded

  datatype State = State(
    child: Option<nat>,
    children: seq<Child>,
    stopping: bool,
    reloading: bool,
    attempt: int,
    status: Status,
    pc: Pc,
    loop: nat,
    tasks: map<nat, Task>,
    past: History)

  /**
   * A record of the run: effective reloads, starts made with the budget spent, iterations
   * begun within and beyond the budget, and the delays slept since the last reload.
   */
  datatype History = History(reloads: nat, lateStarts: nat, within: nat, beyond: nat, delays: seq<nat>)

  const INITIAL := State(None, [], false, false, 0, Starting, Idle, 0, map[], History(0, 0, 0, 0, []))

  datatype Step =
    | Start
    | Reload(t: nat)
    | ReloadDrained(t: nat)
    | Stop(t: nat)
    | StopDrained(t: nat)
    | StopResolved(t: nat)
    | ChildExit(c: nat)
    | LoopTop
    | PrepareFails
    | Spawn(runs: bool)
    | SpawnSettles(ok: bool)
    | HealthCheck
    | HealthAnswer(ok: bool, expired: bool)
    | SleepEnds
    | BecomeReady
    | ExitObserved
    | CleanupDone
    | ClearLoop

  // ----- Pieces of code shared by several steps -----

  /** A drain ends when its child no longer runs (SIGKILL is effective) or there was none. */
  predicate Drained(s: State, took: Option<nat>) {
    took.Some? && took.value < |s.children| ==> !s.children[took.value].live
  }

  /** The child that `terminateChild` will drain: the current one, unless its exit was seen. */
  function Takes(s: State): Option<nat> {
    if s.child.Some? && s.child.value < |s.children| && !s.children[s.child.value].exitSeen then s.child else None
  }

  /** `terminateChild` up to its first await: disown the child and send SIGTERM. */
  function Disown(s: State): State {
    var took := Takes(s);
    if took.None? then s.(child := None)
    else s.(child := None, children := s.children[took.value := s.children[took.value].(signalled := true)])
  }

  function Wake(s: State): State {
    if s.pc == BackingOff then s.(pc := Top) else if s.pc == HealthSleep then s.(pc := HealthTop) else s
  }

  function Catch(s: State): State {
    Disown(s).(pc := Cleaning(Takes(s)))
  }

  /** The end of an iteration whose child exited or failed, with the reload shortcut not taken. */
  function EndIteration(c: Config, s: State): State {
    if s.stopping then s.(pc := Finished)
    else if s.attempt >= c.maxAttempts then s.(pc := Finished, status := Failed)
    else s.(
      pc := BackingOff, status := Restarting(s.attempt),
      past := s.past.(delays := s.past.delays + [BackoffMs(s.attempt, c.initialBackoffMs, c.maxBackoffMs)]))
  }

  function Continue(s: State): State {
    s.(reloading := false, status := Starting, pc := Top)
  }

  /** One spawn is always attempted, even when `maxAttempts` is not positive. */
  function Budget(c: Config): nat {
    if c.maxAttempts < 1 then 1 else c.maxAttempts
  }

  // ----- Steps -----

  predicate Enabled(c: Config, s: State, step: Step) {
    match step
    case Start => true
    case Reload(t) => t !in s.tasks
    case ReloadDrained(t) => t in s.tasks && s.tasks[t].Reloading? && Drained(s, s.tasks[t].took)
    case Stop(t) => t !in s.tasks
    case StopDrained(t) => t in s.tasks && s.tasks[t].Stopping? && Drained(s, s.tasks[t].took)
    case StopResolved(t) => t in s.tasks && s.tasks[t].AwaitingLoop? && (s.pc == Idle || s.loop > s.tasks[t].loop)
    case ChildExit(k) => k < |s.children| && s.children[k].live
    case LoopTop => s.pc == Top
    case PrepareFails => s.pc == Preparing
    case Spawn(_) => s.pc == Preparing
    case SpawnSettles(_) => s.pc == Spawning
    case HealthCheck => s.pc == HealthTop
    case HealthAnswer(_, _) => s.pc == HealthFetch
    case SleepEnds => s.pc == BackingOff || s.pc == HealthSleep
    case BecomeReady => s.pc == Healthy
    case ExitObserved =>
      s.pc.Watching? && (s.pc.on.None? || (s.pc.on.value < |s.children| && s.children[s.pc.on.value].exitSeen))
    case CleanupDone => s.pc.Cleaning? && Drained(s, s.pc.on)
    case ClearLoop => s.pc == Finished
  }

  function Do(c: Config, s: State, step: Step): State
    requires Enabled(c, s, step)
  {
    match step
    case Start =>
      if s.pc != Idle then s
      else s.(
        stopping := false, status := Starting, pc := Top, loop := s.loop + 1,
        past := s.past.(lateStarts := s.past.lateStarts + if s.attempt >= Budget(c) then 1 else 0))
    case Reload(t) =>
      if s.stopping || s.pc == Idle then s.(tasks := s.tasks[t := Reloaded])
      else Disown(s).(
        reloading := true, attempt := 0, tasks := s.tasks[t := Reloading(Takes(s))],
        past := s.past.(reloads := s.past.reloads + 1, delays := []))
    case ReloadDrained(t) => Wake(s).(tasks := s.tasks[t := Reloaded])
    case Stop(t) =>
      Disown(Wake(s)).(stopping := true, reloading := false, tasks := s.tasks[t := Stopping(Takes(s), s.loop)])
    case StopDrained(t) =>
      var called := s.tasks[t].called;
      s.(tasks := s.tasks[t := if s.pc == Idle then Stopped(called) else AwaitingLoop(s.loop, called)])
    case StopResolved(t) => s.(tasks := s.tasks[t := Stopped(s.tasks[t].called)])
    case ChildExit(k) => s.(children := s.children[k := s.children[k].(live := false, exitSeen := true)])
    case LoopTop =>
      if s.stopping then s.(pc := Finished)
      else s.(
        attempt := s.attempt + 1, pc := Preparing,
        past := if s.attempt < Budget(c) then s.past.(within := s.past.within + 1)
          else s.past.(beyond := s.past.beyond + 1))
    case PrepareFails => Catch(s)
    case Spawn(runs) =>
      s.(child := Some(|s.children|), children := s.children + [Child(runs, false, false, s.loop)], pc := Spawning)
    case SpawnSettles(ok) => if ok then s.(pc := HealthTop) else Catch(s)
    case HealthCheck =>
      if s.stopping then Catch(s)
      else if s.child.Some? && s.child.value < |s.children| && s.children[s.child.value].exitSeen then Catch(s)
      else s.(pc := HealthFetch)
    case HealthAnswer(ok, expired) =>
      if ok then s.(pc := Healthy) else if expired then Catch(s) else s.(pc := HealthSleep)
    case SleepEnds => Wake(s)
    case BecomeReady =>
      if s.stopping then s.(pc := Finished) else s.(status := Ready, pc := Watching(Takes(s)))
    case ExitObserved =>
      if s.stopping then s.(pc := Finished)
      else if s.reloading then Continue(s)
      else EndIteration(c, s)
    case CleanupDone =>
      if s.reloading && !s.stopping then Continue(s) else EndIteration(c, s)
    case ClearLoop => s.(pc := Idle)
  }

  predicate Legal(c: Config, s: State, run: seq<Step>)
    decreases |run|
  {
    run != [] ==> Enabled(c, s, run[0]) && Legal(c, Do(c, s, run[0]), run[1..])
  }

  function Exec(c: Config, s: State, run: seq<Step>): State
    requires Legal(c, s, run)
    decreases |run|
  {
    if run == [] then s else Exec(c, Do(c, s, run[0]), run[1..])
  }
}
