/** When the supervised gateway counts as ready, and what the run loop does next at each turn. */
module SupervisorHealth {
  import opened Common
  import opened Supervisor
  import opened SupervisorRuns

  // ----- Runs, step by step from their end -----

  lemma {:induction false} Snoc(c: Config, s: State, run: seq<Step>, step: Step)
    ensures Legal(c, s, run + [step]) <==> Legal(c, s, run) && Enabled(c, Exec(c, s, run), step)
    ensures Legal(c, s, run + [step]) ==> Exec(c, s, run + [step]) == Do(c, Exec(c, s, run), step)
    decreases |run|
  {
    var all := run + [step];
    if run == [] {
      assert all[1..] == [];
    } else {
      assert all[1..] == run[1..] + [step] && all[0] == run[0];
      if Enabled(c, s, run[0]) {
        Snoc(c, Do(c, s, run[0]), run[1..], step);
      }
    }
  }

  lemma {:induction false} Concat(c: Config, s: State, first: seq<Step>, second: seq<Step>)
    requires Legal(c, s, first + second)
    ensures Legal(c, s, first) && Legal(c, Exec(c, s, first), second)
    ensures Exec(c, s, first + second) == Exec(c, Exec(c, s, first), second)
    decreases |first|
  {
    if first == [] {
      assert first + second == second;
    } else {
      assert (first + second)[1..] == first[1..] + second && (first + second)[0] == first[0];
      Concat(c, Do(c, s, first[0]), first[1..], second);
    }
  }

  // ----- Ready means a good answer -----

  /** The last health answer since the last iteration began was a good one. */
  predicate LastAnswerGood(run: seq<Step>) {
    if run == [] then false
    else match run[|run| - 1]
      case HealthAnswer(ok, _) => ok
      case LoopTop => false
      case _ => LastAnswerGood(run[..|run| - 1])
  }

  predicate ReadyInv(s: State, good: bool) {
    && (s.pc.Healthy? || s.pc.Watching? ==> good)
    && (s.status.Ready? ==> good && (s.pc.Watching? || s.pc.Finished? || s.pc.Idle?))
  }

  lemma ReadyStep(c: Config, s: State, step: Step, good: bool)
    requires ReadyInv(s, good) && Enabled(c, s, step)
    ensures ReadyInv(Do(c, s, step), if step.HealthAnswer? then step.ok else !step.LoopTop? && good)
  {
  }

  lemma {:induction false} ReadyRun(c: Config, run: seq<Step>)
    requires Legal(c, INITIAL, run)
    ensures ReadyInv(Exec(c, INITIAL, run), LastAnswerGood(run))
    decreases |run|
  {
    if run != [] {
      var front, step := run[..|run| - 1], run[|run| - 1];
      assert run == front + [step];
      Snoc(c, INITIAL, front, step);
      ReadyRun(c, front);
      ReadyStep(c, Exec(c, INITIAL, front), step, LastAnswerGood(front));
    }
  }

  /**
   * At every point of every run: the supervisor reports ready only if the last health answer of
   * the iteration was good.
   */
  lemma ReadyMeansHealthy(c: Config, run: seq<Step>)
    requires Legal(c, INITIAL, run)
    ensures Exec(c, INITIAL, run).status == Ready ==> LastAnswerGood(run)
  {
    ReadyRun(c, run);
  }

  // ----- What comes next -----

  /** Calls and child events, without a `stop`. */
  predicate Calm(steps: seq<Step>) {
    forall i :: 0 <= i < |steps| ==> External(steps[i]) && !steps[i].Stop?
  }

  /** Sleeping loops may be woken; otherwise nothing outside moves the loop. */
  predicate AtOrWoken(was: Pc, pc: Pc) {
    pc == was || (was.HealthSleep? && pc.HealthTop?) || (was.BackingOff? && pc.Top?)
  }

  lemma CalmStep(c: Config, s: State, step: Step)
    requires Enabled(c, s, step) && External(step) && !step.Stop? && !s.pc.Idle?
    ensures var t := Do(c, s, step);
            && AtOrWoken(s.pc, t.pc) && t.stopping == s.stopping && t.status == s.status
            && |t.children| == |s.children|
            && (t.child == s.child || t.child == None)
            && (forall k :: 0 <= k < |s.children| && s.children[k].exitSeen ==> t.children[k].exitSeen)
  {
  }

  lemma {:induction false} CalmKeeps(c: Config, s: State, steps: seq<Step>)
    requires Legal(c, s, steps) && Calm(steps) && !s.pc.Idle?
    ensures var t := Exec(c, s, steps);
            AtOrWoken(s.pc, t.pc) && t.stopping == s.stopping && t.status == s.status && |t.children| == |s.children|
    decreases |steps|
  {
    if steps != [] {
      CalmStep(c, s, steps[0]);
      assert forall i :: 0 <= i < |steps[1..]| ==> steps[1..][i] == steps[i + 1];
      CalmKeeps(c, Do(c, s, steps[0]), steps[1..]);
    }
  }

  /** `step` is the only step the run loop can take. */
  ghost predicate OnlyNext(c: Config, s: State, next: Step) {
    forall step :: !External(step) && Enabled(c, s, step) ==> step == next
  }

  /** The state after a legal run, a health answer, and calls and child events other than `stop`. */
  lemma AfterAnswer(c: Config, before: seq<Step>, ok: bool, expired: bool, between: seq<Step>)
    returns (s: State, t: State)
    requires Legal(c, INITIAL, before + [HealthAnswer(ok, expired)] + between) && Calm(between)
    ensures Legal(c, INITIAL, before) && s == Exec(c, INITIAL, before) && s.pc.HealthFetch?
    ensures t == Exec(c, INITIAL, before + [HealthAnswer(ok, expired)] + between)
    ensures t.stopping == s.stopping
    ensures AtOrWoken(Do(c, s, HealthAnswer(ok, expired)).pc, t.pc)
  {
    var answer := HealthAnswer(ok, expired);
    Concat(c, INITIAL, before + [answer], between);
    Snoc(c, INITIAL, before, answer);
    s := Exec(c, INITIAL, before);
    CalmKeeps(c, Do(c, s, answer), between);
    t := Exec(c, INITIAL, before + [answer] + between);
  }

  /** A good answer not followed by a stop makes the supervisor ready, whatever else happens meanwhile. */
  lemma GoodAnswerLeadsToReady(c: Config, before: seq<Step>, expired: bool, between: seq<Step>)
    requires Legal(c, INITIAL, before + [HealthAnswer(true, expired)] + between) && Calm(between)
    requires !Exec(c, INITIAL, before + [HealthAnswer(true, expired)] + between).stopping
    ensures var t := Exec(c, INITIAL, before + [HealthAnswer(true, expired)] + between);
            Enabled(c, t, BecomeReady) && OnlyNext(c, t, BecomeReady) && Do(c, t, BecomeReady).status == Ready
  {
    var s, t := AfterAnswer(c, before, true, expired, between);
  }

  /** The child the supervisor holds has been seen to exit. */
  predicate ExitSeen(s: State) {
    s.child.Some? && s.child.value < |s.children| && s.children[s.child.value].exitSeen
  }

  /** From a sleep between polls, or its end, the loop goes on to a check, and from there to the next answer. */
  ghost predicate PollsNext(c: Config, t: State) {
    && (t.pc.HealthSleep? ==> OnlyNext(c, t, SleepEnds) && Enabled(c, t, SleepEnds))
    && var awake := if t.pc.HealthSleep? then Wake(t) else t;
       && (t.pc.HealthSleep? ==> Do(c, t, SleepEnds) == awake)
       && OnlyNext(c, awake, HealthCheck) && Enabled(c, awake, HealthCheck)
       && var u := Do(c, awake, HealthCheck);
          if ExitSeen(awake) then OnlyNext(c, u, CleanupDone)
          else forall ok, expired :: Enabled(c, u, HealthAnswer(ok, expired))
  }

  lemma SleepersPoll(c: Config, t: State)
    requires !t.stopping && (t.pc.HealthSleep? || t.pc.HealthTop?)
    ensures PollsNext(c, t)
  {
  }

  /** A bad answer in time leads to another poll, unless the child is seen to have exited. */
  lemma BadAnswerPollsAgain(c: Config, before: seq<Step>, between: seq<Step>)
    requires Legal(c, INITIAL, before + [HealthAnswer(false, false)] + between) && Calm(between)
    requires !Exec(c, INITIAL, before + [HealthAnswer(false, false)] + between).stopping
    ensures var t := Exec(c, INITIAL, before + [HealthAnswer(false, false)] + between);
            (t.pc.HealthSleep? || t.pc.HealthTop?) && PollsNext(c, t)
  {
    var s, t := AfterAnswer(c, before, false, false, between);
    SleepersPoll(c, t);
  }

  /** A bad answer after the deadline gives the child up: it is signalled, and the loop waits for its end. */
  lemma LateAnswerCleansUp(c: Config, before: seq<Step>)
    requires Legal(c, INITIAL, before + [HealthAnswer(false, true)])
    ensures Legal(c, INITIAL, before)
    ensures var s, t := Exec(c, INITIAL, before), Exec(c, INITIAL, before + [HealthAnswer(false, true)]);
            && OnlyNext(c, t, CleanupDone) && t.child == None && |t.children| == |s.children|
            && (s.child.Some? && s.child.value < |s.children| && !s.children[s.child.value].exitSeen ==>
                 && t.children[s.child.value].signalled
                 && (Enabled(c, t, CleanupDone) <==> !t.children[s.child.value].live))
  {
    Snoc(c, INITIAL, before, HealthAnswer(false, true));
  }

  /** The loop now watches the child that `s` held, and goes on exactly when that has exited. */
  ghost predicate WatchesChild(c: Config, s: State, t: State) {
    && OnlyNext(c, t, ExitObserved)
    && (Enabled(c, t, ExitObserved) <==>
         s.child.None? || (s.child.value < |s.children| ==> s.children[s.child.value].exitSeen))
  }

  lemma ReadyStepWatches(c: Config, s: State)
    requires s.pc.Healthy? && !s.stopping
    ensures var t := Do(c, s, BecomeReady); t.status == Ready && WatchesChild(c, s, t)
  {
  }

  /** A gateway that is ready is left alone until its own child has exited. */
  lemma ReadyUntilChildExits(c: Config, before: seq<Step>)
    requires Legal(c, INITIAL, before + [BecomeReady])
    ensures Legal(c, INITIAL, before)
    ensures var s, t := Exec(c, INITIAL, before), Exec(c, INITIAL, before + [BecomeReady]);
            && (s.stopping ==> OnlyNext(c, t, ClearLoop))
            && (!s.stopping ==> t.status == Ready && WatchesChild(c, s, t))
  {
    Snoc(c, INITIAL, before, BecomeReady);
    if !Exec(c, INITIAL, before).stopping {
      ReadyStepWatches(c, Exec(c, INITIAL, before));
    }
  }

  /** What the end of an iteration leads to. */
  ghost predicate Ends(c: Config, s: State, t: State) {
    && t.attempt == s.attempt && !t.reloading && t.child == s.child && t.children == s.children
    && (if s.reloading then
          t.status == Starting && OnlyNext(c, t, LoopTop) && t.past.delays == s.past.delays
        else if s.attempt >= c.maxAttempts then
          t.status == Failed && OnlyNext(c, t, ClearLoop) && t.past.delays == s.past.delays
        else
          && t.status == Restarting(s.attempt) && OnlyNext(c, t, SleepEnds)
          && t.past.delays == s.past.delays + [BackoffMs(s.attempt, c.initialBackoffMs, c.maxBackoffMs)])
  }

  lemma ExitEnds(c: Config, s: State)
    requires Enabled(c, s, ExitObserved) && !s.stopping
    ensures Ends(c, s, Do(c, s, ExitObserved))
  {
  }

  lemma CleanupEnds(c: Config, s: State)
    requires Enabled(c, s, CleanupDone) && !s.stopping
    ensures Ends(c, s, Do(c, s, CleanupDone))
  {
  }

  /**
   * How an iteration ends that nobody stops: a reload starts the next one at once; else the
   * last allowed attempt fails for good, and any other waits, twice as long each time up to
   * the cap, before the next.
   */
  lemma IterationEnds(c: Config, before: seq<Step>, step: Step)
    requires Legal(c, INITIAL, before + [step]) && (step.ExitObserved? || step.CleanupDone?)
    ensures Legal(c, INITIAL, before)
    ensures var s, t := Exec(c, INITIAL, before), Exec(c, INITIAL, before + [step]); s.stopping || Ends(c, s, t)
  {
    Snoc(c, INITIAL, before, step);
    var s := Exec(c, INITIAL, before);
    if !s.stopping {
      if step.ExitObserved? {
        ExitEnds(c, s);
      } else {
        CleanupEnds(c, s);
      }
    }
  }

  /** The backoff starts at the initial delay and doubles, both up to the cap. */
  lemma BackoffDoubles(attempt: int, initialMs: nat, maxMs: nat)
    ensures attempt <= 1 ==> BackoffMs(attempt, initialMs, maxMs) == if maxMs <= initialMs then maxMs else initialMs
    ensures attempt >= 1 ==>
              var twice := 2 * BackoffMs(attempt, initialMs, maxMs);
              BackoffMs(attempt + 1, initialMs, maxMs) == if maxMs <= twice then maxMs else twice
  {
    if attempt >= 1 {
      Doubling(initialMs, Pow2(attempt - 1));
    }
  }

  lemma Doubling(k: nat, p: nat)
    ensures k * (2 * p) == 2 * (k * p)
  {
  }

  /**
   * Starting an idle supervisor begins a loop with the failures counted so far; starting a
   * running one does nothing.
   */
  lemma StartTakesEffect(c: Config, before: seq<Step>)
    requires Legal(c, INITIAL, before + [Start])
    ensures Legal(c, INITIAL, before)
    ensures var s, t := Exec(c, INITIAL, before), Exec(c, INITIAL, before + [Start]);
            if !s.pc.Idle? then t == s
            else
              && t.status == Starting && !t.stopping && OnlyNext(c, t, LoopTop) && t.loop == s.loop + 1
              && t.attempt == s.attempt && t.child == s.child && t.children == s.children
  {
    Snoc(c, INITIAL, before, Start);
  }

  /** What an attempt goes through up to its first health check. */
  ghost predicate Launches(c: Config, s: State, step: Step, t: State) {
    match step
    case LoopTop =>
      if s.stopping then OnlyNext(c, t, ClearLoop) && t.attempt == s.attempt
      else
        && t.attempt == s.attempt + 1 && t.children == s.children
        && forall next :: !External(next) && Enabled(c, t, next) ==> next.PrepareFails? || next.Spawn?
    case PrepareFails => |t.children| == |s.children| && t.child == None && OnlyNext(c, t, CleanupDone)
    case Spawn(runs) =>
      && t.children == s.children + [Child(runs, false, false, s.loop)] && t.child == Some(|s.children|)
      && forall next :: !External(next) && Enabled(c, t, next) ==> next.SpawnSettles?
    case SpawnSettles(ok) => OnlyNext(c, t, if ok then HealthCheck else CleanupDone)
    case SleepEnds => s.pc.BackingOff? ==> OnlyNext(c, t, LoopTop) && t.attempt == s.attempt
    case _ => true
  }

  lemma BeginsLaunch(c: Config, s: State, step: Step)
    requires Enabled(c, s, step) && (step.LoopTop? || step.SleepEnds?)
    ensures Launches(c, s, step, Do(c, s, step))
  {
  }

  lemma SpawnLaunches(c: Config, s: State, step: Step)
    requires Enabled(c, s, step) && (step.Spawn? || step.SpawnSettles?)
    ensures Launches(c, s, step, Do(c, s, step))
  {
  }

  lemma FailedLaunch(c: Config, s: State)
    requires Enabled(c, s, PrepareFails)
    ensures Launches(c, s, PrepareFails, Do(c, s, PrepareFails))
  {
  }

  lemma AttemptsLaunch(c: Config, before: seq<Step>, step: Step)
    requires Legal(c, INITIAL, before + [step])
    ensures Legal(c, INITIAL, before)
    ensures Launches(c, Exec(c, INITIAL, before), step, Exec(c, INITIAL, before + [step]))
  {
    Snoc(c, INITIAL, before, step);
    var s := Exec(c, INITIAL, before);
    match step
    case LoopTop => BeginsLaunch(c, s, step);
    case SleepEnds => BeginsLaunch(c, s, step);
    case Spawn(_) => SpawnLaunches(c, s, step);
    case SpawnSettles(_) => SpawnLaunches(c, s, step);
    case PrepareFails => FailedLaunch(c, s);
    case _ =>
  }

  /** A stop gives up the current child, cancels a reload and ends every wait of the loop. */
  lemma StopTakesEffect(c: Config, before: seq<Step>, id: nat)
    requires Legal(c, INITIAL, before + [Stop(id)])
    ensures Legal(c, INITIAL, before)
    ensures var s, t := Exec(c, INITIAL, before), Exec(c, INITIAL, before + [Stop(id)]);
            && t.stopping && !t.reloading && t.child == None && t.attempt == s.attempt && t.status == s.status
            && !t.pc.BackingOff? && !t.pc.HealthSleep? && AtOrWoken(s.pc, t.pc)
            && |t.children| == |s.children|
            && (s.child.Some? && s.child.value < |s.children| && !s.children[s.child.value].exitSeen ==>
                 t.children[s.child.value].signalled)
  {
    Snoc(c, INITIAL, before, Stop(id));
  }

  /** A reload of a running loop gives up the current child and the failures counted so far. */
  lemma ReloadTakesEffect(c: Config, before: seq<Step>, id: nat)
    requires Legal(c, INITIAL, before + [Reload(id)])
    ensures Legal(c, INITIAL, before)
    ensures var s, t := Exec(c, INITIAL, before), Exec(c, INITIAL, before + [Reload(id)]);
            if s.stopping || s.pc.Idle? then t == s.(tasks := t.tasks)
            else
              && t.reloading && t.attempt == 0 && t.child == None && t.pc == s.pc && !t.stopping
              && |t.children| == |s.children|
              && (s.child.Some? && s.child.value < |s.children| && !s.children[s.child.value].exitSeen ==>
                   t.children[s.child.value].signalled)
  {
    Snoc(c, INITIAL, before, Reload(id));
  }

  /** When the reloaded child is gone the loop is woken, if it sleeps. */
  lemma ReloadWakes(c: Config, before: seq<Step>, id: nat)
    requires Legal(c, INITIAL, before + [ReloadDrained(id)])
    ensures Legal(c, INITIAL, before)
    ensures var s, t := Exec(c, INITIAL, before), Exec(c, INITIAL, before + [ReloadDrained(id)]);
            !t.pc.BackingOff? && !t.pc.HealthSleep? && AtOrWoken(s.pc, t.pc) && t == s.(pc := t.pc, tasks := t.tasks)
  {
    Snoc(c, INITIAL, before, ReloadDrained(id));
  }

  // ----- Winding down -----

  /** How many steps the loop can still take once it is stopping. */
  function Rank(pc: Pc): nat {
    match pc
    case Idle => 0
    case Finished => 1
    case Top => 2
    case Cleaning(_) => 2
    case Watching(_) => 2
    case Healthy => 2
    case BackingOff => 3
    case HealthTop => 3
    case HealthSleep => 4
    case HealthFetch => 5
    case Spawning => 4
    case Preparing => 5
  }

  lemma StoppingStep(c: Config, s: State, step: Step)
    requires s.stopping && Enabled(c, s, step) && !External(step)
    ensures var t := Do(c, s, step); t.stopping && Rank(t.pc) < Rank(s.pc) && t.attempt == s.attempt
    ensures Do(c, s, step).status == s.status
  {
  }

  /** Once stopping, the loop ends within five steps of its own, begins no attempt and reports nothing more. */
  lemma {:induction false} StoppingWindsDown(c: Config, s: State, run: seq<Step>)
    requires s.stopping && Legal(c, s, run) && forall i :: 0 <= i < |run| ==> !External(run[i])
    ensures |run| <= Rank(s.pc) <= 5
    ensures Exec(c, s, run).attempt == s.attempt && Exec(c, s, run).status == s.status
    decreases |run|
  {
    if run != [] {
      StoppingStep(c, s, run[0]);
      assert forall i :: 0 <= i < |run[1..]| ==> run[1..][i] == run[i + 1];
      StoppingWindsDown(c, Do(c, s, run[0]), run[1..]);
    }
  }
}
