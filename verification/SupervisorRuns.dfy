/** What every interleaving of the gateway supervisor keeps. */
module SupervisorRuns {
  import opened Common
  import opened Supervisor

  /** Steps taken by callers and by the operating system rather than by the run loop. */
  predicate External(step: Step) {
    || step.Start? || step.Reload? || step.ReloadDrained? || step.Stop?
    || step.StopDrained? || step.StopResolved? || step.ChildExit?
  }

  /** Steps of the run loop inside `waitUntilHealthy` and before it. */
  predicate Launching(step: Step) {
    || step.LoopTop? || step.PrepareFails? || step.Spawn? || step.SpawnSettles?
    || step.HealthCheck? || step.HealthAnswer?
  }

  // ----- Child ownership -----

  /** Every live child the supervisor no longer holds has been sent a terminate signal. */
  predicate Owned(s: State) {
    forall k :: 0 <= k < |s.children| && s.children[k].live ==> s.child == Some(k) || s.children[k].signalled
  }

  predicate ChildGone(s: State) {
    s.child.Some? ==> s.child.value < |s.children| && !s.children[s.child.value].live
  }

  /** Points at which the loop holds no running child. */
  predicate Childless(pc: Pc) {
    pc.Idle? || pc.Top? || pc.Preparing? || pc.BackingOff? || pc.Finished? || pc.Cleaning?
  }

  predicate OwnInv(s: State) {
    && Owned(s)
    && (s.child.Some? ==> s.child.value < |s.children|)
    && (forall k :: 0 <= k < |s.children| && s.children[k].exitSeen ==> !s.children[k].live)
    && (Childless(s.pc) ==> ChildGone(s))
    && (s.stopping && (s.pc.HealthFetch? || s.pc.HealthSleep? || s.pc.Healthy?) ==> ChildGone(s))
    && (s.pc.Watching? ==> ChildGone(s) || s.child == s.pc.on)
  }

  lemma DisownKeeps(s: State)
    requires OwnInv(s)
    ensures var t := Disown(s);
            && Owned(t) && t.child == None && |t.children| == |s.children|
            && (forall k :: 0 <= k < |s.children| ==>
                 t.children[k] == s.children[k].(signalled := t.children[k].signalled))
            && (Takes(s).Some? ==> Takes(s).value < |s.children| && t.children[Takes(s).value].signalled)
            && (Takes(s).None? ==> ChildGone(s) && t.children == s.children)
  {
  }

  lemma OwnExternal(c: Config, s: State, step: Step)
    requires OwnInv(s) && Enabled(c, s, step) && External(step)
    ensures OwnInv(Do(c, s, step))
  {
    match step
    case Reload(_) => DisownKeeps(s);
    case Stop(_) => DisownKeeps(Wake(s));
    case _ =>
  }

  /** The steps that, when they do not go well, go to the clean-up; otherwise they only move on. */
  predicate MayCatch(step: Step) {
    Launching(step) && !step.LoopTop? && !step.Spawn?
  }

  lemma CatchOrMove(c: Config, s: State, step: Step)
    requires Enabled(c, s, step) && MayCatch(step)
    ensures Do(c, s, step) == Catch(s) || Do(c, s, step) == s.(pc := Do(c, s, step).pc)
  {
  }

  lemma OwnLaunching(c: Config, s: State, step: Step)
    requires OwnInv(s) && Enabled(c, s, step) && Launching(step)
    ensures OwnInv(Do(c, s, step))
  {
    if MayCatch(step) {
      CatchOrMove(c, s, step);
      CatchKeeps(s);
    }
  }

  lemma CatchKeeps(s: State)
    requires OwnInv(s)
    ensures OwnInv(Catch(s))
  {
    DisownKeeps(s);
  }

  lemma OwnStep(c: Config, s: State, step: Step)
    requires OwnInv(s) && Enabled(c, s, step)
    ensures OwnInv(Do(c, s, step))
  {
    if External(step) {
      OwnExternal(c, s, step);
    } else if Launching(step) {
      OwnLaunching(c, s, step);
    }
  }

  lemma {:induction false} OwnRun(c: Config, s: State, run: seq<Step>)
    requires OwnInv(s) && Legal(c, s, run)
    ensures OwnInv(Exec(c, s, run))
    decreases |run|
  {
    if run != [] {
      OwnStep(c, s, run[0]);
      OwnRun(c, Do(c, s, run[0]), run[1..]);
    }
  }

  /** Child ownership, at every point of every interleaving. */
  lemma EveryOrphanIsSignalled(c: Config, run: seq<Step>)
    requires Legal(c, INITIAL, run)
    ensures Owned(Exec(c, INITIAL, run))
  {
    OwnRun(c, INITIAL, run);
  }

  // ----- One child at a time -----

  predicate NoneLive(s: State) {
    forall k :: 0 <= k < |s.children| ==> !s.children[k].live
  }

  predicate AtMostOneLive(s: State) {
    forall j, k :: 0 <= j < k < |s.children| ==> !(s.children[j].live && s.children[k].live)
  }

  /** Every live child is `on`. */
  predicate OnlyLive(s: State, on: Option<nat>) {
    forall k :: 0 <= k < |s.children| && s.children[k].live ==> on == Some(k)
  }

  /** A run without reloads in which supervision is started only when no child is left running. */
  predicate Tidy(c: Config, s: State, run: seq<Step>)
    requires Legal(c, s, run)
    decreases |run|
  {
    run != [] ==>
      && !run[0].Reload?
      && (run[0].Start? && s.pc.Idle? ==> NoneLive(s))
      && Tidy(c, Do(c, s, run[0]), run[1..])
  }

  predicate SingleInv(s: State) {
    && AtMostOneLive(s)
    && (s.pc.Preparing? || s.pc.BackingOff? ==> NoneLive(s))
    && (s.pc.Top? ==> s.stopping || NoneLive(s))
    && (s.pc.Cleaning? || s.pc.Watching? ==> s.stopping || OnlyLive(s, s.pc.on))
    && (!Childless(s.pc) && !s.pc.Watching? ==> s.stopping || OnlyLive(s, s.child))
  }

  /** `t` runs the same children as `s`, or fewer. */
  predicate SameOrFewer(s: State, t: State) {
    |t.children| == |s.children| && forall k :: 0 <= k < |t.children| && t.children[k].live ==> s.children[k].live
  }

  lemma SingleExternal(c: Config, s: State, step: Step)
    requires OwnInv(s) && SingleInv(s) && Enabled(c, s, step)
    requires !step.Reload? && (step.Start? && s.pc.Idle? ==> NoneLive(s))
    requires External(step)
    ensures SingleInv(Do(c, s, step))
  {
    match step
    case Stop(_) => FewerKeepsSingle(s, Do(c, s, step));
    case ChildExit(_) => FewerKeepsSingle(s, Do(c, s, step));
    case _ =>
  }

  lemma SingleLaunching(c: Config, s: State, step: Step)
    requires OwnInv(s) && SingleInv(s) && Enabled(c, s, step) && Launching(step)
    ensures SingleInv(Do(c, s, step))
  {
    if MayCatch(step) {
      CatchOrMove(c, s, step);
      CatchKeepsSingle(s);
    } else {
      SingleSpawning(c, s, step);
    }
  }

  lemma SingleSpawning(c: Config, s: State, step: Step)
    requires OwnInv(s) && SingleInv(s) && Enabled(c, s, step) && (step.LoopTop? || step.Spawn?)
    ensures SingleInv(Do(c, s, step))
  {
    var t := Do(c, s, step);
    assert forall k :: 0 <= k < |s.children| ==> t.children[k] == s.children[k];
  }

  lemma SingleResting(c: Config, s: State, step: Step)
    requires OwnInv(s) && SingleInv(s) && Enabled(c, s, step) && !External(step) && !Launching(step)
    ensures SingleInv(Do(c, s, step))
  {
    var t := Do(c, s, step);
    assert t.children == s.children && t.child == s.child && t.stopping == s.stopping;
  }

  lemma SingleStep(c: Config, s: State, step: Step)
    requires OwnInv(s) && SingleInv(s) && Enabled(c, s, step)
    requires !step.Reload? && (step.Start? && s.pc.Idle? ==> NoneLive(s))
    ensures SingleInv(Do(c, s, step))
  {
    if External(step) {
      SingleExternal(c, s, step);
    } else if Launching(step) {
      SingleLaunching(c, s, step);
    } else {
      SingleResting(c, s, step);
    }
  }

  /** Asking a child to terminate, or its exit, leaves the rest as it was. */
  lemma FewerKeepsSingle(s: State, t: State)
    requires OwnInv(s) && SingleInv(s) && SameOrFewer(s, t)
    requires t.stopping || (t.pc == s.pc && t.child == s.child && t.stopping == s.stopping)
    requires t.stopping ==> t.pc == s.pc || (s.pc.BackingOff? && t.pc.Top?) || (s.pc.HealthSleep? && t.pc.HealthTop?)
    ensures SingleInv(t)
  {
  }

  lemma CatchKeepsSingle(s: State)
    requires OwnInv(s) && SingleInv(s) && (s.pc.Preparing? || s.pc.Spawning? || s.pc.HealthTop? || s.pc.HealthFetch?)
    ensures SingleInv(Catch(s))
  {
    DisownKeeps(s);
    assert SameOrFewer(s, Catch(s));
  }

  lemma {:induction false} SingleRun(c: Config, s: State, run: seq<Step>)
    requires OwnInv(s) && SingleInv(s) && Legal(c, s, run) && Tidy(c, s, run)
    ensures AtMostOneLive(Exec(c, s, run))
    decreases |run|
  {
    if run != [] {
      OwnStep(c, s, run[0]);
      SingleStep(c, s, run[0]);
      SingleRun(c, Do(c, s, run[0]), run[1..]);
    }
  }

  /** Without reloads, and starting only once the previous child is gone, two children never run together. */
  lemma TidyRunsKeepOneChild(c: Config, run: seq<Step>)
    requires Legal(c, INITIAL, run) && Tidy(c, INITIAL, run)
    ensures AtMostOneLive(Exec(c, INITIAL, run))
  {
    SingleRun(c, INITIAL, run);
  }

  lemma Prepend(c: Config, s: State, step: Step, rest: seq<Step>)
    requires Enabled(c, s, step) && Legal(c, Do(c, s, step), rest)
    ensures Legal(c, s, [step] + rest) && Exec(c, s, [step] + rest) == Exec(c, Do(c, s, step), rest)
    ensures Tidy(c, s, [step] + rest) <==>
              !step.Reload? && (step.Start? && s.pc.Idle? ==> NoneLive(s)) && Tidy(c, Do(c, s, step), rest)
  {
    assert ([step] + rest)[1..] == rest;
  }

  /** Starting from an idle supervisor keeps one child in every tidy continuation. */
  ghost predicate StartIsSafe(c: Config, s: State) {
    var started := Do(c, s, Start);
    forall run :: Legal(c, started, run) && Tidy(c, started, run) ==> AtMostOneLive(Exec(c, started, run))
  }

  /**
   * When may supervision be started again?  Exactly when no child is still draining:
   * the loop does not wait for the child that a pending `stop` is terminating.
   */
  lemma StartSafeIffNoneLive(c: Config, s: State)
    requires OwnInv(s) && SingleInv(s) && s.pc.Idle?
    ensures StartIsSafe(c, s) <==> NoneLive(s)
  {
    var s1 := Do(c, s, Start);
    if NoneLive(s) {
      OwnStep(c, s, Start);
      SingleStep(c, s, Start);
      forall run | Legal(c, s1, run) && Tidy(c, s1, run) ensures AtMostOneLive(Exec(c, s1, run))
      {
        SingleRun(c, s1, run);
      }
    } else {
      var k :| 0 <= k < |s.children| && s.children[k].live;
      var s2 := Do(c, s1, LoopTop);
      var s3 := Do(c, s2, Spawn(true));
      assert s3.children[k].live && s3.children[|s.children|].live;
      Prepend(c, s2, Spawn(true), []);
      Prepend(c, s1, LoopTop, [Spawn(true)] + []);
      var run := [LoopTop] + ([Spawn(true)] + []);
      assert Legal(c, s1, run) && Tidy(c, s1, run) && !AtMostOneLive(Exec(c, s1, run));
    }
  }

  /**
   * A tidy run does reach an idle supervisor whose child still runs: `stop` during the health check,
   * before the child exits.
   */
  lemma IdleWithLiveChild(c: Config) returns (run: seq<Step>)
    ensures Legal(c, INITIAL, run) && Tidy(c, INITIAL, run)
    ensures Exec(c, INITIAL, run).pc.Idle? && !NoneLive(Exec(c, INITIAL, run))
  {
    var s1 := Do(c, INITIAL, Start);
    var s2 := Do(c, s1, LoopTop);
    var s3 := Do(c, s2, Spawn(true));
    var s4 := Do(c, s3, SpawnSettles(true));
    run := StopDuringHealthCheck(c, s4);
    Prepend(c, s3, SpawnSettles(true), run);
    run := [SpawnSettles(true)] + run;
    Prepend(c, s2, Spawn(true), run);
    run := [Spawn(true)] + run;
    Prepend(c, s1, LoopTop, run);
    run := [LoopTop] + run;
    Prepend(c, INITIAL, Start, run);
    run := [Start] + run;
  }

  lemma StopDuringHealthCheck(c: Config, s: State) returns (run: seq<Step>)
    requires s.pc.HealthTop? && s.children == [Child(true, false, false, s.loop)]
    requires s.child == Some(0) && s.tasks == map[]
    ensures Legal(c, s, run) && Tidy(c, s, run)
    ensures Exec(c, s, run).pc.Idle? && !NoneLive(Exec(c, s, run))
  {
    var s1 := Do(c, s, Stop(0));
    var s2 := Do(c, s1, HealthCheck);
    var s3 := Do(c, s2, CleanupDone);
    var s4 := Do(c, s3, ClearLoop);
    assert s4.children[0].live;
    Prepend(c, s3, ClearLoop, []);
    run := [ClearLoop] + [];
    Prepend(c, s2, CleanupDone, run);
    run := [CleanupDone] + run;
    Prepend(c, s1, HealthCheck, run);
    run := [HealthCheck] + run;
    Prepend(c, s, Stop(0), run);
    run := [Stop(0)] + run;
  }

  // ----- Stop -----

  /** The run loop numbered `g` has ended. */
  predicate LoopEnded(s: State, g: nat) {
    s.loop > g || (s.loop == g && s.pc.Idle?)
  }

  predicate StopInv(s: State) {
    forall t :: t in s.tasks ==>
      match s.tasks[t]
      case Stopping(_, called) => called <= s.loop
      case AwaitingLoop(loop, called) => called <= loop <= s.loop
      case Stopped(called) => LoopEnded(s, called)
      case _ => true
  }

  function SpawnedBy(s: State, g: nat): set<nat> {
    set k | 0 <= k < |s.children| && s.children[k].loop <= g
  }

  lemma StopExternal(c: Config, s: State, step: Step)
    requires StopInv(s) && Enabled(c, s, step)
    requires External(step)
    ensures StopInv(Do(c, s, step)) && s.loop <= Do(c, s, step).loop
    ensures forall g: nat :: LoopEnded(s, g) ==> LoopEnded(Do(c, s, step), g)
    ensures forall g: nat :: LoopEnded(s, g) ==> SpawnedBy(Do(c, s, step), g) == SpawnedBy(s, g)
  {
    SameLoops(c, s, step);
  }

  /** No call or child event spawns anything. */
  lemma SameLoops(c: Config, s: State, step: Step)
    requires Enabled(c, s, step) && External(step)
    ensures var t := Do(c, s, step);
            && |t.children| == |s.children|
            && forall k :: 0 <= k < |s.children| ==> t.children[k].loop == s.children[k].loop
    ensures forall g: nat :: SpawnedBy(Do(c, s, step), g) == SpawnedBy(s, g)
  {
  }

  lemma StopLoop(c: Config, s: State, step: Step)
    requires StopInv(s) && Enabled(c, s, step)
    requires !External(step)
    ensures StopInv(Do(c, s, step)) && s.loop <= Do(c, s, step).loop
    ensures forall g: nat :: LoopEnded(s, g) ==> LoopEnded(Do(c, s, step), g)
    ensures forall g: nat :: LoopEnded(s, g) ==> SpawnedBy(Do(c, s, step), g) == SpawnedBy(s, g)
  {
    SameTasks(c, s, step);
    NeverIdle(c, s, step);
    if !step.Spawn? {
      SameLoopsInside(c, s, step);
    }
  }

  lemma SameTasks(c: Config, s: State, step: Step)
    requires Enabled(c, s, step) && !External(step)
    ensures Do(c, s, step).tasks == s.tasks && Do(c, s, step).loop == s.loop
  {
    if MayCatch(step) {
      CatchOrMove(c, s, step);
    }
  }

  lemma NeverIdle(c: Config, s: State, step: Step)
    requires Enabled(c, s, step) && !External(step)
    ensures !s.pc.Idle?
  {
  }

  /** The loop's own steps other than a spawn spawn nothing either. */
  lemma SameLoopsInside(c: Config, s: State, step: Step)
    requires Enabled(c, s, step) && !External(step) && !step.Spawn?
    ensures forall g: nat :: SpawnedBy(Do(c, s, step), g) == SpawnedBy(s, g)
  {
    var t := Do(c, s, step);
    assert |t.children| == |s.children|;
    assert forall k :: 0 <= k < |s.children| ==> t.children[k].loop == s.children[k].loop;
  }

  lemma StopStep(c: Config, s: State, step: Step)
    requires StopInv(s) && Enabled(c, s, step)
    ensures StopInv(Do(c, s, step)) && s.loop <= Do(c, s, step).loop
    ensures forall g: nat :: LoopEnded(s, g) ==> LoopEnded(Do(c, s, step), g)
    ensures forall g: nat :: LoopEnded(s, g) ==> SpawnedBy(Do(c, s, step), g) == SpawnedBy(s, g)
  {
    if External(step) {
      StopExternal(c, s, step);
    } else {
      StopLoop(c, s, step);
    }
  }

  lemma {:induction false} StopRun(c: Config, s: State, run: seq<Step>)
    requires StopInv(s) && Legal(c, s, run)
    ensures StopInv(Exec(c, s, run))
    ensures forall g: nat :: LoopEnded(s, g) ==>
        LoopEnded(Exec(c, s, run), g) && SpawnedBy(Exec(c, s, run), g) == SpawnedBy(s, g)
    decreases |run|
  {
    if run != [] {
      StopStep(c, s, run[0]);
      StopRun(c, Do(c, s, run[0]), run[1..]);
    }
  }

  /**
   * Once a `stop` call has resolved, the run loop it was called on has ended, and
   * whatever happens next no loop up to that one spawns another child.
   */
  lemma NothingSpawnsAfterStop(c: Config, before: seq<Step>, after: seq<Step>, t: nat)
    requires Legal(c, INITIAL, before) && Legal(c, Exec(c, INITIAL, before), after)
    requires var s := Exec(c, INITIAL, before); t in s.tasks && s.tasks[t].Stopped?
    ensures var s := Exec(c, INITIAL, before);
            var g := s.tasks[t].called;
            LoopEnded(s, g) && SpawnedBy(Exec(c, s, after), g) == SpawnedBy(s, g)
  {
    StopRun(c, INITIAL, before);
    StopRun(c, Exec(c, INITIAL, before), after);
  }

  // ----- Retry budget -----

  /** An iteration has begun and not ended. */
  predicate InIteration(pc: Pc) {
    !pc.Idle? && !pc.Top? && !pc.BackingOff? && !pc.Finished?
  }

  function Min(a: int, b: int): int {
    if a <= b then a else b
  }

  function Times(r: nat, n: nat): nat {
    if r == 0 then 0 else Times(r - 1, n) + n
  }

  lemma {:induction false} TimesIsProduct(r: nat, n: nat)
    ensures Times(r, n) == r * n
  {
    if r > 0 {
      TimesIsProduct(r - 1, n);
    }
  }

  predicate BudgetInv(c: Config, s: State) {
    var n := Budget(c);
    && 0 <= s.attempt
    && |s.children| + (if s.pc.Preparing? then 1 else 0) <= s.past.within + s.past.beyond
    && s.past.within <= Times(s.past.reloads, n) + Min(s.attempt, n)
    && s.past.beyond + (if s.pc.Top? && s.attempt >= n then 1 else 0) + (if s.reloading then 1 else 0)
         <= s.past.reloads + s.past.lateStarts
    && (s.pc.BackingOff? ==> s.attempt < c.maxAttempts)
  }

  lemma BudgetEntering(c: Config, s: State, step: Step)
    requires BudgetInv(c, s) && Enabled(c, s, step)
    requires step.Start? || step.Reload?
    ensures BudgetInv(c, Do(c, s, step))
  {
  }

  lemma BudgetExternal(c: Config, s: State, step: Step)
    requires BudgetInv(c, s) && Enabled(c, s, step)
    requires External(step) && !step.Start? && !step.Reload?
    ensures BudgetInv(c, Do(c, s, step))
  {
  }

  lemma BudgetSpawning(c: Config, s: State, step: Step)
    requires BudgetInv(c, s) && Enabled(c, s, step)
    requires step.LoopTop? || step.PrepareFails? || step.Spawn?
    ensures BudgetInv(c, Do(c, s, step))
  {
    assert Do(c, s, step).past.reloads == s.past.reloads;
    assert |Disown(s).children| == |s.children|;
  }

  lemma BudgetLaunching(c: Config, s: State, step: Step)
    requires BudgetInv(c, s) && Enabled(c, s, step)
    requires step.SpawnSettles? || step.HealthCheck? || step.HealthAnswer?
    ensures BudgetInv(c, Do(c, s, step))
  {
    CatchOrMove(c, s, step);
    BudgetCatch(c, s);
  }

  lemma BudgetCatch(c: Config, s: State)
    requires BudgetInv(c, s) && InIteration(s.pc) && !s.pc.Preparing?
    ensures BudgetInv(c, Catch(s))
  {
    assert |Disown(s).children| == |s.children|;
  }

  lemma BudgetResting(c: Config, s: State, step: Step)
    requires BudgetInv(c, s) && Enabled(c, s, step)
    requires !External(step) && !Launching(step)
    ensures BudgetInv(c, Do(c, s, step))
  {
    assert Do(c, s, step).past.reloads == s.past.reloads;
    assert |Disown(s).children| == |s.children|;
  }

  lemma BudgetStep(c: Config, s: State, step: Step)
    requires BudgetInv(c, s) && Enabled(c, s, step)
    ensures BudgetInv(c, Do(c, s, step))
  {
    if step.Start? || step.Reload? {
      BudgetEntering(c, s, step);
    } else if External(step) {
      BudgetExternal(c, s, step);
    } else if step.LoopTop? || step.PrepareFails? || step.Spawn? {
      BudgetSpawning(c, s, step);
    } else if Launching(step) {
      BudgetLaunching(c, s, step);
    } else {
      BudgetResting(c, s, step);
    }
  }

  lemma {:induction false} BudgetRun(c: Config, s: State, run: seq<Step>)
    requires BudgetInv(c, s) && Legal(c, s, run)
    ensures BudgetInv(c, Exec(c, s, run))
    decreases |run|
  {
    if run != [] {
      BudgetStep(c, s, run[0]);
      BudgetRun(c, Do(c, s, run[0]), run[1..]);
    }
  }

  /**
   * Retry bound: with n attempts allowed, r reloads and k starts made with the budget
   * already spent, at most n + r(n + 1) + k children are ever spawned.
   */
  lemma SpawnsAreBounded(c: Config, run: seq<Step>)
    requires Legal(c, INITIAL, run)
    ensures var s := Exec(c, INITIAL, run);
            |s.children| <= Budget(c) + s.past.reloads * (Budget(c) + 1) + s.past.lateStarts
  {
    BudgetRun(c, INITIAL, run);
    var s := Exec(c, INITIAL, run);
    TimesIsProduct(s.past.reloads, Budget(c));
    assert s.past.reloads * (Budget(c) + 1) == s.past.reloads * Budget(c) + s.past.reloads;
  }

  /** Nothing refilled the budget: no reload took effect, and no start came with it spent. */
  predicate Unaided(c: Config, run: seq<Step>)
    requires Legal(c, INITIAL, run)
  {
    Exec(c, INITIAL, run).past.reloads == 0 && Exec(c, INITIAL, run).past.lateStarts == 0
  }

  /** Every unaided run keeps to `maxAttempts` spawns if and only if that allows at least one. */
  lemma SpawnsKeepToMaximum(c: Config)
    ensures (forall run :: Legal(c, INITIAL, run) && Unaided(c, run) ==>
        |Exec(c, INITIAL, run).children| <= c.maxAttempts)
            <==> c.maxAttempts >= 1
  {
    if c.maxAttempts >= 1 {
      forall run | Legal(c, INITIAL, run) && Unaided(c, run) ensures |Exec(c, INITIAL, run).children| <= c.maxAttempts
      {
        SpawnsAreBounded(c, run);
      }
    } else {
      FirstSpawn(c);
      var run := [Start, LoopTop, Spawn(true)];
      assert Legal(c, INITIAL, run) && Unaided(c, run) && |Exec(c, INITIAL, run).children| == 1;
    }
  }

  /** The loop makes its first attempt before it looks at the maximum. */
  lemma FirstSpawn(c: Config)
    ensures var run := [Start, LoopTop, Spawn(true)];
            Legal(c, INITIAL, run) && Unaided(c, run) && |Exec(c, INITIAL, run).children| == 1
  {
    var s1 := Do(c, INITIAL, Start);
    var s2 := Do(c, s1, LoopTop);
    var s3 := Do(c, s2, Spawn(true));
    assert Legal(c, s3, []) && Exec(c, s3, []) == s3;
    Prepend(c, s2, Spawn(true), []);
    Prepend(c, s1, LoopTop, [Spawn(true)]);
    Prepend(c, INITIAL, Start, [LoopTop, Spawn(true)]);
    assert [Start] + [LoopTop, Spawn(true)] == [Start, LoopTop, Spawn(true)];
    assert [LoopTop] + [Spawn(true)] == [LoopTop, Spawn(true)];
    assert [Spawn(true)] + [] == [Spawn(true)];
  }

  // ----- Ending at `failed` -----

  /** Where the loop has ended without being told to stop, it holds `failed` with the budget spent. */
  predicate FailedInv(c: Config, s: State) {
    && (s.pc.Finished? && !s.stopping ==> s.status == Failed && s.attempt >= c.maxAttempts)
    && (s.pc.Idle? && s.loop > 0 && !s.stopping ==> s.status == Failed && s.attempt >= c.maxAttempts)
  }

  lemma FailedStep(c: Config, s: State, step: Step)
    requires FailedInv(c, s) && Enabled(c, s, step) && !step.Reload?
    ensures FailedInv(c, Do(c, s, step))
  {
  }

  lemma {:induction false} FailedRun(c: Config, s: State, run: seq<Step>)
    requires FailedInv(c, s) && Legal(c, s, run)
    requires forall i :: 0 <= i < |run| ==> !run[i].Reload?
    ensures FailedInv(c, Exec(c, s, run))
    decreases |run|
  {
    if run != [] {
      FailedStep(c, s, run[0]);
      assert forall i :: 0 <= i < |run[1..]| ==> run[1..][i] == run[i + 1];
      FailedRun(c, Do(c, s, run[0]), run[1..]);
    }
  }

  /** With no reload, a loop that ended unasked reports `failed` after its last allowed attempt. */
  lemma GivingUpHoldsFailed(c: Config, run: seq<Step>)
    requires Legal(c, INITIAL, run) && forall i :: 0 <= i < |run| ==> !run[i].Reload?
    ensures var s := Exec(c, INITIAL, run);
            s.pc.Idle? && s.loop > 0 && !s.stopping ==> s.status == Failed && s.attempt >= c.maxAttempts
  {
    FailedRun(c, INITIAL, run);
  }

  // ----- Backoff over a run -----

  function Sum(xs: seq<nat>): nat {
    if xs == [] then 0 else Sum(xs[..|xs| - 1]) + xs[|xs| - 1]
  }

  predicate DelayInv(c: Config, s: State) {
    && 0 <= s.attempt
    && (forall i :: 0 <= i < |s.past.delays| ==>
         s.past.delays[i] <= BackoffMs(s.attempt, c.initialBackoffMs, c.maxBackoffMs) <= c.maxBackoffMs)
    && (forall i, j :: 0 <= i < j < |s.past.delays| ==> s.past.delays[i] <= s.past.delays[j])
    && |s.past.delays| <= s.attempt && (s.past.delays != [] ==> |s.past.delays| < c.maxAttempts)
    && (InIteration(s.pc) ==> |s.past.delays| < s.attempt || (s.past.delays == [] && (s.reloading || s.stopping)))
  }

  lemma DelayExternal(c: Config, s: State, step: Step)
    requires DelayInv(c, s) && Enabled(c, s, step)
    requires External(step)
    ensures DelayInv(c, Do(c, s, step))
  {
    BackoffGrowsToCap(s.attempt, s.attempt, c.initialBackoffMs, c.maxBackoffMs);
  }

  lemma DelayLaunching(c: Config, s: State, step: Step)
    requires DelayInv(c, s) && Enabled(c, s, step)
    requires Launching(step)
    ensures DelayInv(c, Do(c, s, step))
  {
    BackoffGrowsToCap(s.attempt, s.attempt + 1, c.initialBackoffMs, c.maxBackoffMs);
  }

  lemma DelayResting(c: Config, s: State, step: Step)
    requires DelayInv(c, s) && Enabled(c, s, step)
    requires !External(step) && !Launching(step)
    ensures DelayInv(c, Do(c, s, step))
  {
    BackoffGrowsToCap(s.attempt, s.attempt + 1, c.initialBackoffMs, c.maxBackoffMs);
  }

  lemma DelayStep(c: Config, s: State, step: Step)
    requires DelayInv(c, s) && Enabled(c, s, step)
    ensures DelayInv(c, Do(c, s, step))
  {
    if External(step) {
      DelayExternal(c, s, step);
    } else if Launching(step) {
      DelayLaunching(c, s, step);
    } else {
      DelayResting(c, s, step);
    }
  }

  lemma {:induction false} DelayRun(c: Config, s: State, run: seq<Step>)
    requires DelayInv(c, s) && Legal(c, s, run)
    ensures DelayInv(c, Exec(c, s, run))
    decreases |run|
  {
    if run != [] {
      DelayStep(c, s, run[0]);
      DelayRun(c, Do(c, s, run[0]), run[1..]);
    }
  }

  lemma {:induction false} SumAtMost(xs: seq<nat>, cap: nat)
    requires forall i :: 0 <= i < |xs| ==> xs[i] <= cap
    ensures Sum(xs) <= |xs| * cap
    decreases |xs|
  {
    if xs != [] {
      SumAtMost(xs[..|xs| - 1], cap);
      assert |xs| * cap == (|xs| - 1) * cap + cap;
    }
  }

  /**
   * Between reloads the delays never decrease, never exceed the cap, and add up to less than the
   * budget times the cap.
   */
  lemma DelaysAreBounded(c: Config, run: seq<Step>)
    requires Legal(c, INITIAL, run)
    ensures var d := Exec(c, INITIAL, run).past.delays;
            && (forall i, j :: 0 <= i < j < |d| ==> d[i] <= d[j])
            && (forall i :: 0 <= i < |d| ==> d[i] <= c.maxBackoffMs)
            && Sum(d) <= (Budget(c) - 1) * c.maxBackoffMs
  {
    DelayRun(c, INITIAL, run);
    var d := Exec(c, INITIAL, run).past.delays;
    SumAtMost(d, c.maxBackoffMs);
    assert |d| <= Budget(c) - 1;
    MulMonotone(|d|, Budget(c) - 1, c.maxBackoffMs);
  }

  lemma MulMonotone(a: nat, b: nat, x: nat)
    requires a <= b
    ensures a * x <= b * x
  {
  }
}
