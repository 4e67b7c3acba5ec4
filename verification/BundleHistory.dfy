/** Whole-run properties of the bundle manager: its links, and when it rolls back by itself. */
module BundleHistory {
  import opened Common
  import opened BundleManager

  datatype Event = Apply(version: string, sha256: string) | Launching | Ready | Rollback

  /** What an onlooker sees of each event: the version applied, and the active version at a launch. */
  datatype Seen = Applied(version: string) | Launched(active: Option<string>) | Reported | RolledBack

  function Step(d: Disk, e: Event): Disk {
    match e
    case Apply(v, h) => ApplyStep(d, v, h)
    case Launching => LaunchStep(d).0
    case Ready => ReadyStep(d)
    case Rollback => RollbackStep(d).0
  }

  function Sight(d: Disk, e: Event): Seen {
    match e
    case Apply(v, _) => Applied(v)
    case Launching => Launched(d.active)
    case Ready => Reported
    case Rollback => RolledBack
  }

  function Run(events: seq<Event>): Disk {
    if events == [] then EMPTY_DISK else Step(Run(events[..|events| - 1]), events[|events| - 1])
  }

  function History(events: seq<Event>): (h: seq<Seen>)
    ensures |h| == |events|
  {
    if events == [] then []
    else History(events[..|events| - 1]) + [Sight(Run(events[..|events| - 1]), events[|events| - 1])]
  }

  // ----- Links -----

  predicate LinkInv(d: Disk) {
    && (d.previous.Some? ==> d.active.Some? && d.previous != d.active)
    && LinksComplete(d)
    && d.boot.failures < MAX_FAILED_BOOTS
    && (d.boot.awaiting.None? ==> d.boot.failures == 0)
  }

  /**
   * Uninterrupted runs keep `previous` set only beside a different `active`, both on
   * complete directories, and the stored failure counter below the limit.
   */
  lemma {:induction false} LinksStayApart(events: seq<Event>)
    ensures LinkInv(Run(events))
    decreases |events|
  {
    if events != [] {
      LinksStayApart(events[..|events| - 1]);
    }
  }

  /** Two rollbacks bring both links back. */
  lemma TwoRollbacksRestore(events: seq<Event>)
    ensures var d := Run(events);
            RollbackStep(RollbackStep(d).0).0 == d
            && RollbackStep(d).1 == d.previous
  {
    LinksStayApart(events);
  }

  // ----- Interrupted applies -----

  /** The operations of a rollback: two link swaps. */
  function RollbackOps(d: Disk): seq<Op> {
    if d.previous.None? then []
    else
      [LinkActive(d.previous.value)]
      + if d.active.Some? && d.active != d.previous then [LinkPrevious(d.active.value)] else []
  }

  /** The operations of a launch: it may roll back, and then records the boot state. */
  function LaunchOps(d: Disk): seq<Op> {
    if d.boot.awaiting.None? then []
    else (if Fires(d) then RollbackOps(d) else []) + [WriteBoot(LaunchStep(d).0.boot)]
  }

  lemma RollbackCompletes(d: Disk)
    ensures Exec(d, RollbackOps(d)) == RollbackStep(d).0
  {
    if d.previous.Some? {
      var ops, swap := RollbackOps(d), LinkActive(d.previous.value);
      assert Exec(d, [swap]) == Do(Exec(d, []), swap) by {
        assert [swap][..0] == [];
      }
      if |ops| == 2 {
        assert ops[..1] == [swap];
      }
    }
  }

  lemma LaunchCompletes(d: Disk)
    ensures Exec(d, LaunchOps(d)) == LaunchStep(d).0
  {
    var ops := LaunchOps(d);
    if ops != [] {
      assert ops[..|ops| - 1] == if Fires(d) then RollbackOps(d) else [];
      RollbackCompletes(d);
    }
  }

  /** What a disturbed run consists of; what is interrupted stops after its first `done` operations. */
  datatype Episode =
    | Whole(event: Event)
    | Crash(version: string, sha256: string, done: nat)
    | Failure(version: string, sha256: string, done: nat)
    | HalfRollback(done: nat)
    | HalfLaunch(done: nat)

  predicate Unlinked(d: Disk, version: string) {
    d.active != Some(version) && d.previous != Some(version)
  }

  /** Anything may be interrupted, but applies only of versions that are not linked. */
  predicate Mild(d: Disk, e: Episode) {
    match e
    case Whole(_) => true
    case Crash(v, h, k) => k <= |ApplyOps(d, v, h)| && Unlinked(d, v)
    case Failure(v, h, k) => k < |ApplyOps(d, v, h)| && Unlinked(d, v)
    case HalfRollback(k) => k <= |RollbackOps(d)|
    case HalfLaunch(k) => k <= |LaunchOps(d)|
  }

  function Suffer(d: Disk, e: Episode): Disk
    requires Mild(d, e)
  {
    match e
    case Whole(event) => Step(d, event)
    case Crash(v, h, k) => CrashedAt(d, v, h, k)
    case Failure(v, h, k) => CleanUp(CrashedAt(d, v, h, k), v)
    case HalfRollback(k) => Exec(d, RollbackOps(d)[..k])
    case HalfLaunch(k) => Exec(d, LaunchOps(d)[..k])
  }

  /** The links may only be made to name what one of them named before. */
  predicate Relinks(d: Disk, op: Op) {
    match op
    case LinkActive(v) => d.active == Some(v) || d.previous == Some(v)
    case LinkPrevious(v) => d.active == Some(v) || d.previous == Some(v)
    case WriteBoot(_) => true
    case _ => false
  }

  /** Moving links among complete directories keeps them on complete directories. */
  lemma {:induction false} RelinkingKeeps(d: Disk, ops: seq<Op>)
    requires LinksComplete(d) && forall i :: 0 <= i < |ops| ==> Relinks(d, ops[i])
    ensures var t := Exec(d, ops);
            && t.dirs == d.dirs
            && (t.active == d.active || t.active == d.previous) && (t.previous == d.active || t.previous == d.previous)
            && LinksComplete(t)
    decreases |ops|
  {
    if ops != [] {
      RelinkingKeeps(d, ops[..|ops| - 1]);
      assert Relinks(d, ops[|ops| - 1]);
    }
  }

  /** Between its two swaps a rollback leaves both links on the previous version. */
  lemma HalfRollbackMergesLinks(d: Disk)
    requires d.previous.Some? && d.active.Some? && d.active != d.previous
    ensures Mild(d, HalfRollback(1))
    ensures var t := Suffer(d, HalfRollback(1)); t.active == d.previous && t.previous == d.previous
  {
    var ops := RollbackOps(d);
    assert ops[..1] == [LinkActive(d.previous.value)] && [LinkActive(d.previous.value)][..0] == [];
    assert Exec(d, [LinkActive(d.previous.value)]) == Do(Exec(d, []), LinkActive(d.previous.value));
  }

  /** The disk `d` is reached by some run of such episodes. */
  ghost predicate Reached(d: Disk, episodes: seq<Episode>)
    decreases |episodes|
  {
    if episodes == [] then d == EMPTY_DISK
    else
      var e := episodes[|episodes| - 1];
      exists was :: Reached(was, episodes[..|episodes| - 1]) && Mild(was, e) && d == Suffer(was, e)
  }

  lemma SufferKeeps(d: Disk, e: Episode)
    requires LinksComplete(d) && Mild(d, e)
    ensures LinksComplete(Suffer(d, e))
  {
    match e
    case Whole(_) =>
    case Crash(v, h, k) => CrashSafeIffUnlinked(d, v, h);
    case Failure(v, h, k) => FailureSafeIffUnlinked(d, v, h);
    case HalfRollback(k) => RelinkingKeeps(d, RollbackOps(d)[..k]);
    case HalfLaunch(k) => RelinkingKeeps(d, LaunchOps(d)[..k]);
  }

  /**
   * Link safety over disturbed runs: whatever crashes and failures have come before, both
   * links name complete directories, and the next apply may be interrupted anywhere, by a
   * crash or a failure, if and only if its version is not linked.
   */
  lemma {:induction false} DisturbedRunsKeepLinks(d: Disk, episodes: seq<Episode>, version: string, sha256: string)
    requires Reached(d, episodes)
    ensures LinksComplete(d)
    ensures Unlinked(d, version) <==>
            forall k :: 0 <= k <= |ApplyOps(d, version, sha256)| ==> LinksComplete(CrashedAt(d, version, sha256, k))
    ensures Unlinked(d, version) <==>
            forall k :: 0 <= k < |ApplyOps(d, version, sha256)| ==>
              LinksComplete(CleanUp(CrashedAt(d, version, sha256, k), version))
    decreases |episodes|
  {
    if episodes != [] {
      var front, e := episodes[..|episodes| - 1], episodes[|episodes| - 1];
      var was :| Reached(was, front) && Mild(was, e) && d == Suffer(was, e);
      DisturbedRunsKeepLinks(was, front, version, sha256);
      SufferKeeps(was, e);
    }
    CrashSafeIffUnlinked(d, version, sha256);
    FailureSafeIffUnlinked(d, version, sha256);
  }

  // ----- Automatic rollback -----

  function Launches(h: seq<Seen>, from: nat, end: nat): nat
    requires from <= end <= |h|
  {
    if from == end then 0 else Launches(h, from, end - 1) + if h[end - 1].Launched? then 1 else 0
  }

  /**
   * Since the apply of `v` seen at position `i`: no other apply and no ready report up to
   * position `n`, `v` active at every launch, and `k` launches.
   */
  predicate Unconfirmed(h: seq<Seen>, i: nat, n: nat, v: string, k: nat) {
    && i < n <= |h| && h[i] == Applied(v)
    && (forall j :: i < j < n ==> !h[j].Applied? && !h[j].Reported?)
    && (forall j :: i < j < n && h[j].Launched? ==> h[j].active == Some(v))
    && Launches(h, i + 1, n) == k
  }

  lemma {:induction false} LaunchesPrefix(h: seq<Seen>, g: seq<Seen>, from: nat, end: nat)
    requires from <= end <= |h| && h <= g
    ensures Launches(h, from, end) == Launches(g, from, end)
    decreases end
  {
    if from < end {
      LaunchesPrefix(h, g, from, end - 1);
    }
  }

  /** An unconfirmed apply of `v` with launches to spare. */
  ghost predicate Watched(h: seq<Seen>, v: string, k: nat) {
    k < MAX_FAILED_BOOTS && exists i: nat :: Unconfirmed(h, i, |h|, v, k)
  }

  /** The boot state records exactly the unconfirmed apply, while it has launches to spare. */
  ghost predicate Tracks(d: Disk, h: seq<Seen>) {
    && (d.boot.awaiting.Some? ==> Watched(h, d.boot.awaiting.value, d.boot.failures))
    && (forall v, k: nat :: Watched(h, v, k) ==> d.boot == Boot(Some(v), k))
  }

  /** The watched apply, if any, is the last one. */
  lemma WatchedIsLast(h: seq<Seen>, i: nat, j: nat, v: string, w: string, k: nat, l: nat)
    requires Unconfirmed(h, i, |h|, v, k) && Unconfirmed(h, j, |h|, w, l)
    ensures i == j && v == w && k == l
  {
  }

  /** One more sight extends an unconfirmed stretch, or ends it. */
  lemma Extend(h: seq<Seen>, s: Seen, i: nat, v: string, k: nat)
    requires i < |h|
    ensures Unconfirmed(h + [s], i, |h| + 1, v, k) <==>
              && !s.Applied? && !s.Reported? && (s.Launched? ==> s.active == Some(v))
              && (if s.Launched? then k > 0 && Unconfirmed(h, i, |h|, v, k - 1) else Unconfirmed(h, i, |h|, v, k))
  {
    var g := h + [s];
    LaunchesPrefix(h, g, i + 1, |h|);
    assert forall j :: 0 <= j < |h| ==> g[j] == h[j];
    assert g[|h|] == s;
  }

  lemma TracksApplied(d: Disk, h: seq<Seen>, v: string)
    requires d.boot == Boot(Some(v), 0)
    ensures Tracks(d, h + [Applied(v)])
  {
    var g := h + [Applied(v)];
    assert Unconfirmed(g, |h|, |g|, v, 0);
    forall w, k: nat | Watched(g, w, k) ensures w == v && k == 0
    {
      var i: nat :| Unconfirmed(g, i, |g|, w, k);
      WatchedIsLast(g, i, |h|, w, v, k, 0);
    }
  }

  lemma TracksStep(d: Disk, h: seq<Seen>, e: Event)
    requires LinkInv(d) && Tracks(d, h)
    ensures Tracks(Step(d, e), h + [Sight(d, e)])
  {
    var s, t := Sight(d, e), Step(d, e);
    var g := h + [s];
    if e.Apply? {
      TracksApplied(t, h, e.version);
      return;
    }
    if t.boot.awaiting.Some? {
      var v, k := t.boot.awaiting.value, t.boot.failures;
      var was := if e.Launching? then k - 1 else k;
      assert Watched(h, v, was);
      var i: nat :| Unconfirmed(h, i, |h|, v, was);
      Extend(h, s, i, v, k);
      assert Watched(g, v, k);
    }
    forall v, k: nat | Watched(g, v, k) ensures t.boot == Boot(Some(v), k)
    {
      var i: nat :| Unconfirmed(g, i, |g|, v, k);
      assert i < |h|;
      Extend(h, s, i, v, k);
      assert Watched(h, v, if e.Launching? then k - 1 else k);
    }
  }

  lemma {:induction false} RunTracks(events: seq<Event>)
    ensures Tracks(Run(events), History(events))
    decreases |events|
  {
    if events != [] {
      var front := events[..|events| - 1];
      RunTracks(front);
      LinksStayApart(front);
      TracksStep(Run(front), History(front), events[|events| - 1]);
    }
  }

  /** All but the last of the launches allowed have passed since the apply at `i`, without a report. */
  predicate OneLaunchLeft(h: seq<Seen>, i: nat, v: string) {
    Unconfirmed(h, i, |h|, v, MAX_FAILED_BOOTS - 1)
  }

  /** The `n`-th event is a launch that rolls back because of failed boots. */
  predicate RollsBackAt(events: seq<Event>, n: nat) {
    n < |events| && events[n].Launching? && Fires(Run(events[..n]))
  }

  /**
   * The boot automaton over whole runs: a launch fires the automatic rollback exactly
   * when it is the MAX_FAILED_BOOTS-th launch since the last apply, no ready report came
   * in between, and the applied version was active at every one of them.
   */
  lemma AutomaticRollbackExact(events: seq<Event>, n: nat, d: Disk, h: seq<Seen>)
    requires n < |events| && events[n].Launching?
    requires d == Run(events[..n]) && h == History(events[..n])
    ensures RollsBackAt(events, n) <==> exists i: nat, v :: OneLaunchLeft(h, i, v) && d.active == Some(v)
  {
    RunTracks(events[..n]);
    LinksStayApart(events[..n]);
    if Fires(d) {
      assert Watched(h, d.boot.awaiting.value, MAX_FAILED_BOOTS - 1);
      var k := MAX_FAILED_BOOTS - 1;
      var i: nat :| Unconfirmed(h, i, |h|, d.boot.awaiting.value, k);
      assert OneLaunchLeft(h, i, d.boot.awaiting.value);
    }
    forall i: nat, v | OneLaunchLeft(h, i, v) && d.active == Some(v) ensures Fires(d)
    {
      assert Watched(h, v, MAX_FAILED_BOOTS - 1);
    }
  }

  lemma {:induction false} HistoryPrefix(events: seq<Event>, m: nat)
    requires m <= |events|
    ensures History(events[..m]) == History(events)[..m]
    decreases |events|
  {
    if m == |events| {
      assert events[..m] == events;
    } else {
      var front := events[..|events| - 1];
      HistoryPrefix(front, m);
      assert front[..m] == events[..m];
    }
  }

  lemma SightAt(events: seq<Event>, j: nat)
    requires j < |events|
    ensures History(events)[j] == Sight(Run(events[..j]), events[j])
  {
    HistoryPrefix(events, j + 1);
    assert events[..j + 1][..j] == events[..j];
  }

  lemma {:induction false} LaunchesMonotone(h: seq<Seen>, from: nat, m: nat, n: nat)
    requires from <= m < n <= |h| && h[m].Launched?
    ensures Launches(h, from, m) < Launches(h, from, n)
    decreases n
  {
    if m + 1 < n {
      LaunchesMonotone(h, from, m, n - 1);
    }
  }

  /** Between two automatic rollbacks there is always another successful apply. */
  lemma OneRollbackPerApply(events: seq<Event>, m: nat, n: nat)
    requires m < n && RollsBackAt(events, m) && RollsBackAt(events, n)
    ensures exists i :: m < i < n && events[i].Apply?
  {
    var hm, hn := History(events[..m]), History(events[..n]);
    AutomaticRollbackExact(events, m, Run(events[..m]), hm);
    AutomaticRollbackExact(events, n, Run(events[..n]), hn);
    var i: nat, v :| OneLaunchLeft(hm, i, v);
    var j: nat, w :| OneLaunchLeft(hn, j, w);
    assert events[..n][..m] == events[..m];
    HistoryPrefix(events[..n], m);
    SightAt(events[..n], j);
    SightAt(events[..n], m);
    assert hn[m].Launched?;
    if j < m {
      assert hm[j] == hn[j] && hn[i] == hm[i];
      assert i == j;
      LaunchesPrefix(hm, hn, i + 1, m);
      LaunchesMonotone(hn, i + 1, m, n);
      assert false;
    }
    assert events[j].Apply?;
  }
}
