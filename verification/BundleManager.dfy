/**
 * The OTA bundle manager (desktop/src/bundle-manager.ts) from staging onward: version
 * directories, the `active` and `previous` links, and the persisted boot state.
 */
module BundleManager {
  import opened Common

  const MAX_FAILED_BOOTS: nat := 2

  /** A version directory that exists is half there or the whole verified bundle of some content hash. */
  datatype Dir = Partial | Complete(sha256: string)
  datatype Boot = Boot(awaiting: Option<string>, failures: nat)

  datatype Disk = Disk(
    active: Option<string>, previous: Option<string>, dirs: map<string, Dir>, staging: Option<Dir>, boot: Boot)

  const EMPTY_DISK := Disk(None, None, map[], None, Boot(None, 0))

  // ----- Applying a verified archive, one file-system operation at a time -----

  /** What a crash can fall between.  A recursive removal is not atomic; a link swap is a rename. */
  datatype Op =
    | RemoveStaging
    | MakeStaging
    | ExtractAndDescribe(sha256: string)
    | BeginRemoveVersion(version: string)
    | EndRemoveVersion(version: string)
    | PromoteStaging(version: string)
    | LinkPrevious(version: string)
    | LinkActive(version: string)
    | WriteBoot(boot: Boot)

  function Do(d: Disk, op: Op): Disk {
    match op
    case RemoveStaging => d.(staging := None)
    case MakeStaging => d.(staging := Some(Partial))
    case ExtractAndDescribe(h) => d.(staging := Some(Complete(h)))
    case BeginRemoveVersion(v) => if v in d.dirs then d.(dirs := d.dirs[v := Partial]) else d
    case EndRemoveVersion(v) => d.(dirs := d.dirs - {v})
    case PromoteStaging(v) =>
      if d.staging.Some? then d.(dirs := d.dirs[v := d.staging.value], staging := None) else d
    case LinkPrevious(v) => d.(previous := Some(v))
    case LinkActive(v) => d.(active := Some(v))
    case WriteBoot(b) => d.(boot := b)
  }

  function Exec(d: Disk, ops: seq<Op>): Disk {
    if ops == [] then d else Do(Exec(d, ops[..|ops| - 1]), ops[|ops| - 1])
  }

  /** Everything `applyManifest` does to the disk once the archive is verified. */
  function ApplyOps(d: Disk, version: string, sha256: string): seq<Op> {
    [RemoveStaging, MakeStaging, ExtractAndDescribe(sha256),
     BeginRemoveVersion(version), EndRemoveVersion(version), PromoteStaging(version)]
    + (if d.active.Some? && d.active.value != version then [LinkPrevious(d.active.value)] else [])
    + [LinkActive(version), WriteBoot(Boot(Some(version), 0))]
  }

  function ApplyStep(d: Disk, version: string, sha256: string): Disk {
    Disk(
      Some(version),
      if d.active.Some? && d.active.value != version then d.active else d.previous,
      d.dirs[version := Complete(sha256)], None, Boot(Some(version), 0))
  }

  /** The link names a complete directory, or nothing. */
  predicate LinkComplete(d: Disk, link: Option<string>) {
    link.Some? ==> link.value in d.dirs && d.dirs[link.value].Complete?
  }

  predicate LinksComplete(d: Disk) {
    LinkComplete(d, d.active) && LinkComplete(d, d.previous)
  }

  /** The disk after `k` operations of an apply. */
  function CrashedAt(d: Disk, version: string, sha256: string, k: nat): Disk
    requires k <= |ApplyOps(d, version, sha256)|
  {
    Exec(d, ApplyOps(d, version, sha256)[..k])
  }

  /** The same, spelled out: which of the stages each part of the disk has reached. */
  lemma CrashStages(d: Disk, version: string, sha256: string, k: nat)
    requires k <= |ApplyOps(d, version, sha256)|
    ensures var swaps := d.active.Some? && d.active.value != version;
            var n := |ApplyOps(d, version, sha256)|;
            var c := CrashedAt(d, version, sha256, k);
            && n == (if swaps then 9 else 8)
            && c.active == (if k >= n - 1 then Some(version) else d.active)
            && c.previous == (if swaps && k >= 7 then d.active else d.previous)
            && c.boot == (if k == n then Boot(Some(version), 0) else d.boot)
            && c.dirs == (if k >= 6 then d.dirs[version := Complete(sha256)]
                          else if k == 5 then d.dirs - {version}
                          else if k == 4 && version in d.dirs then d.dirs[version := Partial]
                          else d.dirs)
    decreases k
  {
    if k <= 6 {
      BuildStages(d, version, sha256, k);
    } else {
      SwapStages(d, version, sha256, k);
    }
  }

  lemma OneMore(d: Disk, ops: seq<Op>, k: nat)
    requires 0 < k <= |ops|
    ensures Exec(d, ops[..k]) == Do(Exec(d, ops[..k - 1]), ops[k - 1])
  {
    assert ops[..k][..k - 1] == ops[..k - 1];
  }

  /** Up to the promotion of the staging directory only the version's directory changes. */
  lemma {:induction false} BuildStages(d: Disk, version: string, sha256: string, k: nat)
    requires k <= 6
    ensures var c := CrashedAt(d, version, sha256, k);
            && c.active == d.active && c.previous == d.previous && c.boot == d.boot
            && c.dirs == (if k == 6 then d.dirs[version := Complete(sha256)]
                          else if k == 5 then d.dirs - {version}
                          else if k == 4 && version in d.dirs then d.dirs[version := Partial]
                          else d.dirs)
    decreases k
  {
    var ops := ApplyOps(d, version, sha256);
    if k > 0 {
      BuildStages(d, version, sha256, k - 1);
      assert ops[..k][..k - 1] == ops[..k - 1];
      if k == 5 && version in d.dirs {
        assert d.dirs[version := Partial] - {version} == d.dirs - {version};
      }
      if k == 6 {
        StagingAt(d, version, sha256, 5);
        assert (d.dirs - {version})[version := Complete(sha256)] == d.dirs[version := Complete(sha256)];
      }
    }
  }

  /** After the promotion only the links and the boot state change. */
  lemma {:induction false} SwapStages(d: Disk, version: string, sha256: string, k: nat)
    requires 6 <= k <= |ApplyOps(d, version, sha256)|
    ensures var swaps := d.active.Some? && d.active.value != version;
            var n := |ApplyOps(d, version, sha256)|;
            var c := CrashedAt(d, version, sha256, k);
            && n == (if swaps then 9 else 8)
            && c.dirs == d.dirs[version := Complete(sha256)]
            && c.active == (if k >= n - 1 then Some(version) else d.active)
            && c.previous == (if swaps && k >= 7 then d.active else d.previous)
            && c.boot == (if k == n then Boot(Some(version), 0) else d.boot)
    decreases k
  {
    var ops := ApplyOps(d, version, sha256);
    if k == 6 {
      BuildStages(d, version, sha256, 6);
    } else {
      SwapStages(d, version, sha256, k - 1);
      OneMore(d, ops, k);
      var n := |ops|;
      if k == n {
        assert ops[k - 1] == WriteBoot(Boot(Some(version), 0));
      } else if k == n - 1 {
        assert ops[k - 1] == LinkActive(version);
      } else {
        assert ops[k - 1] == LinkPrevious(d.active.value);
      }
    }
  }

  lemma {:induction false} StagingAt(d: Disk, version: string, sha256: string, k: nat)
    requires k <= 5
    ensures CrashedAt(d, version, sha256, k).staging ==
            if k >= 3 then Some(Complete(sha256))
            else if k == 2 then Some(Partial)
            else if k == 1 then None
            else d.staging
    decreases k
  {
    var ops := ApplyOps(d, version, sha256);
    if k > 0 {
      StagingAt(d, version, sha256, k - 1);
      assert ops[..k][..k - 1] == ops[..k - 1];
    }
  }

  /** Uninterrupted, the operations amount to one step. */
  lemma ApplyCompletes(d: Disk, version: string, sha256: string)
    ensures Exec(d, ApplyOps(d, version, sha256)).(staging := None) == ApplyStep(d, version, sha256)
  {
    var ops := ApplyOps(d, version, sha256);
    CrashStages(d, version, sha256, |ops|);
    assert ops[..|ops|] == ops;
  }

  /**
   * A crash anywhere leaves `active` on the old or the new version, and both links on
   * complete directories, for every crash point, exactly when the applied version was
   * not already linked.
   */
  lemma CrashSafeIffUnlinked(d: Disk, version: string, sha256: string)
    requires LinksComplete(d)
    ensures (forall k :: 0 <= k <= |ApplyOps(d, version, sha256)| ==> LinksComplete(CrashedAt(d, version, sha256, k)))
            <==> d.active != Some(version) && d.previous != Some(version)
    ensures forall k :: 0 <= k <= |ApplyOps(d, version, sha256)| ==>
              var c := CrashedAt(d, version, sha256, k);
              && (c.active == d.active || c.active == Some(version))
              && (c.active == Some(version) && d.active != Some(version) ==>
                   Get(c.dirs, version) == Some(Complete(sha256)))
  {
    forall k | 0 <= k <= |ApplyOps(d, version, sha256)|
      ensures var c := CrashedAt(d, version, sha256, k);
              && (c.active == d.active || c.active == Some(version))
              && (c.active == Some(version) && d.active != Some(version) ==>
                   Get(c.dirs, version) == Some(Complete(sha256)))
              && (d.active != Some(version) && d.previous != Some(version) ==> LinksComplete(c))
    {
      CrashStages(d, version, sha256, k);
    }
    CrashStages(d, version, sha256, 5);
    assert d.active == Some(version) || d.previous == Some(version) ==>
        !LinksComplete(CrashedAt(d, version, sha256, 5));
  }

  /** The clean-up after an operation threw: drop the staging directory and a half-written version. */
  function CleanUp(d: Disk, version: string): Disk {
    var d' := d.(staging := None);
    if version in d'.dirs && d'.dirs[version].Complete? then d' else d'.(dirs := d'.dirs - {version})
  }

  /** What `active` names, and what is stored there. */
  function ActiveBundle(d: Disk): (Option<string>, Option<Dir>) {
    (d.active, if d.active.Some? then Get(d.dirs, d.active.value) else None)
  }

  /**
   * An apply whose operation after the first `k` throws leaves `active` and its bundle
   * untouched, as promised, with these exceptions and no other: a new version is active
   * although only recording the boot state failed; and re-applying the active version
   * loses its bundle if the removal or the promotion throws, or replaces it by another
   * content if a later operation does.
   */
  lemma FailureKeepsActiveExact(d: Disk, version: string, sha256: string, k: nat)
    requires k < |ApplyOps(d, version, sha256)|
    ensures ActiveBundle(CleanUp(CrashedAt(d, version, sha256, k), version)) == ActiveBundle(d)
            <==> if d.active != Some(version) then k < |ApplyOps(d, version, sha256)| - 1
                 else if LinkComplete(d, d.active) then k <= 3 || (k >= 6 && d.dirs[version] == Complete(sha256))
                 else version !in d.dirs && k <= 5
  {
    CrashStages(d, version, sha256, k);
  }

  /** Re-applying the active version and failing to promote it leaves `active` naming nothing. */
  lemma FailedReapplyLosesActive(d: Disk, version: string, sha256: string)
    requires d.active == Some(version)
    ensures var c := CleanUp(CrashedAt(d, version, sha256, 5), version);
            c.active == Some(version) && version !in c.dirs
  {
    CrashStages(d, version, sha256, 5);
  }

  /** Wherever an apply fails, both links stay on complete directories, exactly when the version was not linked. */
  lemma FailureSafeIffUnlinked(d: Disk, version: string, sha256: string)
    requires LinksComplete(d)
    ensures (forall k :: 0 <= k < |ApplyOps(d, version, sha256)| ==>
               LinksComplete(CleanUp(CrashedAt(d, version, sha256, k), version)))
            <==> d.active != Some(version) && d.previous != Some(version)
  {
    forall k | 0 <= k < |ApplyOps(d, version, sha256)|
      ensures d.active != Some(version) && d.previous != Some(version) ==>
                LinksComplete(CleanUp(CrashedAt(d, version, sha256, k), version))
    {
      CrashStages(d, version, sha256, k);
    }
    CrashStages(d, version, sha256, 5);
    assert d.active == Some(version) || d.previous == Some(version) ==>
        !LinksComplete(CleanUp(CrashedAt(d, version, sha256, 5), version));
  }

  // ----- Rollback and the boot automaton -----

  function RollbackStep(d: Disk): (Disk, Option<string>) {
    if d.previous.None? then (d, None)
    else
      var current := d.active;
      var kept := if current.Some? && current != d.previous then current else d.previous;
      (d.(active := d.previous, previous := kept), d.previous)
  }

  datatype Launch = Launch(rolledBack: bool, toVersion: Option<string>)

  /** The launch that uses up the last allowed failure of the version being watched. */
  predicate Fires(d: Disk) {
    d.boot.awaiting.Some? && d.active == d.boot.awaiting && d.boot.failures + 1 >= MAX_FAILED_BOOTS
  }

  function LaunchStep(d: Disk): (Disk, Launch) {
    if d.boot.awaiting.None? then (d, Launch(false, None))
    else if d.active != d.boot.awaiting then (d.(boot := Boot(None, 0)), Launch(false, None))
    else if Fires(d) then
      var (r, to) := RollbackStep(d);
      (r.(boot := Boot(None, 0)), Launch(to.Some?, to))
    else (d.(boot := Boot(d.boot.awaiting, d.boot.failures + 1)), Launch(false, None))
  }

  /**
   * What a launch reports is what it did: it names the version it rolled back to, which was
   * `previous` and is now `active`, and otherwise it has left the links alone.
   */
  lemma LaunchReportsRollback(d: Disk)
    ensures var (t, launch) := LaunchStep(d);
            && launch.rolledBack == launch.toVersion.Some?
            && (launch.rolledBack <==>
                 && d.boot.awaiting.Some? && d.active == d.boot.awaiting
                 && d.boot.failures + 1 >= 2 && d.previous.Some?)
            && (launch.rolledBack ==>
                 && launch.toVersion == d.previous && t.active == d.previous
                 && t.previous == d.active && t.boot == Boot(None, 0))
            && (!launch.rolledBack ==> t.active == d.active && t.previous == d.previous)
            && t.dirs == d.dirs
  {
  }

  function ReadyStep(d: Disk): Disk {
    if d.active.Some? && d.boot.awaiting.Some? && d.boot.awaiting == d.active then d.(boot := Boot(None, 0))
    else if d.boot.awaiting.Some? || d.boot.failures > 0 then d.(boot := Boot(None, 0))
    else d
  }

  class Manager {
    var disk: Disk

    constructor ()
      ensures disk == EMPTY_DISK
    {
      disk := EMPTY_DISK;
    }

    /** `applyManifest` from staging onward, with no operation failing. */
    method ApplyVerified(version: string, sha256: string) returns (previousVersion: Option<string>)
      modifies this
      ensures disk == ApplyStep(old(disk), version, sha256)
      ensures previousVersion == old(disk).active
    {
      disk := Do(disk, RemoveStaging);
      disk := Do(disk, MakeStaging);
      disk := Do(disk, ExtractAndDescribe(sha256));
      disk := Do(disk, BeginRemoveVersion(version));
      disk := Do(disk, EndRemoveVersion(version));
      disk := Do(disk, PromoteStaging(version));
      previousVersion := disk.active;
      SwapActive(version);
      disk := Do(disk, WriteBoot(Boot(Some(version), 0)));
      assert disk.dirs == old(disk).dirs[version := Complete(sha256)];
    }

    method SwapActive(version: string)
      modifies this
      ensures disk == old(disk).(
                active := Some(version),
                previous := if old(disk).active.Some? && old(disk).active.value != version then old(disk).active
                            else old(disk).previous)
    {
      var current := disk.active;
      if current.Some? && current.value != version {
        disk := Do(disk, LinkPrevious(current.value));
      }
      disk := Do(disk, LinkActive(version));
    }

    method Rollback() returns (to: Option<string>)
      modifies this
      ensures (disk, to) == RollbackStep(old(disk))
    {
      var previous := disk.previous;
      if previous.None? {
        return None;
      }
      var current := disk.active;
      disk := Do(disk, LinkActive(previous.value));
      if current.Some? && current != previous {
        disk := Do(disk, LinkPrevious(current.value));
      }
      return previous;
    }

    method HandleLaunch() returns (launch: Launch)
      modifies this
      ensures (disk, launch) == LaunchStep(old(disk))
    {
      var state := disk.boot;
      if state.awaiting.None? {
        return Launch(false, None);
      }
      if disk.active != state.awaiting {
        disk := Do(disk, WriteBoot(Boot(None, 0)));
        return Launch(false, None);
      }
      var failures := state.failures + 1;
      if failures >= MAX_FAILED_BOOTS {
        var to := Rollback();
        disk := Do(disk, WriteBoot(Boot(None, 0)));
        return Launch(to.Some?, to);
      }
      disk := Do(disk, WriteBoot(Boot(state.awaiting, failures)));
      return Launch(false, None);
    }

    method ReportRendererReady()
      modifies this
      ensures disk == ReadyStep(old(disk))
    {
      var state := disk.boot;
      if disk.active.Some? && state.awaiting.Some? && state.awaiting == disk.active {
        disk := Do(disk, WriteBoot(Boot(None, 0)));
        return;
      }
      if state.awaiting.Some? || state.failures > 0 {
        disk := Do(disk, WriteBoot(Boot(None, 0)));
      }
    }
  }
}
