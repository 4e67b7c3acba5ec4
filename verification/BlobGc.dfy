/**
 * Mark-and-sweep collection of content blobs (server/workspace/scripts/gc-blobs.ts)
 * against the two-step writes of the Dynamo + S3 file store
 * (server/workspace/src/fs-store.ts, FsStoreS3).
 */
module BlobGc {
  import opened Common

  /** A blob object, `blobs/<workspace>/<hash>`. */
  datatype BlobKey = BlobKey(workspace: string, hash: string)
  /** An index row: `P#<path>` or `V#<path>#<hash>` within a workspace. */
  datatype RowKey = RowKey(workspace: string, sk: string)
  /** Each row carries the hash of the blob it refers to. */
  type Index = map<RowKey, string>

  function BlobOf(rows: Index, r: RowKey): BlobKey
    requires r in rows
  {
    BlobKey(r.workspace, rows[r])
  }

  function LiveKeys(rows: Index): set<BlobKey> {
    set r | r in rows :: BlobOf(rows, r)
  }

  // ----- One sweep, start to finish -----

  datatype GcReport = GcReport(scanned: nat, live: nat, deleted: nat)
  /** A bucket maps each object to its last-modified time, where the store reports one. */
  type Bucket = map<BlobKey, Option<int>>
  /** An object as a listing reports it. */
  datatype Listed = Listed(key: BlobKey, lastModified: Option<int>)

  /** Not referenced, and not newer than the cutoff; an object without a time counts as modified now. */
  predicate Stale(o: Listed, live: set<BlobKey>, cutoff: int, now: int) {
    o.key !in live && o.lastModified.GetOr(now) <= cutoff
  }

  /** What one sweep reclaims. */
  function Garbage(bucket: Bucket, live: set<BlobKey>, cutoff: int, now: int): set<BlobKey> {
    set k | k in bucket && Stale(Listed(k, bucket[k]), live, cutoff, now)
  }

  lemma {:induction false} JoinedHas<T>(pages: seq<seq<T>>, i: nat, j: nat, n: nat)
    requires i < n <= |pages| && j < |pages[i]|
    ensures pages[i][j] in Joined(pages, n)
    decreases n
  {
    if i == n - 1 {
      assert Joined(pages, n)[|Joined(pages, n - 1)| + j] == pages[i][j];
    } else {
      JoinedHas(pages, i, j, n - 1);
      var k :| 0 <= k < |Joined(pages, n - 1)| && Joined(pages, n - 1)[k] == pages[i][j];
      assert Joined(pages, n)[k] == pages[i][j];
    }
  }

  /** The pages list every object of the bucket once, as it is. */
  predicate ListsBucket(objects: seq<Listed>, bucket: Bucket) {
    && (forall i :: 0 <= i < |objects| ==>
         objects[i].key in bucket && bucket[objects[i].key] == objects[i].lastModified)
    && (forall k :: k in bucket ==> Listed(k, bucket[k]) in objects)
    && (forall i, j :: 0 <= i < j < |objects| ==> objects[i].key != objects[j].key)
  }

  /** Counts over a list of objects. */
  function Tally(objects: seq<Listed>, live: set<BlobKey>, cutoff: int, now: int): GcReport {
    if objects == [] then GcReport(0, 0, 0)
    else
      var r, o := Tally(objects[..|objects| - 1], live, cutoff, now), objects[|objects| - 1];
      GcReport(
        r.scanned + 1,
        r.live + (if o.key in live then 1 else 0),
        r.deleted + (if Stale(o, live, cutoff, now) then 1 else 0))
  }

  function StaleKeys(objects: seq<Listed>, live: set<BlobKey>, cutoff: int, now: int): set<BlobKey> {
    set o | o in objects && Stale(o, live, cutoff, now) :: o.key
  }

  function Count(objects: seq<Listed>, p: Listed -> bool): nat {
    if objects == [] then 0
    else Count(objects[..|objects| - 1], p) + if p(objects[|objects| - 1]) then 1 else 0
  }

  function Keys(objects: seq<Listed>, p: Listed -> bool): set<BlobKey> {
    set o | o in objects && p(o) :: o.key
  }

  lemma {:induction false} CountIsSize(objects: seq<Listed>, p: Listed -> bool)
    requires forall i, j :: 0 <= i < j < |objects| ==> objects[i].key != objects[j].key
    ensures Count(objects, p) == |Keys(objects, p)|
    decreases |objects|
  {
    if objects != [] {
      var front, o := objects[..|objects| - 1], objects[|objects| - 1];
      CountIsSize(front, p);
      assert objects == front + [o];
      assert Keys(objects, p) == if p(o) then Keys(front, p) + {o.key} else Keys(front, p);
    }
  }

  lemma {:induction false} TallyIsCounts(objects: seq<Listed>, live: set<BlobKey>, cutoff: int, now: int)
    ensures Tally(objects, live, cutoff, now)
         == GcReport(
              Count(objects, (o: Listed) => true),
              Count(objects, (o: Listed) => o.key in live),
              Count(objects, (o: Listed) => Stale(o, live, cutoff, now)))
    decreases |objects|
  {
    if objects != [] {
      TallyIsCounts(objects[..|objects| - 1], live, cutoff, now);
    }
  }

  /** Over a full listing the counts are the sizes of the bucket, of its referenced part and of its garbage. */
  lemma TallyOfBucket(objects: seq<Listed>, bucket: Bucket, live: set<BlobKey>, cutoff: int, now: int)
    requires ListsBucket(objects, bucket)
    ensures var r := Tally(objects, live, cutoff, now);
            && r.scanned == |bucket.Keys|
            && r.live == |set k | k in bucket && k in live|
            && r.deleted == |Garbage(bucket, live, cutoff, now)|
  {
    TallyIsCounts(objects, live, cutoff, now);
    ListingFindsGarbage(objects, bucket, live, cutoff, now);
    CountIsSize(objects, (o: Listed) => true);
    assert Keys(objects, (o: Listed) => true) == set o | o in objects :: o.key;
    CountIsSize(objects, (o: Listed) => o.key in live);
    assert Keys(objects, (o: Listed) => o.key in live) == set k | k in bucket && k in live;
    CountIsSize(objects, (o: Listed) => Stale(o, live, cutoff, now));
    assert Keys(objects, (o: Listed) => Stale(o, live, cutoff, now)) == StaleKeys(objects, live, cutoff, now);
  }

  /** A full listing and the bucket agree on what is garbage. */
  lemma ListingFindsGarbage(objects: seq<Listed>, bucket: Bucket, live: set<BlobKey>, cutoff: int, now: int)
    requires ListsBucket(objects, bucket)
    ensures StaleKeys(objects, live, cutoff, now) == Garbage(bucket, live, cutoff, now)
    ensures (set o | o in objects :: o.key) == bucket.Keys
  {
    var stale := StaleKeys(objects, live, cutoff, now);
    forall k ensures k in stale <==> k in Garbage(bucket, live, cutoff, now)
    {
      if k in Garbage(bucket, live, cutoff, now) {
        assert Listed(k, bucket[k]) in objects;
      }
    }
    forall k | k in bucket ensures k in set o | o in objects :: o.key
    {
      assert Listed(k, bucket[k]) in objects;
    }
  }

  class BlobStore {
    var bucket: Bucket

    /** `collectLiveBlobKeys`: the blobs that the scanned index rows refer to. */
    static method CollectLiveBlobKeys(rows: Index, scan: seq<seq<RowKey>>) returns (live: set<BlobKey>)
      requires (set r | r in Joined(scan, |scan|)) == rows.Keys
      ensures live == LiveKeys(rows)
    {
      live := {};
      ghost var done: seq<RowKey> := [];
      for i := 0 to |scan|
        invariant done == Joined(scan, i)
        invariant live == set r | r in done && r in rows :: BlobOf(rows, r)
      {
        var page := scan[i];
        for j := 0 to |page|
          invariant done == Joined(scan, i) + page[..j]
          invariant live == set r | r in done && r in rows :: BlobOf(rows, r)
        {
          JoinedHas(scan, i, j, |scan|);
          ReadOne(Joined(scan, i), page, j);
          live := live + {BlobOf(rows, page[j])};
          done := done + [page[j]];
        }
        assert page[..|page|] == page;
      }
      assert forall r :: r in rows <==> r in (set x | x in done);
    }

    /**
     * `sweepBlobs` with no concurrent writer deletes exactly the garbage, reports how much
     * it saw, kept and deleted, and in a dry run only reports.
     */
    method SweepBlobs(
      rows: Index, scan: seq<seq<RowKey>>, listing: seq<seq<Listed>>, safetyAge: int, now: int, dryRun: bool)
      returns (report: GcReport)
      requires (set r | r in Joined(scan, |scan|)) == rows.Keys
      requires ListsBucket(Joined(listing, |listing|), bucket)
      modifies this
      ensures var live, cutoff := LiveKeys(rows), now - safetyAge;
              && bucket == (if dryRun then old(bucket) else old(bucket) - Garbage(old(bucket), live, cutoff, now))
              && report == Tally(Joined(listing, |listing|), live, cutoff, now)
    {
      var live := CollectLiveBlobKeys(rows, scan);
      var cutoff := now - safetyAge;
      report := GcReport(0, 0, 0);
      ghost var done: seq<Listed> := [];
      ListingFindsGarbage(Joined(listing, |listing|), bucket, live, cutoff, now);
      for i := 0 to |listing|
        invariant done == Joined(listing, i)
        invariant Swept(old(bucket), live, cutoff, now, dryRun, done, bucket, report)
      {
        report := SweepPage(listing[i], live, cutoff, now, dryRun, report, old(bucket), done);
        done := done + listing[i];
      }
    }

    /** One page of the listing: count its objects, and delete the stale ones. */
    method SweepPage(
      page: seq<Listed>, live: set<BlobKey>, cutoff: int, now: int, dryRun: bool, counted: GcReport,
      ghost was: Bucket, ghost before: seq<Listed>)
      returns (report: GcReport)
      requires Swept(was, live, cutoff, now, dryRun, before, bucket, counted)
      modifies this
      ensures Swept(was, live, cutoff, now, dryRun, before + page, bucket, report)
    {
      report := counted;
      assert before + page[..0] == before;
      for j := 0 to |page|
        invariant Swept(was, live, cutoff, now, dryRun, before + page[..j], bucket, report)
      {
        var o := page[j];
        SweptExtends(was, live, cutoff, now, dryRun, before + page[..j], o, bucket, report);
        ReadOne(before, page, j);
        report := report.(scanned := report.scanned + 1);
        if o.key in live {
          report := report.(live := report.live + 1);
          continue;
        }
        var lastModified := o.lastModified.GetOr(now);
        if lastModified > cutoff {
          continue;
        }
        report := report.(deleted := report.deleted + 1);
        if !dryRun {
          bucket := bucket - {o.key};
        }
      }
      assert page[..|page|] == page;
    }
  }

  /** Progress of a sweep that has handled the objects `done`. */
  ghost predicate Swept(
    was: Bucket, live: set<BlobKey>, cutoff: int, now: int, dryRun: bool, done: seq<Listed>, bucket: Bucket,
    report: GcReport)
  {
    && bucket == (if dryRun then was else was - StaleKeys(done, live, cutoff, now))
    && report == Tally(done, live, cutoff, now)
  }

  lemma SweptExtends(
    was: Bucket, live: set<BlobKey>, cutoff: int, now: int, dryRun: bool, done: seq<Listed>, o: Listed,
    bucket: Bucket, report: GcReport)
    requires Swept(was, live, cutoff, now, dryRun, done, bucket, report)
    ensures var hit := Stale(o, live, cutoff, now);
            Swept(
              was, live, cutoff, now, dryRun, done + [o], if hit && !dryRun then bucket - {o.key} else bucket,
              GcReport(
                report.scanned + 1,
                report.live + (if o.key in live then 1 else 0),
                report.deleted + (if hit then 1 else 0)))
  {
    var gone := StaleKeys(done, live, cutoff, now);
    assert StaleKeys(done + [o], live, cutoff, now) == if Stale(o, live, cutoff, now) then gone + {o.key} else gone;
    assert was - (gone + {o.key}) == was - gone - {o.key};
    assert (done + [o])[..|done|] == done;
  }

  // ----- Sweeps interleaved with writers -----

  /** A writer that has PUT its blob and may still put index rows for it. */
  datatype Pending = Pending(key: BlobKey, putAt: int)

  datatype Sweep =
    | Marking(start: int, visited: set<RowKey>, found: set<BlobKey>)
    | Sweeping(live: set<BlobKey>, cutoff: int)

  datatype State = State(
    now: int,
    rows: Index,
    bucket: map<BlobKey, int>,
    writes: map<nat, Pending>,
    sweeps: map<nat, Sweep>)

  /**
   * The timing a deployment relies on: index rows follow their PUT within `gap`, a
   * mark phase lasts at most `mark`, and objects younger than `age` are spared.
   */
  datatype Config = Config(age: nat, gap: nat, mark: nat)

  datatype Step =
    | Tick(delay: nat)
    | PutBlob(w: nat, key: BlobKey)
    | PutRow(w: nat, row: RowKey)
    | DropRow(row: RowKey)
    | BeginSweep(g: nat)
    | MarkPage(g: nat, scanned: set<RowKey>)
    | EndMark(g: nat)
    | SweepPage(g: nat, listed: set<BlobKey>)

  const INITIAL := State(0, map[], map[], map[], map[])

  predicate Enabled(c: Config, s: State, step: Step) {
    match step
    case Tick(_) => true
    case PutBlob(w, _) => w !in s.writes
    case PutRow(w, row) =>
      w in s.writes && row.workspace == s.writes[w].key.workspace && s.now - s.writes[w].putAt <= c.gap
    case DropRow(_) => true
    case BeginSweep(g) => g !in s.sweeps
    case MarkPage(g, _) => g in s.sweeps && s.sweeps[g].Marking?
    // The scan ends when no row lies beyond what it has read, within the mark time.
    case EndMark(g) =>
      g in s.sweeps && s.sweeps[g].Marking? && s.rows.Keys <= s.sweeps[g].visited && s.now - s.sweeps[g].start <= c.mark
    case SweepPage(g, _) => g in s.sweeps && s.sweeps[g].Sweeping?
  }

  function Do(c: Config, s: State, step: Step): State
    requires Enabled(c, s, step)
  {
    match step
    case Tick(d) => s.(now := s.now + d)
    case PutBlob(w, key) => s.(bucket := s.bucket[key := s.now], writes := s.writes[w := Pending(key, s.now)])
    case PutRow(w, row) => s.(rows := s.rows[row := s.writes[w].key.hash])
    case DropRow(row) => s.(rows := s.rows - {row})
    case BeginSweep(g) => s.(sweeps := s.sweeps[g := Marking(s.now, {}, {})])
    case MarkPage(g, page) =>
      var m := s.sweeps[g];
      var hits := set r | r in page && r in s.rows :: BlobOf(s.rows, r);
      s.(sweeps := s.sweeps[g := Marking(m.start, m.visited + page, m.found + hits)])
    case EndMark(g) => s.(sweeps := s.sweeps[g := Sweeping(s.sweeps[g].found, s.now - c.age)])
    case SweepPage(g, page) => s.(bucket := s.bucket - Reclaimed(s, g, page))
  }

  function Reclaimed(s: State, g: nat, page: set<BlobKey>): set<BlobKey>
    requires g in s.sweeps && s.sweeps[g].Sweeping?
  {
    set k | k in page && k in s.bucket && k !in s.sweeps[g].live && s.bucket[k] <= s.sweeps[g].cutoff
  }

  predicate Legal(c: Config, s: State, run: seq<Step>)
    decreases |run|
  {
    run != [] ==> Enabled(c, s, run[0]) && Legal(c, Do(c, s, run[0]), run[1..])
  }

  function Exec(c: Config, s: State, run: seq<Step>): State
    requires Legal(c, s, run)
    decreases |run|
  {
    if run == [] then s else Exec(c, Do(c, s, run[0]), run[1..])
  }

  /** No index row refers to a missing blob. */
  predicate Intact(s: State) {
    forall r :: r in s.rows ==> BlobOf(s.rows, r) in s.bucket
  }

  /** The blob of row `r` exists and is younger than `limit`, or a sweep has recorded it. */
  predicate Guarded(s: State, r: RowKey, recorded: set<BlobKey>, limit: int)
    requires r in s.rows
  {
    var k := BlobOf(s.rows, r);
    k in recorded || (k in s.bucket && s.bucket[k] > limit)
  }

  predicate SweepOk(c: Config, s: State, g: Sweep) {
    match g
    case Marking(start, visited, found) =>
      start <= s.now && forall r :: r in s.rows && r in visited ==> Guarded(s, r, found, start - c.gap - 1)
    case Sweeping(live, cutoff) =>
      cutoff + c.age <= s.now && forall r :: r in s.rows ==> Guarded(s, r, live, cutoff)
  }

  predicate Inv(c: Config, s: State) {
    && Intact(s)
    && (forall w :: w in s.writes && s.now - s.writes[w].putAt <= c.gap ==>
          s.writes[w].key in s.bucket && s.bucket[s.writes[w].key] >= s.writes[w].putAt)
    && (forall g :: g in s.sweeps ==> SweepOk(c, s, s.sweeps[g]))
    && (forall w :: w in s.writes ==> s.writes[w].putAt <= s.now)
    && (forall k :: k in s.bucket ==> s.bucket[k] <= s.now)
  }

  lemma SweepPageKeeps(c: Config, s: State, g: nat, page: set<BlobKey>)
    requires c.gap + c.mark < c.age && Inv(c, s) && Enabled(c, s, SweepPage(g, page))
    ensures Inv(c, Do(c, s, SweepPage(g, page)))
  {
    var t := Do(c, s, SweepPage(g, page));
    assert SweepOk(c, s, s.sweeps[g]);
    forall r | r in s.rows ensures BlobOf(s.rows, r) in t.bucket
    {
      assert Guarded(s, r, s.sweeps[g].live, s.sweeps[g].cutoff);
    }
    forall h | h in t.sweeps ensures SweepOk(c, t, t.sweeps[h])
    {
      assert SweepOk(c, s, s.sweeps[h]);
      assert forall r, recorded, limit :: r in s.rows && Guarded(s, r, recorded, limit) ==>
          Guarded(t, r, recorded, limit);
    }
  }

  lemma StepKeeps(c: Config, s: State, step: Step)
    requires c.gap + c.mark < c.age && Inv(c, s) && Enabled(c, s, step)
    ensures Inv(c, Do(c, s, step))
  {
    var t := Do(c, s, step);
    if step.SweepPage? {
      SweepPageKeeps(c, s, step.g, step.listed);
      return;
    }
    forall r | r in t.rows ensures BlobOf(t.rows, r) in t.bucket
    {
      assert (r in s.rows && BlobOf(t.rows, r) == BlobOf(s.rows, r)) || step.PutRow?;
    }
    forall h | h in t.sweeps ensures SweepOk(c, t, t.sweeps[h])
    {
      if h in s.sweeps {
        assert SweepOk(c, s, s.sweeps[h]);
      }
      forall r, recorded, limit | r in s.rows && r in t.rows && t.rows[r] == s.rows[r] && Guarded(s, r, recorded, limit)
        ensures Guarded(t, r, recorded, limit) || limit >= s.now
      {
      }
      if step.MarkPage? && h == step.g {
        forall r | r in t.rows && r in t.sweeps[h].visited
          ensures Guarded(t, r, t.sweeps[h].found, t.sweeps[h].start - c.gap - 1)
        {
          if r in s.sweeps[h].visited {
            assert Guarded(s, r, s.sweeps[h].found, t.sweeps[h].start - c.gap - 1);
          } else {
            assert BlobOf(s.rows, r) in t.sweeps[h].found;
          }
        }
      }
    }
  }

  lemma {:induction false} RunKeeps(c: Config, s: State, run: seq<Step>)
    requires c.gap + c.mark < c.age && Inv(c, s) && Legal(c, s, run)
    ensures Inv(c, Exec(c, s, run))
    decreases |run|
  {
    if run != [] {
      StepKeeps(c, s, run[0]);
      RunKeeps(c, Do(c, s, run[0]), run[1..]);
    }
  }

  /** Every legal interleaving keeps every reference intact. */
  ghost predicate AlwaysIntact(c: Config) {
    forall run :: Legal(c, INITIAL, run) ==> Intact(Exec(c, INITIAL, run))
  }

  /**
   * Blob safety, exactly: whatever writers, removals and any number of overlapping
   * sweeps do, no row loses its blob if and only if the longest gap between a PUT and
   * its index row plus the longest mark phase stays below the safety age.
   */
  lemma SafeIffMarginsFit(c: Config)
    ensures AlwaysIntact(c) <==> c.gap + c.mark < c.age
  {
    if c.gap + c.mark < c.age {
      forall run | Legal(c, INITIAL, run) ensures Intact(Exec(c, INITIAL, run))
      {
        RunKeeps(c, INITIAL, run);
      }
    } else {
      LostBlob(c);
    }
  }

  /** The run that loses a blob: its row lands behind the scan, late in a slow mark phase. */
  lemma LostBlob(c: Config)
    requires c.gap + c.mark >= c.age
    ensures !AlwaysIntact(c)
  {
    var k, r := BlobKey("w", "h"), RowKey("w", "P#a");
    var late := c.gap + c.mark;
    var s1 := State(0, map[], map[k := 0], map[0 := Pending(k, 0)], map[]);
    var s2 := s1.(now := c.gap);
    var s3 := s2.(sweeps := map[0 := Marking(c.gap, {}, {})]);
    var tail := LostBlobTail(c, s3, k, r);
    ExecFirst(c, s2, BeginSweep(0), s3, tail);
    ExecFirst(c, s1, Tick(c.gap), s2, [BeginSweep(0)] + tail);
    ExecFirst(c, INITIAL, PutBlob(0, k), s1, [Tick(c.gap)] + ([BeginSweep(0)] + tail));
  }

  lemma LostBlobTail(c: Config, s3: State, k: BlobKey, r: RowKey) returns (run: seq<Step>)
    requires c.gap + c.mark >= c.age && k == BlobKey(r.workspace, "h")
    requires s3 == State(c.gap, map[], map[k := 0], map[0 := Pending(k, 0)], map[0 := Marking(c.gap, {}, {})])
    ensures Legal(c, s3, run) && !Intact(Exec(c, s3, run))
  {
    var s4 := s3.(sweeps := map[0 := Marking(c.gap, {r}, {})]);
    var s5 := s4.(rows := map[r := "h"]);
    var s6 := s5.(now := c.gap + c.mark);
    var s7 := s6.(sweeps := map[0 := Sweeping({}, c.gap + c.mark - c.age)]);
    var s8 := s7.(bucket := map[]);
    assert Reclaimed(s7, 0, {k}) == {k};
    assert BlobOf(s8.rows, r) !in s8.bucket;
    ExecFirst(c, s7, SweepPage(0, {k}), s8, []);
    run := [SweepPage(0, {k})] + [];
    ExecFirst(c, s6, EndMark(0), s7, run);
    run := [EndMark(0)] + run;
    ExecFirst(c, s5, Tick(c.mark), s6, run);
    run := [Tick(c.mark)] + run;
    ExecFirst(c, s4, PutRow(0, r), s5, run);
    run := [PutRow(0, r)] + run;
    var marked := Do(c, s3, MarkPage(0, {r})).sweeps;
    assert marked[0].visited == {r};
    assert marked[0].found == {};
    assert marked == s4.sweeps;
    ExecFirst(c, s3, MarkPage(0, {r}), s4, run);
    run := [MarkPage(0, {r})] + run;
  }

  lemma ExecFirst(c: Config, s: State, step: Step, t: State, rest: seq<Step>)
    requires Enabled(c, s, step) && Do(c, s, step) == t && Legal(c, t, rest)
    ensures Legal(c, s, [step] + rest) && Exec(c, s, [step] + rest) == Exec(c, t, rest)
  {
    assert ([step] + rest)[1..] == rest;
  }

  /**
   * A sweep that nothing interrupts is the sequential sweep: it removes every
   * unreferenced object not newer than its cutoff and no other.
   */
  lemma QuietSweepIsSequential(c: Config, s: State, g: nat)
    requires g !in s.sweeps
    ensures var run := [BeginSweep(g), MarkPage(g, s.rows.Keys), EndMark(g), SweepPage(g, s.bucket.Keys)];
            var dated := map k | k in s.bucket :: Some(s.bucket[k]);
            && Legal(c, s, run)
            && Exec(c, s, run).bucket == s.bucket - Garbage(dated, LiveKeys(s.rows), s.now - c.age, s.now)
  {
    var run := [BeginSweep(g), MarkPage(g, s.rows.Keys), EndMark(g), SweepPage(g, s.bucket.Keys)];
    var s1 := Do(c, s, run[0]);
    var s2 := Do(c, s1, run[1]);
    assert s2.sweeps[g].found == LiveKeys(s.rows);
    var s3 := Do(c, s2, run[2]);
    var s4 := Do(c, s3, run[3]);
    ExecFirst(c, s3, run[3], s4, []);
    ExecFirst(c, s2, run[2], s3, [run[3]] + []);
    ExecFirst(c, s1, run[1], s2, [run[2]] + ([run[3]] + []));
    ExecFirst(c, s, run[0], s1, [run[1]] + ([run[2]] + ([run[3]] + [])));
    assert run == [run[0]] + ([run[1]] + ([run[2]] + ([run[3]] + [])));
    ReclaimedIsGarbage(s, s3, g, s.now - c.age);
  }

  /** The run of one row being dropped and a sweep that nothing interrupts. */
  function DropAndSweep(s: State, row: RowKey, g: nat): seq<Step> {
    [DropRow(row), BeginSweep(g), MarkPage(g, s.rows.Keys - {row}), EndMark(g), SweepPage(g, s.bucket.Keys)]
  }

  /**
   * A blob goes with its last row: after a row is dropped, a quiet sweep removes the row's blob
   * if and only if it is old enough and no other row refers to it.
   */
  lemma DroppedBlobIsReclaimed(c: Config, s: State, row: RowKey, g: nat)
    requires row in s.rows && g !in s.sweeps && BlobOf(s.rows, row) in s.bucket
    ensures var key := BlobOf(s.rows, row);
            && Legal(c, s, DropAndSweep(s, row, g))
            && (key !in Exec(c, s, DropAndSweep(s, row, g)).bucket <==>
                 && s.bucket[key] <= s.now - c.age
                 && forall r | r in s.rows && r != row :: BlobOf(s.rows, r) != key)
  {
    var key, run := BlobOf(s.rows, row), DropAndSweep(s, row, g);
    var t := Do(c, s, DropRow(row));
    assert t.rows == s.rows - {row};
    assert run[1..] == [BeginSweep(g), MarkPage(g, t.rows.Keys), EndMark(g), SweepPage(g, t.bucket.Keys)];
    QuietSweepIsSequential(c, t, g);
    assert forall r | r in t.rows :: BlobOf(t.rows, r) == BlobOf(s.rows, r);
    assert key in LiveKeys(t.rows) <==> exists r | r in t.rows :: BlobOf(t.rows, r) == key;
  }

  lemma ReclaimedIsGarbage(s: State, swept: State, g: nat, cutoff: int)
    requires swept.bucket == s.bucket && g in swept.sweeps && swept.sweeps[g] == Sweeping(LiveKeys(s.rows), cutoff)
    ensures var dated := map k | k in s.bucket :: Some(s.bucket[k]);
            Reclaimed(swept, g, s.bucket.Keys) == Garbage(dated, LiveKeys(s.rows), cutoff, s.now)
  {
  }
}
