/** Whole-history properties of the commit store: what every run keeps, and what the log means. */
module VcsHistory {
  import opened Common
  import opened VcsDiff
  import opened VcsStore

  datatype Op =
    | Stage(path: string, hash: Hash)
    | Commit(args: CommitArgs, drawn: Fresh)
    | Restore(commitish: string, only: Option<string>, prefix: Option<string>)

  predicate IsHex(c: char) {
    '0' <= c <= '9' || 'a' <= c <= 'f'
  }

  /** The first twelve characters of a UUID: eight hexadecimal digits, a dash and three more. */
  predicate UuidStart(s: string) {
    |s| == 12 && s[8] == '-' && forall i :: 0 <= i < 12 && i != 8 ==> IsHex(s[i])
  }

  /** Commit ids are "cmt-" and the start of a UUID; drawing one never repeats one. */
  predicate CommitIdShape(id: string) {
    |id| == 16 && "cmt-" <= id && UuidStart(id[4..])
  }

  predicate IsFresh(s: Repo, f: Fresh) {
    CommitIdShape(f.id) && FindId(s.commits, f.id).None? && f.snapshot !in s.snapshots
  }

  predicate Legal(s: Repo, op: Op) {
    op.Commit? ==> IsFresh(s, op.drawn)
  }

  function Step(s: Repo, op: Op): Repo {
    match op
    case Stage(p, h) => StageStep(s, p, h)
    case Commit(a, f) => CommitStep(s, a, f).0
    case Restore(c, path, prefix) => RestoreStep(s, c, path, prefix).0
  }

  function Run(s: Repo, ops: seq<Op>): Repo
    decreases |ops|
  {
    if ops == [] then s else Run(Step(s, ops[0]), ops[1..])
  }

  predicate LegalRun(s: Repo, ops: seq<Op>)
    decreases |ops|
  {
    ops != [] ==> Legal(s, ops[0]) && LegalRun(Step(s, ops[0]), ops[1..])
  }

  // ----- What every run keeps -----

  predicate HasId(commits: seq<CommitRecord>, id: string, from: nat) {
    exists i :: from <= i < |commits| && commits[i].id == id
  }

  predicate UniqueIds(commits: seq<CommitRecord>) {
    forall i, j :: 0 <= i < j < |commits| ==> commits[i].id != commits[j].id
  }

  /** One commit of the list: well formed, with its snapshot stored and its parent strictly older. */
  predicate CommitOk(s: Repo, i: nat)
    requires i < |s.commits|
  {
    var c := s.commits[i];
    && CommitIdShape(c.id) && c.snapshot in s.snapshots && |c.parents| <= 1
    && (c.parents != [] ==> HasId(s.commits, c.parents[0], i + 1))
  }

  predicate Inv(s: Repo) {
    && UniqueIds(s.commits)
    && (forall i :: 0 <= i < |s.commits| ==> CommitOk(s, i))
    && (forall r :: r in s.refs ==> HasId(s.commits, s.refs[r], 0))
  }

  /** `later` has every commit of `s`, in place behind any new ones, with the same snapshots. */
  predicate Extends(s: Repo, later: Repo) {
    && |s.commits| <= |later.commits|
    && later.commits[|later.commits| - |s.commits|..] == s.commits
    && (forall k :: k in s.snapshots ==> k in later.snapshots && later.snapshots[k] == s.snapshots[k])
  }

  /** A commit either changes nothing or puts one record in front, parented on the branch's head. */
  lemma CommitShape(s: Repo, a: CommitArgs, f: Fresh)
    ensures var t := CommitStep(s, a, f).0;
            var ref := a.ref.GetOr("main");
            var parents := if ref in s.refs then [s.refs[ref]] else [];
            t == s || t == Record(s, a, f, FilterByPrefix(s.tree, a.prefix), parents).0
  {
  }

  lemma RecordKeeps(s: Repo, a: CommitArgs, f: Fresh, scoped: Tree, parents: seq<string>)
    requires Inv(s) && IsFresh(s, f)
    requires parents == [] || (|parents| == 1 && HasId(s.commits, parents[0], 0))
    ensures var t := Record(s, a, f, scoped, parents).0; Inv(t) && Extends(s, t)
  {
    var t := Record(s, a, f, scoped, parents).0;
    FindIdSpec(s.commits, f.id);
    assert forall i :: 0 < i < |t.commits| ==> t.commits[i] == s.commits[i - 1];
    forall id: string, from: nat | HasId(s.commits, id, from) ensures HasId(t.commits, id, from + 1)
    {
      var i :| from <= i < |s.commits| && s.commits[i].id == id;
      assert t.commits[i + 1].id == id;
    }
    forall i | 0 <= i < |t.commits| ensures CommitOk(t, i)
    {
      assert i > 0 ==> CommitOk(s, i - 1);
    }
    forall r | r in t.refs ensures HasId(t.commits, t.refs[r], 0)
    {
      assert t.commits[0].id == f.id;
      assert t.refs[r] == f.id || HasId(s.commits, t.refs[r], 0);
    }
    assert t.commits[1..] == s.commits;
  }

  lemma StepKeeps(s: Repo, op: Op)
    requires Inv(s) && Legal(s, op)
    ensures Inv(Step(s, op)) && Extends(s, Step(s, op))
  {
    var t := Step(s, op);
    if op.Commit? {
      var ref := op.args.ref.GetOr("main");
      CommitShape(s, op.args, op.drawn);
      if t != s {
        var parents := if ref in s.refs then [s.refs[ref]] else [];
        RecordKeeps(s, op.args, op.drawn, FilterByPrefix(s.tree, op.args.prefix), parents);
      }
    } else {
      assert t == s.(tree := t.tree);
      assert forall i :: 0 <= i < |s.commits| && CommitOk(s, i) ==> CommitOk(t, i);
    }
  }

  lemma ExtendsTransitive(s: Repo, t: Repo, u: Repo)
    requires Extends(s, t) && Extends(t, u)
    ensures Extends(s, u)
  {
    assert u.commits[|u.commits| - |s.commits|..]
        == u.commits[|u.commits| - |t.commits|..][|t.commits| - |s.commits|..];
  }

  /**
   * After any legal run from an empty store the invariant holds; nothing recorded before a point
   * ever changes after it.
   */
  lemma {:induction false} RunKeeps(s: Repo, ops: seq<Op>)
    requires Inv(s) && LegalRun(s, ops)
    ensures Inv(Run(s, ops)) && Extends(s, Run(s, ops))
    decreases |ops|
  {
    if ops != [] {
      var t := Step(s, ops[0]);
      StepKeeps(s, ops[0]);
      RunKeeps(t, ops[1..]);
      ExtendsTransitive(s, t, Run(t, ops[1..]));
    }
  }

  // ----- The log -----

  predicate Linked(chain: seq<CommitRecord>, k: nat)
    requires k + 1 < |chain|
  {
    chain[k].parents == [chain[k + 1].id]
  }

  /** `chain` leads from the commit `head` to a root, each commit naming the next as its only parent. */
  predicate IsChain(chain: seq<CommitRecord>, head: string) {
    && chain != [] && chain[0].id == head
    && (forall k :: 0 <= k < |chain| - 1 ==> Linked(chain, k))
    && chain[|chain| - 1].parents == []
  }

  lemma FindSelf(commits: seq<CommitRecord>, i: nat)
    requires i < |commits| && UniqueIds(commits)
    ensures FindId(commits, commits[i].id) == Some(commits[i])
  {
    FindIdSpec(commits, commits[i].id);
    var r := FindId(commits, commits[i].id);
    var j :| 0 <= j < |commits| && commits[j] == r.value;
  }

  lemma Locate(s: Repo, id: string, from: nat) returns (i: nat)
    requires Inv(s) && HasId(s.commits, id, from)
    ensures from <= i < |s.commits| && s.commits[i].id == id && FindId(s.commits, id) == Some(s.commits[i])
    ensures CommitOk(s, i)
  {
    i :| from <= i < |s.commits| && s.commits[i].id == id;
    FindSelf(s.commits, i);
  }

  /** `w` reads the list at the positions `at`. */
  predicate ReadsAt(commits: seq<CommitRecord>, at: seq<nat>, w: seq<CommitRecord>) {
    |at| == |w| && forall k :: 0 <= k < |w| ==> at[k] < |commits| && w[k] == commits[at[k]]
  }

  /** The positions rise, so the commits go strictly back in time. */
  predicate Rising(at: seq<nat>, from: nat) {
    (forall k :: 0 <= k < |at| ==> from <= at[k]) && forall k, l :: 0 <= k < l < |at| ==> at[k] < at[l]
  }

  /** Every commit of `w` is in the list, and no two share an id. */
  predicate Distinct(commits: seq<CommitRecord>, w: seq<CommitRecord>) {
    (forall k :: 0 <= k < |w| ==> w[k] in commits) && UniqueIds(w)
  }

  /** Where the parent of the commit at `i` is, if it has one. */
  ghost function NextOf(s: Repo, i: nat): (j: nat)
    requires Inv(s) && i < |s.commits|
    ensures s.commits[i].parents != [] ==> i < j < |s.commits| && s.commits[i].parents == [s.commits[j].id]
  {
    if s.commits[i].parents == [] then 0
    else
      assert CommitOk(s, i);
      var j: nat :| i < j < |s.commits| && s.commits[j].id == s.commits[i].parents[0];
      j
  }

  /** The commit at `i` is found by its id, and its parent, if any, stands at `next[i]`, further down the list. */
  predicate StepsDown(commits: seq<CommitRecord>, next: seq<nat>, i: nat)
    requires i < |commits| == |next|
  {
    var c := commits[i];
    && c.id != "" && FindId(commits, c.id) == Some(c)
    && (c.parents != [] ==> i < next[i] < |commits| && c.parents == [commits[next[i]].id])
  }

  predicate AllStepDown(commits: seq<CommitRecord>, next: seq<nat>) {
    |commits| == |next| && forall i :: 0 <= i < |commits| ==> StepsDown(commits, next, i)
  }

  lemma ParentsStepDown(s: Repo) returns (next: seq<nat>)
    requires Inv(s)
    ensures AllStepDown(s.commits, next)
  {
    next := seq(|s.commits|, i requires 0 <= i < |s.commits| => NextOf(s, i));
    forall i | 0 <= i < |s.commits| ensures StepsDown(s.commits, next, i)
    {
      FindSelf(s.commits, i);
      assert CommitOk(s, i);
    }
  }

  lemma WalkOn(commits: seq<CommitRecord>, next: seq<nat>, i: nat, limit: int)
    requires AllStepDown(commits, next) && i < |commits| && limit > 0
    ensures commits[i].parents != [] ==> i < next[i] < |commits| && commits[i].parents == [commits[next[i]].id]
    ensures Walk(commits, commits[i].id, limit)
         == [commits[i]] + if commits[i].parents == [] then [] else Walk(commits, commits[next[i]].id, limit - 1)
  {
    assert StepsDown(commits, next, i);
  }

  lemma {:induction false} WalkIsChain(commits: seq<CommitRecord>, next: seq<nat>, i: nat, limit: int)
    requires AllStepDown(commits, next) && i < |commits| && limit >= |commits| - i
    ensures IsChain(Walk(commits, commits[i].id, limit), commits[i].id)
    decreases |commits| - i
  {
    WalkOn(commits, next, i, limit);
    if commits[i].parents != [] {
      WalkIsChain(commits, next, next[i], limit - 1);
      ChainCons(commits[i], Walk(commits, commits[next[i]].id, limit - 1));
    }
  }

  lemma {:induction false} WalkPositions(commits: seq<CommitRecord>, next: seq<nat>, i: nat, limit: int)
    returns (at: seq<nat>)
    requires AllStepDown(commits, next) && i < |commits| && limit >= |commits| - i
    ensures ReadsAt(commits, at, Walk(commits, commits[i].id, limit)) && Rising(at, i)
    decreases |commits| - i
  {
    WalkOn(commits, next, i, limit);
    if commits[i].parents == [] {
      at := [i];
    } else {
      var rest := WalkPositions(commits, next, next[i], limit - 1);
      at := [i] + rest;
      PositionsCons(commits, i, next[i], rest, Walk(commits, commits[next[i]].id, limit - 1));
    }
  }

  lemma PositionsCons(commits: seq<CommitRecord>, i: nat, j: nat, at: seq<nat>, w: seq<CommitRecord>)
    requires i < j && i < |commits| && ReadsAt(commits, at, w) && Rising(at, j)
    ensures ReadsAt(commits, [i] + at, [commits[i]] + w) && Rising([i] + at, i)
  {
    var more, all := [i] + at, [commits[i]] + w;
    assert forall k :: 0 < k < |more| ==> more[k] == at[k - 1] && all[k] == w[k - 1];
  }

  lemma {:induction false} RisingIsShort(at: seq<nat>, from: nat, end: nat)
    requires Rising(at, from) && from <= end && forall k :: 0 <= k < |at| ==> at[k] < end
    ensures |at| <= end - from
    decreases |at|
  {
    if at != [] {
      RisingIsShort(at[1..], at[0] + 1, end);
    }
  }

  lemma RisingIsDistinct(commits: seq<CommitRecord>, at: seq<nat>, w: seq<CommitRecord>)
    requires UniqueIds(commits) && ReadsAt(commits, at, w) && Rising(at, 0)
    ensures Distinct(commits, w)
  {
  }

  /** With room for every commit, the walk from any commit ends at a root, going strictly back in time. */
  lemma WalkReachesRoot(s: Repo, i: nat, limit: int) returns (w: seq<CommitRecord>, at: seq<nat>)
    requires Inv(s) && i < |s.commits| && limit >= |s.commits| - i
    ensures w == Walk(s.commits, s.commits[i].id, limit)
    ensures |w| <= |s.commits| - i
    ensures IsChain(w, s.commits[i].id)
    ensures ReadsAt(s.commits, at, w) && Rising(at, i) && Distinct(s.commits, w)
  {
    w := Walk(s.commits, s.commits[i].id, limit);
    var next := ParentsStepDown(s);
    WalkIsChain(s.commits, next, i, limit);
    at := WalkPositions(s.commits, next, i, limit);
    RisingIsShort(at, i, |s.commits|);
    RisingIsDistinct(s.commits, at, w);
  }

  lemma ChainCons(c: CommitRecord, rest: seq<CommitRecord>)
    requires |c.parents| == 1 && IsChain(rest, c.parents[0])
    ensures IsChain([c] + rest, c.id)
  {
    var w := [c] + rest;
    forall k | 0 <= k < |w| - 1 ensures Linked(w, k)
    {
      if k > 0 {
        assert Linked(rest, k - 1);
        assert w[k] == rest[k - 1] && w[k + 1] == rest[k];
      } else {
        assert w[1] == rest[0];
      }
    }
    assert w[|w| - 1] == rest[|rest| - 1];
  }

  /** A smaller limit cuts the same walk short. */
  lemma {:induction false} WalkIsPrefix(commits: seq<CommitRecord>, cursor: string, small: nat, large: nat)
    requires small <= large
    ensures var w := Walk(commits, cursor, large);
            Walk(commits, cursor, small) == if small <= |w| then w[..small] else w
    decreases large
  {
    if 0 < small && cursor != "" {
      var found := FindId(commits, cursor);
      if found.Some? && found.value.parents != [] {
        var next := found.value.parents[0];
        WalkIsPrefix(commits, next, small - 1, large - 1);
        var rest := Walk(commits, next, large - 1);
        if small - 1 <= |rest| {
          assert ([found.value] + rest)[..small] == [found.value] + rest[..small - 1];
        }
      }
    }
  }

  /**
   * `log` on an existing branch, for any limit: the first `limit` commits of one
   * chain of distinct commits that ends at a parentless root.
   */
  lemma LogIsChainPrefix(s: Repo, ref: Option<string>, limit: nat) returns (chain: seq<CommitRecord>)
    requires Inv(s) && ref.GetOr("main") in s.refs
    ensures IsChain(chain, s.refs[ref.GetOr("main")])
    ensures chain == LogOf(s, ref, |s.commits|)
    ensures Distinct(s.commits, chain)
    ensures LogOf(s, ref, limit) == if limit <= |chain| then chain[..limit] else chain
  {
    var head := s.refs[ref.GetOr("main")];
    var i := Locate(s, head, 0);
    var n := |s.commits|;
    ghost var at;
    chain, at := WalkReachesRoot(s, i, n);
    if limit <= n {
      WalkIsPrefix(s.commits, head, limit, n);
    } else {
      LongerIsSame(s, i, limit);
    }
  }

  /** A limit beyond the number of commits makes no difference. */
  lemma LongerIsSame(s: Repo, i: nat, limit: nat)
    requires Inv(s) && i < |s.commits| <= limit
    ensures Walk(s.commits, s.commits[i].id, limit) == Walk(s.commits, s.commits[i].id, |s.commits|)
    ensures |Walk(s.commits, s.commits[i].id, limit)| <= limit
  {
    var longer, at := WalkReachesRoot(s, i, limit);
    WalkIsPrefix(s.commits, s.commits[i].id, |s.commits|, limit);
  }

  // ----- Name resolution -----

  /** No branch is called `id`, or one is and it points at that very commit. */
  predicate Unshadowed(s: Repo, id: string) {
    id in s.refs ==> s.refs[id] == id
  }

  lemma {:induction false} PrefixOfSameLengthIsExact(commits: seq<CommitRecord>, id: string)
    requires forall i :: 0 <= i < |commits| ==> |commits[i].id| == |id|
    ensures FindPrefix(commits, id) == FindId(commits, id)
    decreases |commits|
  {
    if commits != [] {
      assert id <= commits[0].id ==> id == commits[0].id;
      forall i | 0 <= i < |commits[1..]| ensures |commits[1..][i].id| == |id|
      {
        assert commits[1..][i] == commits[i + 1];
      }
      PrefixOfSameLengthIsExact(commits[1..], id);
    }
  }

  /**
   * A full commit id resolves to that commit exactly when no branch of the same
   * name points elsewhere.
   */
  lemma ResolveExact(s: Repo, i: nat)
    requires Inv(s) && i < |s.commits|
    ensures Resolve(s, s.commits[i].id) == Ok(s.commits[i]) <==> Unshadowed(s, s.commits[i].id)
  {
    var id := s.commits[i].id;
    assert CommitOk(s, i) && id[0] == 'c';
    FindSelf(s.commits, i);
    if id in s.refs {
      var j := Locate(s, s.refs[id], 0);
    } else {
      forall k | 0 <= k < |s.commits| ensures |s.commits[k].id| == |id|
      {
        assert CommitOk(s, k);
      }
      PrefixOfSameLengthIsExact(s.commits, id);
    }
  }

  /** A branch resolves to its head, which exists. */
  lemma BranchResolves(s: Repo, branch: string)
    requires Inv(s) && branch in s.refs && branch != "HEAD"
    ensures exists i :: 0 <= i < |s.commits| && s.commits[i].id == s.refs[branch]
                        && Resolve(s, branch) == Ok(s.commits[i])
  {
    var i := Locate(s, s.refs[branch], 0);
  }

  /**
   * Any other name: HEAD is `main`; else the newest commit whose id begins with the name; else
   * it is unknown, or there is nothing yet.
   */
  lemma ResolveAnyName(s: Repo, name: string)
    ensures "main" in s.refs ==> Resolve(s, "HEAD") == Resolve(s, "main")
    ensures var branch := if name == "HEAD" then "main" else name;
            branch !in s.refs ==>
              && (forall i :: 0 <= i < |s.commits| && name <= s.commits[i].id
                              && (forall j :: 0 <= j < i ==> !(name <= s.commits[j].id)) ==>
                    Resolve(s, name) == Ok(s.commits[i]))
              && ((forall i :: 0 <= i < |s.commits| ==> !(name <= s.commits[i].id)) ==>
                   Resolve(s, name) == Err(if branch == "main" then NoCommits else UnknownCommit))
  {
    FindPrefixSpec(s.commits, name);
  }

  lemma {:induction false} FindPrefixSpec(commits: seq<CommitRecord>, name: string)
    ensures forall i :: 0 <= i < |commits| && name <= commits[i].id
                        && (forall j :: 0 <= j < i ==> !(name <= commits[j].id)) ==>
              FindPrefix(commits, name) == Some(commits[i])
    ensures (forall i :: 0 <= i < |commits| ==> !(name <= commits[i].id)) ==> FindPrefix(commits, name) == None
    decreases |commits|
  {
    if commits != [] && !(name <= commits[0].id) {
      FindPrefixSpec(commits[1..], name);
      forall i | 0 <= i < |commits| && name <= commits[i].id && (forall j :: 0 <= j < i ==> !(name <= commits[j].id))
        ensures FindPrefix(commits, name) == Some(commits[i])
      {
        assert commits[i] == commits[1..][i - 1];
        assert forall j :: 0 <= j < i - 1 ==> commits[1..][j] == commits[j + 1];
      }
    }
  }

  /** `show` of an unshadowed commit: the commit, the paths of its snapshot, and what turns its parent's into it. */
  lemma ShowExact(s: Repo, i: nat, p: string)
    requires Inv(s) && i < |s.commits| && Unshadowed(s, s.commits[i].id)
    requires s.commits[i].parents != [] ==> Unshadowed(s, s.commits[i].parents[0])
    ensures var c, shown := s.commits[i], ShowOf(s, s.commits[i].id);
            && shown.Ok? && shown.value.commit == c
            && (p in shown.value.files <==> p in SnapshotOf(s, c))
            && (c.parents == [] ==> Apply(shown.value.changes, map[]) == SnapshotOf(s, c))
            && (c.parents != [] ==>
                 exists k :: i < k < |s.commits| && s.commits[k].id == c.parents[0]
                             && Apply(shown.value.changes, SnapshotOf(s, s.commits[k])) == SnapshotOf(s, c)
                             && shown.value.changes == DiffOf(SnapshotOf(s, s.commits[k]), SnapshotOf(s, c)))
  {
    ResolveExact(s, i);
    var c := s.commits[i];
    if c.parents == [] {
      ApplyDiff(map[], SnapshotOf(s, c));
    } else {
      assert CommitOk(s, i);
      var k := Locate(s, c.parents[0], i + 1);
      ResolveExact(s, k);
      ApplyDiff(SnapshotOf(s, s.commits[k]), SnapshotOf(s, c));
    }
  }

  /** `diff` of two names turns the first snapshot, within the prefix, into the second. */
  lemma DiffTurnsOneIntoTheOther(
    s: Repo, from: string, to': string, prefix: Option<string>, a: CommitRecord, b: CommitRecord)
    requires Resolve(s, from) == Ok(a) && Resolve(s, to') == Ok(b)
    ensures var d := DiffStep(s, from, to', prefix);
            var x, y := FilterByPrefix(SnapshotOf(s, a), prefix), FilterByPrefix(SnapshotOf(s, b), prefix);
            d.Ok? && Apply(d.value, x) == y && (d.value.IsEmpty() <==> x == y)
  {
    FilterCommutesWithDiff(SnapshotOf(s, a), SnapshotOf(s, b), prefix);
    var x, y := FilterByPrefix(SnapshotOf(s, a), prefix), FilterByPrefix(SnapshotOf(s, b), prefix);
    ApplyDiff(x, y);
    EmptyIffEqual(x, y);
  }

  // ----- Restoring -----

  /**
   * After a restore each selected path holds what the commit's snapshot holds, every other path
   * what it held before; no commit, snapshot or branch changes.
   */
  lemma RestoreExact(s: Repo, name: string, path: Option<string>, prefix: Option<string>, c: CommitRecord, p: string)
    requires Resolve(s, name) == Ok(c)
    ensures var (t, out) := RestoreStep(s, name, path, prefix);
            var picked :=
              && p in SnapshotOf(s, c)
              && (path.None? || path.value == "" || path.value == p)
              && (prefix.None? || prefix.value == "" || prefix.value <= p);
            && out.Ok? && (p in out.value <==> picked)
            && Get(t.tree, p) == (if picked then Get(SnapshotOf(s, c), p) else Get(s.tree, p))
            && t.commits == s.commits && t.snapshots == s.snapshots && t.refs == s.refs
  {
  }

  /**
   * A full restore makes the tree the snapshot again if and only if the tree holds no other
   * path: what was added since stays.
   */
  lemma RestoreBringsBack(s: Repo, name: string, c: CommitRecord)
    requires Resolve(s, name) == Ok(c)
    ensures RestoreStep(s, name, None, None).0.tree == SnapshotOf(s, c) <==> s.tree.Keys <= SnapshotOf(s, c).Keys
  {
    var t := RestoreStep(s, name, None, None).0;
    forall p ensures Get(t.tree, p) == if p in SnapshotOf(s, c) then Get(SnapshotOf(s, c), p) else Get(s.tree, p)
    {
      RestoreExact(s, name, None, None, c, p);
    }
    SameEntries(t.tree, SnapshotOf(s, c));
    if t.tree == SnapshotOf(s, c) {
      forall p | p in s.tree ensures p in SnapshotOf(s, c)
      {
        assert Get(s.tree, p).Some? && Get(t.tree, p).Some?;
      }
    }
  }

  lemma SameEntries(a: Tree, b: Tree)
    ensures a == b <==> forall p :: Get(a, p) == Get(b, p)
  {
    if forall p :: Get(a, p) == Get(b, p) {
      forall p ensures (p in a <==> p in b) && (p in a ==> a[p] == b[p])
      {
        assert Get(a, p) == Get(b, p);
      }
    }
  }

  /** The commit that `commit` compares the selected tree with: what the id of the branch's head resolves to. */
  function Compared(s: Repo, branch: string): Option<CommitRecord>
    requires branch in s.refs
  {
    match Resolve(s, s.refs[branch])
    case Ok(c) => Some(c)
    case Err(_) => None
  }

  function Head(s: Repo, branch: string): Option<CommitRecord>
    requires branch in s.refs
  {
    FindId(s.commits, s.refs[branch])
  }

  /** A branch's head exists, and so does what it is compared with; they are the same unless the head is shadowed. */
  lemma HeadExists(s: Repo, branch: string)
    requires Inv(s) && branch in s.refs
    ensures Head(s, branch).Some? && Head(s, branch).value.id == s.refs[branch]
    ensures Compared(s, branch).Some? && Compared(s, branch).value.snapshot in s.snapshots
    ensures Compared(s, branch) == Head(s, branch) <==> Unshadowed(s, s.refs[branch])
  {
    var i := Locate(s, s.refs[branch], 0);
    ResolveExact(s, i);
    assert CommitOk(s, i) && s.refs[branch][0] == 'c';
    if s.refs[branch] in s.refs {
      var j := Locate(s, s.refs[s.refs[branch]], 0);
    }
  }

  /** The whole meaning of a commit, in terms of snapshots; it never fails. */
  lemma CommitExact(s: Repo, a: CommitArgs, f: Fresh)
    requires Inv(s)
    ensures var (t, out) := CommitStep(s, a, f);
            var r, scoped := a.ref.GetOr("main"), FilterByPrefix(s.tree, a.prefix);
            && out.Ok?
            && (out.value.created <==> r !in s.refs || SnapshotOf(s, Compared(s, r).value) != scoped)
            && (if out.value.created then
                  && t.refs == s.refs[r := f.id] && t.tree == s.tree
                  && t.commits == [out.value.commit] + s.commits
                  && out.value.commit == CommitRecord(
                       f.id, a.message, f.now, if r in s.refs then [s.refs[r]] else [], f.snapshot, a.author)
                  && SnapshotOf(t, out.value.commit) == scoped
                else t == s && Compared(s, r) == Some(out.value.commit))
  {
    var r := a.ref.GetOr("main");
    if r in s.refs {
      HeadExists(s, r);
      EmptyIffEqual(SnapshotOf(s, Compared(s, r).value), FilterByPrefix(s.tree, a.prefix));
    }
  }

  /** Committing to the branch records something exactly when the selected tree differs from the head's snapshot. */
  predicate RecordsChange(s: Repo, tree: Tree, a: CommitArgs, f: Fresh)
    requires a.ref.GetOr("main") in s.refs
  {
    var out := CommitStep(s.(tree := tree), a, f).1;
    var head := Head(s, a.ref.GetOr("main"));
    out.Ok? && head.Some? && (out.value.created <==> FilterByPrefix(tree, a.prefix) != SnapshotOf(s, head.value))
  }

  /** Where the two snapshots differ, committing the head's own tree again records it as a change. */
  lemma MisledCommit(s: Repo, branch: string) returns (tree: Tree, a: CommitArgs, f: Fresh)
    requires Inv(s) && branch in s.refs && Head(s, branch).Some? && Compared(s, branch).Some?
    requires SnapshotOf(s, Compared(s, branch).value) != SnapshotOf(s, Head(s, branch).value)
    ensures a.ref.GetOr("main") == branch && !RecordsChange(s, tree, a, f)
  {
    tree := SnapshotOf(s, Head(s, branch).value);
    a, f := CommitArgs(None, None, None, Some(branch)), Fresh("", "", "");
    SameBut(s, tree);
    CommitExact(s.(tree := tree), a, f);
  }

  /**
   * It does so for every tree and prefix if and only if no branch is named after the head,
   * or the commit that branch is on has the same snapshot.
   */
  lemma CommitsOnlyChanges(s: Repo, branch: string)
    requires Inv(s) && branch in s.refs
    ensures Head(s, branch).Some? && Compared(s, branch).Some?
    ensures (forall tree, a: CommitArgs, f :: a.ref.GetOr("main") == branch ==> RecordsChange(s, tree, a, f))
            <==> SnapshotOf(s, Compared(s, branch).value) == SnapshotOf(s, Head(s, branch).value)
    ensures Unshadowed(s, s.refs[branch]) ==> Compared(s, branch) == Head(s, branch)
  {
    HeadExists(s, branch);
    var head, compared := SnapshotOf(s, Head(s, branch).value), SnapshotOf(s, Compared(s, branch).value);
    forall tree, a: CommitArgs, f | a.ref.GetOr("main") == branch
      ensures RecordsChange(s, tree, a, f) <==>
              (compared == FilterByPrefix(tree, a.prefix) <==> head == FilterByPrefix(tree, a.prefix))
    {
      SameBut(s, tree);
      CommitExact(s.(tree := tree), a, f);
    }
    if compared != head {
      var tree, a, f := MisledCommit(s, branch);
    }
  }

  /** The working tree plays no part in what is recorded. */
  lemma SameBut(s: Repo, tree: Tree)
    requires Inv(s)
    ensures Inv(s.(tree := tree))
    ensures forall id :: Resolve(s.(tree := tree), id) == Resolve(s, id)
  {
    forall i | 0 <= i < |s.commits| ensures CommitOk(s.(tree := tree), i)
    {
      assert CommitOk(s, i);
    }
  }

  // ----- Replay -----

  /** Apply what `show` reports for each commit of a log, oldest first, to an empty tree. */
  function Replay(s: Repo, log: seq<CommitRecord>): Tree {
    if log == [] then map[]
    else
      var older := Replay(s, log[1..]);
      match ShowOf(s, log[0].id)
      case Ok(shown) => Apply(shown.changes, older)
      case Err(_) => older
  }

  lemma {:induction false} ReplayChain(s: Repo, chain: seq<CommitRecord>)
    requires Inv(s) && chain != [] && IsChain(chain, chain[0].id)
    requires forall k :: 0 <= k < |chain| ==> chain[k] in s.commits && Unshadowed(s, chain[k].id)
    ensures Replay(s, chain) == SnapshotOf(s, chain[0])
    decreases |chain|
  {
    var i :| 0 <= i < |s.commits| && s.commits[i] == chain[0];
    ResolveExact(s, i);
    if |chain| == 1 {
      ApplyDiff(map[], SnapshotOf(s, chain[0]));
      assert Replay(s, chain[1..]) == map[];
    } else {
      var rest := chain[1..];
      assert rest[0] == chain[1];
      assert Linked(chain, 0);
      forall k | 0 <= k < |rest| - 1 ensures Linked(rest, k)
      {
        assert Linked(chain, k + 1);
        assert rest[k] == chain[k + 1] && rest[k + 1] == chain[k + 2];
      }
      ReplayChain(s, rest);
      var j :| 0 <= j < |s.commits| && s.commits[j] == chain[1];
      ResolveExact(s, j);
      ApplyDiff(SnapshotOf(s, chain[1]), SnapshotOf(s, chain[0]));
    }
  }

  /**
   * History replay: after any legal run, for any branch whose history no branch
   * name shadows, replaying the full log rebuilds exactly the head's snapshot.
   */
  lemma LogReplaysToHead(ops: seq<Op>, ref: Option<string>, limit: nat)
    requires LegalRun(EMPTY, ops)
    requires var s := Run(EMPTY, ops);
             && ref.GetOr("main") in s.refs
             && |LogOf(s, ref, |s.commits|)| <= limit
             && forall c :: c in LogOf(s, ref, |s.commits|) ==> Unshadowed(s, c.id)
    ensures var s := Run(EMPTY, ops);
            && FindId(s.commits, s.refs[ref.GetOr("main")]).Some?
            && Replay(s, LogOf(s, ref, limit)) == SnapshotOf(s, FindId(s.commits, s.refs[ref.GetOr("main")]).value)
  {
    RunKeeps(EMPTY, ops);
    var s := Run(EMPTY, ops);
    var head := s.refs[ref.GetOr("main")];
    var chain := LogIsChainPrefix(s, ref, limit);
    var i := Locate(s, head, 0);
    assert chain[0] == s.commits[i];
    assert LogOf(s, ref, limit) == chain by {
      assert chain[..|chain|] == chain;
    }
    ReplayChain(s, chain);
  }

  /** Branches never named like a commit shadow nothing. */
  lemma {:induction false} PlainNamesShadowNothing(s: Repo, ops: seq<Op>)
    requires forall r :: r in s.refs ==> !CommitIdShape(r)
    requires forall i :: 0 <= i < |ops| && ops[i].Commit? ==> !CommitIdShape(ops[i].args.ref.GetOr("main"))
    ensures forall id :: CommitIdShape(id) ==> Unshadowed(Run(s, ops), id)
    decreases |ops|
  {
    if ops != [] {
      var t := Step(s, ops[0]);
      assert forall r :: r in t.refs ==> r in s.refs || (ops[0].Commit? && r == ops[0].args.ref.GetOr("main"));
      PlainNamesShadowNothing(t, ops[1..]);
    }
  }

  /** Replaying the full log of the branch rebuilds its head. */
  predicate Replays(s: Repo, branch: string) {
    branch in s.refs ==>
      Head(s, branch).Some? && Replay(s, LogOf(s, Some(branch), |s.commits|)) == SnapshotOf(s, Head(s, branch).value)
  }

  predicate OnlyOn(ops: seq<Op>, branches: set<string>) {
    forall i :: 0 <= i < |ops| && ops[i].Commit? ==> ops[i].args.ref.GetOr("main") in branches
  }

  /**
   * Replay, exactly: every legal run that commits to some set of branches, one of which is
   * `branch`, can replay the log of `branch`, if and only if none of them is named like a
   * commit.
   */
  lemma ReplaysIffPlainNames(branches: set<string>, branch: string)
    requires branch in branches
    ensures (forall ops :: LegalRun(EMPTY, ops) && OnlyOn(ops, branches) ==> Replays(Run(EMPTY, ops), branch))
            <==> forall n :: n in branches ==> !CommitIdShape(n)
  {
    if forall n :: n in branches ==> !CommitIdShape(n) {
      forall ops | LegalRun(EMPTY, ops) && OnlyOn(ops, branches) ensures Replays(Run(EMPTY, ops), branch)
      {
        PlainRunReplays(ops, branch);
      }
    } else {
      var n :| n in branches && CommitIdShape(n);
      ShadowingBreaksReplay(n, branch);
      assert OnlyOn(ShadowingOps(n, branch), branches);
    }
  }

  lemma PlainRunReplays(ops: seq<Op>, branch: string)
    requires LegalRun(EMPTY, ops)
    requires forall i :: 0 <= i < |ops| && ops[i].Commit? ==> !CommitIdShape(ops[i].args.ref.GetOr("main"))
    ensures Replays(Run(EMPTY, ops), branch)
  {
    var s := Run(EMPTY, ops);
    if branch in s.refs {
      PlainNamesShadowNothing(EMPTY, ops);
      RunKeeps(EMPTY, ops);
      var chain := LogIsChainPrefix(s, Some(branch), |s.commits|);
      var i := Locate(s, s.refs[branch], 0);
      forall c | c in LogOf(s, Some(branch), |s.commits|) ensures Unshadowed(s, c.id)
      {
        var k :| 0 <= k < |s.commits| && s.commits[k] == c;
        assert CommitOk(s, k);
      }
      LogReplaysToHead(ops, Some(branch), |s.commits|);
    }
  }

  // ----- The run on which replay fails -----

  const FIRST_TREE: Tree := map["a" := "x"]
  const SECOND_TREE: Tree := map["a" := "x", "b" := "y"]

  /** Some commit id other than `n`. */
  function Other(n: string): (id: string)
    ensures CommitIdShape(id) && id != n
  {
    var a, b := "cmt-aaaaaaaa-aaa", "cmt-bbbbbbbb-bbb";
    assert a[4..] == "aaaaaaaa-aaa" && b[4..] == "bbbbbbbb-bbb" && a[4] != b[4];
    if n == a then b else a
  }

  /** A commit that gets the id `n`, on any branch, and then one on a branch named `n`. */
  function ShadowingOps(n: string, branch: string): seq<Op> {
    [Stage("a", "x"), Commit(CommitArgs(None, None, None, Some(branch)), Fresh(n, "snap-1", "t1")),
     Stage("b", "y"), Commit(CommitArgs(None, None, None, Some(n)), Fresh(Other(n), "snap-2", "t2"))]
  }

  function First(n: string): CommitRecord {
    CommitRecord(n, None, "t1", [], "snap-1", None)
  }

  function Second(n: string, branch: string): CommitRecord {
    CommitRecord(Other(n), None, "t2", if branch == n then [n] else [], "snap-2", None)
  }

  function ShadowedRepo(n: string, branch: string): Repo {
    Repo([Second(n, branch), First(n)], map["snap-1" := FIRST_TREE, "snap-2" := SECOND_TREE],
         map[branch := n][n := Other(n)], SECOND_TREE)
  }

  lemma ShadowedRun(n: string, branch: string)
    requires CommitIdShape(n)
    ensures LegalRun(EMPTY, ShadowingOps(n, branch))
    ensures Run(EMPTY, ShadowingOps(n, branch)) == ShadowedRepo(n, branch)
  {
    var ops := ShadowingOps(n, branch);
    var s1 := Repo([], map[], map[], FIRST_TREE);
    var s2 := Repo([First(n)], map["snap-1" := FIRST_TREE], map[branch := n], FIRST_TREE);
    var s3 := s2.(tree := SECOND_TREE);
    assert Step(EMPTY, ops[0]) == s1 && Step(s2, ops[2]) == s3;
    FirstCommit(n, branch, s1);
    SecondCommit(n, branch, s3);
    Unroll(EMPTY, ops, 0);
    Unroll(s1, ops, 1);
    Unroll(s2, ops, 2);
    Unroll(s3, ops, 3);
  }

  lemma FirstCommit(n: string, branch: string, s: Repo)
    requires CommitIdShape(n) && s == Repo([], map[], map[], FIRST_TREE)
    ensures Legal(s, ShadowingOps(n, branch)[1])
    ensures Step(s, ShadowingOps(n, branch)[1])
         == Repo([First(n)], map["snap-1" := FIRST_TREE], map[branch := n], FIRST_TREE)
  {
  }

  lemma SecondCommit(n: string, branch: string, s: Repo)
    requires CommitIdShape(n) && s == Repo([First(n)], map["snap-1" := FIRST_TREE], map[branch := n], SECOND_TREE)
    ensures Legal(s, ShadowingOps(n, branch)[3])
    ensures Step(s, ShadowingOps(n, branch)[3]) == ShadowedRepo(n, branch)
  {
    assert FindId([First(n)][1..], Other(n)) == None;
    if branch == n {
      assert Resolve(s, n) == Ok(First(n));
      assert "b" !in FIRST_TREE;
      EmptyIffEqual(FIRST_TREE, SECOND_TREE);
    }
  }

  lemma Unroll(s: Repo, ops: seq<Op>, k: nat)
    requires k < |ops|
    ensures Run(s, ops[k..]) == Run(Step(s, ops[k]), ops[k + 1..])
    ensures LegalRun(s, ops[k..]) <==> Legal(s, ops[k]) && LegalRun(Step(s, ops[k]), ops[k + 1..])
    ensures ops[0..] == ops && ops[|ops|..] == []
  {
    assert ops[k..][1..] == ops[k + 1..];
  }

  /** On it, `show` of the commit `n` reports the other commit instead, and the log of the branch replays wrongly. */
  lemma ShadowingBreaksReplay(n: string, branch: string)
    requires CommitIdShape(n)
    ensures LegalRun(EMPTY, ShadowingOps(n, branch)) && OnlyOn(ShadowingOps(n, branch), {n, branch})
    ensures !Replays(Run(EMPTY, ShadowingOps(n, branch)), branch)
  {
    ShadowedRun(n, branch);
    ShadowingIsOnlyOn(n, branch);
    var s := ShadowedRepo(n, branch);
    assert n[0] == 'c';
    assert FindId(s.commits[1..], n) == Some(First(n));
    assert Resolve(s, n) == Ok(Second(n, branch));
    assert "b" in SECOND_TREE && "b" !in FIRST_TREE;
    if branch == n {
      OneBranchReplay(n, s);
    } else {
      TwoBranchReplay(n, branch, s);
    }
  }

  lemma TwoBranchReplay(n: string, branch: string, s: Repo)
    requires branch != n && s == ShadowedRepo(n, branch) && Resolve(s, n) == Ok(Second(n, branch)) && n != ""
    requires FindId(s.commits, n) == Some(First(n))
    ensures Replay(s, LogOf(s, Some(branch), 2)) == SECOND_TREE
    ensures Head(s, branch) == Some(First(n)) && SnapshotOf(s, First(n)) == FIRST_TREE
  {
    assert LogOf(s, Some(branch), 2) == [First(n)];
    assert [First(n)][1..] == [];
    ApplyDiff(map[], SECOND_TREE);
  }

  /** With a single branch, both commits show as the second one against itself. */
  lemma OneBranchReplay(n: string, s: Repo)
    requires s == ShadowedRepo(n, n) && Resolve(s, n) == Ok(Second(n, n)) && CommitIdShape(n)
    requires FindId(s.commits, n) == Some(First(n))
    ensures Replay(s, LogOf(s, Some(n), 2)) == map[]
    ensures Head(s, n) == Some(Second(n, n)) && SnapshotOf(s, Second(n, n)) == SECOND_TREE
  {
    var one, two := First(n), Second(n, n);
    OneBranchLog(n, s);
    BothShowNothing(n, s);
    assert [two, one][1..] == [one] && [one][1..] == [];
    ReplayNothing(s, [one]);
    ReplayNothing(s, [two, one]);
  }

  lemma OneBranchLog(n: string, s: Repo)
    requires s == ShadowedRepo(n, n) && n != "" && FindId(s.commits, n) == Some(First(n))
    ensures LogOf(s, Some(n), 2) == [Second(n, n), First(n)]
  {
    assert Other(n) != "";
    assert Walk(s.commits, n, 1) == [First(n)];
    assert Walk(s.commits, Other(n), 2) == [Second(n, n)] + Walk(s.commits, n, 1);
  }

  lemma BothShowNothing(n: string, s: Repo)
    requires s == ShadowedRepo(n, n) && Resolve(s, n) == Ok(Second(n, n))
    ensures ShowOf(s, n).Ok? && ShowOf(s, n).value.changes.IsEmpty()
    ensures ShowOf(s, Other(n)).Ok? && ShowOf(s, Other(n)).value.changes.IsEmpty()
  {
    OtherResolves(n, s);
    EmptyIffEqual(SECOND_TREE, SECOND_TREE);
  }

  lemma OtherResolves(n: string, s: Repo)
    requires s == ShadowedRepo(n, n)
    ensures Resolve(s, Other(n)) == Ok(Second(n, n))
  {
    assert Other(n)[0] == 'c' && Other(n) !in s.refs;
  }

  lemma ReplayNothing(s: Repo, log: seq<CommitRecord>)
    requires log != [] && Replay(s, log[1..]) == map[]
    requires ShowOf(s, log[0].id).Ok? && ShowOf(s, log[0].id).value.changes.IsEmpty()
    ensures Replay(s, log) == map[]
  {
  }

  /** On the same run `commit` compares the branch with the other one, and for some tree decides wrongly. */
  lemma ShadowingMisleadsCommit(n: string, branch: string) returns (tree: Tree, a: CommitArgs, f: Fresh)
    requires CommitIdShape(n) && branch != n
    ensures LegalRun(EMPTY, ShadowingOps(n, branch)) && OnlyOn(ShadowingOps(n, branch), {n, branch})
    ensures var s := Run(EMPTY, ShadowingOps(n, branch));
            branch in s.refs && a.ref.GetOr("main") == branch && !RecordsChange(s, tree, a, f)
  {
    ShadowedRun(n, branch);
    ShadowedInv(n, branch);
    ShadowingIsOnlyOn(n, branch);
    var s := ShadowedRepo(n, branch);
    TwoBranchHeads(n, branch, s);
    tree, a, f := MisledCommit(s, branch);
  }

  lemma ShadowedInv(n: string, branch: string)
    requires CommitIdShape(n)
    ensures Inv(ShadowedRepo(n, branch))
  {
    ShadowedRun(n, branch);
    RunKeeps(EMPTY, ShadowingOps(n, branch));
  }

  lemma ShadowingIsOnlyOn(n: string, branch: string)
    ensures OnlyOn(ShadowingOps(n, branch), {n, branch})
  {
  }

  lemma TwoBranchHeads(n: string, branch: string, s: Repo)
    requires branch != n && s == ShadowedRepo(n, branch) && CommitIdShape(n)
    ensures Head(s, branch) == Some(First(n)) && Compared(s, branch) == Some(Second(n, branch))
    ensures SnapshotOf(s, First(n)) != SnapshotOf(s, Second(n, branch))
  {
    assert n[0] == 'c' && FindId(s.commits[1..], n) == Some(First(n));
    assert Resolve(s, n) == Ok(Second(n, branch));
    assert "b" in SECOND_TREE && "b" !in FIRST_TREE;
  }
}
