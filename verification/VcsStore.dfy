/**
 * The in-memory commit store (packages/native/src/vcs.ts, createMemoryVcsBackend):
 * the pure meaning of every operation on a repository value, and the object that
 * updates its four collections in place.
 */
module VcsStore {
  import opened Common
  import opened VcsDiff

  datatype CommitRecord = CommitRecord(
    id: string, message: Option<string>, createdAt: string, parents: seq<string>, snapshot: string,
    author: Option<string>)

  datatype VcsError = NoCommits | UnknownCommit | Dangling

  /** `commits` is newest first: a commit is put in front of all earlier ones. */
  datatype Repo = Repo(commits: seq<CommitRecord>, snapshots: map<string, Tree>, refs: map<string, string>, tree: Tree)

  datatype CommitArgs = CommitArgs(
    message: Option<string>, author: Option<string>, prefix: Option<string>, ref: Option<string>)
  /** What the source draws from its random source and its clock. */
  datatype Fresh = Fresh(id: string, snapshot: string, now: string)
  datatype CommitOutcome = CommitOutcome(commit: CommitRecord, created: bool)
  datatype ShowResult = ShowResult(commit: CommitRecord, files: set<string>, changes: Diff)

  const EMPTY := Repo([], map[], map[], map[])

  // ----- Lookups -----

  function FindId(commits: seq<CommitRecord>, id: string): Option<CommitRecord> {
    if commits == [] then None
    else if commits[0].id == id then Some(commits[0])
    else FindId(commits[1..], id)
  }

  lemma {:induction false} FindIdSpec(commits: seq<CommitRecord>, id: string)
    ensures var r := FindId(commits, id);
            && (r.Some? <==> exists i :: 0 <= i < |commits| && commits[i].id == id)
            && (r.Some? ==> r.value in commits && r.value.id == id)
    decreases |commits|
  {
    if commits != [] && commits[0].id != id {
      FindIdSpec(commits[1..], id);
      assert forall i :: 0 < i < |commits| ==> commits[i] == commits[1..][i - 1];
    }
  }

  /** The newest commit whose id starts with `commitish`. */
  function FindPrefix(commits: seq<CommitRecord>, commitish: string): Option<CommitRecord> {
    if commits == [] then None
    else if commitish <= commits[0].id then Some(commits[0])
    else FindPrefix(commits[1..], commitish)
  }

  /** Branch names win over commit ids, and ids may be abbreviated. */
  function Resolve(s: Repo, commitish: string): Result<CommitRecord, VcsError> {
    var target := Get(s.refs, if commitish == "HEAD" then "main" else commitish);
    if target.Some? then
      match FindId(s.commits, target.value)
      case Some(c) => Ok(c)
      case None => Err(Dangling)
    else
      match FindPrefix(s.commits, commitish)
      case Some(c) => Ok(c)
      case None => Err(if commitish == "main" || commitish == "HEAD" then NoCommits else UnknownCommit)
  }

  // ----- Operations -----

  function StageStep(s: Repo, path: string, hash: Hash): Repo {
    s.(tree := s.tree[path := hash])
  }

  function CommitStep(s: Repo, a: CommitArgs, f: Fresh): (Repo, Result<CommitOutcome, VcsError>) {
    var ref := a.ref.GetOr("main");
    var scoped := FilterByPrefix(s.tree, a.prefix);
    if ref !in s.refs then
      Record(s, a, f, scoped, [])
    else
      match Resolve(s, s.refs[ref])
      case Err(e) => (s, Err(e))
      case Ok(parent) =>
        if parent.snapshot !in s.snapshots then (s, Err(Dangling))
        else if DiffOf(s.snapshots[parent.snapshot], scoped).IsEmpty() then (s, Ok(CommitOutcome(parent, false)))
        else Record(s, a, f, scoped, [s.refs[ref]])
  }

  function Record(
    s: Repo, a: CommitArgs, f: Fresh, scoped: Tree, parents: seq<string>): (Repo, Result<CommitOutcome, VcsError>) {
    var c := CommitRecord(f.id, a.message, f.now, parents, f.snapshot, a.author);
    (Repo([c] + s.commits, s.snapshots[f.snapshot := scoped], s.refs[a.ref.GetOr("main") := f.id], s.tree),
     Ok(CommitOutcome(c, true)))
  }

  /** First parents from `cursor` on, at most `limit` of them. */
  function Walk(commits: seq<CommitRecord>, cursor: string, limit: int): seq<CommitRecord>
    decreases limit
  {
    if limit <= 0 || cursor == "" then []
    else match FindId(commits, cursor)
      case None => []
      case Some(c) => [c] + if c.parents == [] then [] else Walk(commits, c.parents[0], limit - 1)
  }

  function LogOf(s: Repo, ref: Option<string>, limit: int): seq<CommitRecord> {
    var name := ref.GetOr("main");
    if name !in s.refs then [] else Walk(s.commits, s.refs[name], limit)
  }

  function SnapshotOf(s: Repo, c: CommitRecord): Tree {
    Get(s.snapshots, c.snapshot).GetOr(map[])
  }

  function ShowOf(s: Repo, commitish: string): Result<ShowResult, VcsError> {
    match Resolve(s, commitish)
    case Err(e) => Err(e)
    case Ok(c) =>
      var snap := SnapshotOf(s, c);
      if c.parents == [] then Ok(ShowResult(c, snap.Keys, DiffOf(map[], snap)))
      else match Resolve(s, c.parents[0])
        case Err(e) => Err(e)
        case Ok(p) => Ok(ShowResult(c, snap.Keys, DiffOf(SnapshotOf(s, p), snap)))
  }

  function DiffStep(s: Repo, from: string, to: string, prefix: Option<string>): Result<Diff, VcsError> {
    match (Resolve(s, from), Resolve(s, to))
    case (Err(e), _) => Err(e)
    case (_, Err(e)) => Err(e)
    case (Ok(a), Ok(b)) => Ok(FilterDiff(DiffOf(SnapshotOf(s, a), SnapshotOf(s, b)), prefix))
  }

  /** `path` must match exactly, `prefix` textually; an absent or empty one selects everything. */
  predicate Selected(p: string, path: Option<string>, prefix: Option<string>) {
    && (path.None? || path.value == "" || p == path.value)
    && (prefix.None? || prefix.value == "" || prefix.value <= p)
  }

  function Selection(t: Tree, path: Option<string>, prefix: Option<string>): Tree {
    map p | p in t && Selected(p, path, prefix) :: t[p]
  }

  function RestoreStep(
    s: Repo, commitish: string, path: Option<string>, prefix: Option<string>): (Repo, Result<set<string>, VcsError>) {
    match Resolve(s, commitish)
    case Err(e) => (s, Err(e))
    case Ok(c) =>
      var chosen := Selection(SnapshotOf(s, c), path, prefix);
      (s.(tree := s.tree + chosen), Ok(chosen.Keys))
  }

  lemma PutOver(a: Tree, b: Tree, p: string, h: Hash)
    ensures a + b[p := h] == (a + b)[p := h]
  {
  }

  function FirstParent(c: CommitRecord): Option<string> {
    if c.parents == [] then None else Some(c.parents[0])
  }

  function WalkFrom(commits: seq<CommitRecord>, cursor: Option<string>, limit: int): seq<CommitRecord> {
    if cursor.None? then [] else Walk(commits, cursor.value, limit)
  }

  lemma MoveOne<T>(xs: seq<T>, x: T, ys: seq<T>)
    ensures xs + ([x] + ys) == (xs + [x]) + ys
  {
  }

  // ----- The object -----

  class VcsBackend {
    var commits: seq<CommitRecord>
    var snapshots: map<string, Tree>
    var refs: map<string, string>
    var tree: Tree

    ghost function Value(): Repo
      reads this
    {
      Repo(commits, snapshots, refs, tree)
    }

    constructor ()
      ensures Value() == EMPTY
    {
      commits, snapshots, refs, tree := [], map[], map[], map[];
    }

    method Stage(path: string, hash: Hash)
      modifies this
      ensures Value() == StageStep(old(Value()), path, hash)
    {
      tree := tree[path := hash];
    }

    method Resolved(commitish: string) returns (r: Result<CommitRecord, VcsError>)
      ensures r == Resolve(Value(), commitish)
    {
      var target := if commitish == "HEAD" then Get(refs, "main") else Get(refs, commitish);
      if target.Some? {
        var hit := FindId(commits, target.value);
        return if hit.Some? then Ok(hit.value) else Err(Dangling);
      }
      var hit := FindPrefix(commits, commitish);
      if hit.None? {
        return Err(if commitish == "main" || commitish == "HEAD" then NoCommits else UnknownCommit);
      }
      return Ok(hit.value);
    }

    method Commit(a: CommitArgs, f: Fresh) returns (r: Result<CommitOutcome, VcsError>)
      modifies this
      ensures (Value(), r) == CommitStep(old(Value()), a, f)
    {
      var ref := a.ref.GetOr("main");
      var head := Get(refs, ref);
      var parentSnap: Tree := map[];
      var parent: Option<CommitRecord> := None;
      if head.Some? {
        var p := Resolved(head.value);
        if p.Err? { return Err(p.error); }
        if p.value.snapshot !in snapshots { return Err(Dangling); }
        parent, parentSnap := Some(p.value), snapshots[p.value.snapshot];
      }
      var scoped := FilterMap(tree, a.prefix);
      var changes := DiffMaps(parentSnap, scoped);
      if changes.IsEmpty() && parent.Some? {
        return Ok(CommitOutcome(parent.value, false));
      }
      var c := CommitRecord(f.id, a.message, f.now, if head.Some? then [head.value] else [], f.snapshot, a.author);
      snapshots := snapshots[f.snapshot := scoped];
      commits := [c] + commits;
      refs := refs[ref := f.id];
      r := Ok(CommitOutcome(c, true));
    }

    method Log(ref: Option<string>, limit: int) returns (history: seq<CommitRecord>)
      ensures history == LogOf(Value(), ref, limit)
    {
      history := [];
      var head := Get(refs, ref.GetOr("main"));
      if head.None? { return; }
      var cursor := head;
      while cursor.Some? && cursor.value != "" && |history| < limit
        invariant LogOf(Value(), ref, limit) == history + WalkFrom(commits, cursor, limit - |history|)
        decreases limit - |history|
      {
        var found := FindId(commits, cursor.value);
        if found.None? { break; }
        var parent := FirstParent(found.value);
        MoveOne(history, found.value, WalkFrom(commits, parent, limit - |history| - 1));
        history, cursor := history + [found.value], parent;
      }
    }

    method Show(commitish: string) returns (r: Result<ShowResult, VcsError>)
      ensures r == ShowOf(Value(), commitish)
    {
      var c := Resolved(commitish);
      if c.Err? { return Err(c.error); }
      var snap := Get(snapshots, c.value.snapshot).GetOr(map[]);
      var parentSnap: Tree := map[];
      if c.value.parents != [] {
        var p := Resolved(c.value.parents[0]);
        if p.Err? { return Err(p.error); }
        parentSnap := Get(snapshots, p.value.snapshot).GetOr(map[]);
      }
      var changes := DiffMaps(parentSnap, snap);
      r := Ok(ShowResult(c.value, snap.Keys, changes));
    }

    method Diff(from: string, to: string, prefix: Option<string>) returns (r: Result<VcsDiff.Diff, VcsError>)
      ensures r == DiffStep(Value(), from, to, prefix)
    {
      var a := Resolved(from);
      if a.Err? { return Err(a.error); }
      var b := Resolved(to);
      if b.Err? { return Err(b.error); }
      var d := DiffMaps(Get(snapshots, a.value.snapshot).GetOr(map[]), Get(snapshots, b.value.snapshot).GetOr(map[]));
      r := Ok(FilterDiff(d, prefix));
    }

    method Restore(
      commitish: string, path: Option<string>, prefix: Option<string>) returns (r: Result<set<string>, VcsError>)
      modifies this
      ensures (Value(), r) == RestoreStep(old(Value()), commitish, path, prefix)
    {
      var c := Resolved(commitish);
      if c.Err? { return Err(c.error); }
      var snap := Get(snapshots, c.value.snapshot).GetOr(map[]);
      var restored: set<string> := {};
      var todo := snap.Keys;
      ghost var done: Tree := map[];
      while todo != {}
        invariant todo <= snap.Keys
        invariant forall p :: p in done <==> p in snap && p !in todo && Selected(p, path, prefix)
        invariant forall p :: p in done ==> done[p] == snap[p]
        invariant restored == done.Keys && tree == old(tree) + done
        invariant commits == old(commits) && snapshots == old(snapshots) && refs == old(refs)
        decreases todo
      {
        var p :| p in todo;
        todo := todo - {p};
        if Selected(p, path, prefix) {
          PutOver(old(tree), done, p, snap[p]);
          tree := tree[p := snap[p]];
          restored := restored + {p};
          done := done[p := snap[p]];
        }
      }
      assert done == Selection(snap, path, prefix);
      r := Ok(restored);
    }
  }
}
