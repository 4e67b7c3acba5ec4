/**
 * Files of the native vfs (packages/native/src/vfs.ts, createMemoryVfsBackend):
 * conditional writes by etag, deletion, and stat against the listing of the parent.
 */
module VfsFiles {
  import opened Common
  import VfsListing

  /** An etag spells out the byte length and the millisecond of the write; nothing else enters it. */
  datatype Etag = Etag(size: nat, at: int)

  /** `size` is the byte length of the decoded content. */
  datatype Content = Content(text: string, base64: bool, size: nat)

  datatype Stored = Stored(content: Content, etag: Etag)

  type Files = map<string, Stored>

  datatype IfMatch = Unconditional | AnyExisting | Exactly(etag: Etag)

  datatype VfsError = Missing | EtagMismatch

  datatype Stat = FileStat(size: nat, etag: Etag) | DirectoryStat

  // ----- Operations -----

  function Refused(files: Files, path: string, cond: IfMatch): Option<VfsError> {
    match cond
    case Unconditional => None
    case AnyExisting => if path in files then None else Some(Missing)
    case Exactly(etag) => if path in files && files[path].etag == etag then None else Some(EtagMismatch)
  }

  function WriteStep(files: Files, path: string, c: Content, cond: IfMatch, now: int): (Files, Result<Etag, VfsError>) {
    var refused := Refused(files, path, cond);
    if refused.Some? then (files, Err(refused.value))
    else (files[path := Stored(c, Etag(c.size, now))], Ok(Etag(c.size, now)))
  }

  /** When a write goes through, and what is stored then. */
  lemma WriteExact(files: Files, path: string, c: Content, cond: IfMatch, now: int)
    ensures var (t, r) := WriteStep(files, path, c, cond, now);
            && (r.Ok? <==>
                 match cond
                 case Unconditional => true
                 case AnyExisting => path in files
                 case Exactly(etag) => path in files && files[path].etag == etag)
            && (r.Ok? ==> r.value == Etag(c.size, now) && t == files[path := Stored(c, r.value)])
            && (r.Err? ==> t == files && r.error == if cond.AnyExisting? then Missing else EtagMismatch)
  {
  }

  function StatOf(files: Files, path: string): Option<Stat> {
    if path in files then Some(FileStat(files[path].content.size, files[path].etag))
    else if VfsListing.HasBelow(files.Keys, path) then Some(DirectoryStat)
    else None
  }

  /** A written file is found with its size and the etag it was answered with; no other file changes. */
  lemma WrittenIsFound(files: Files, path: string, c: Content, cond: IfMatch, now: int, other: string)
    requires WriteStep(files, path, c, cond, now).1.Ok?
    ensures var (t, r) := WriteStep(files, path, c, cond, now);
            && StatOf(t, path) == Some(FileStat(c.size, r.value)) && t[path].content == c
            && (other != path && other in files ==> StatOf(t, other) == StatOf(files, other))
  {
  }

  class MemoryVfs {
    var files: Files

    constructor ()
      ensures files == map[]
    {
      files := map[];
    }

    method Write(path: string, c: Content, cond: IfMatch, now: int) returns (r: Result<Etag, VfsError>)
      modifies this
      ensures (files, r) == WriteStep(old(files), path, c, cond, now)
    {
      if cond == AnyExisting {
        if path !in files {
          return Err(Missing);
        }
      } else if cond.Exactly? {
        if path !in files || files[path].etag != cond.etag {
          return Err(EtagMismatch);
        }
      }
      var etag := Etag(c.size, now);
      files := files[path := Stored(c, etag)];
      return Ok(etag);
    }

    method Delete(path: string) returns (deleted: bool)
      modifies this
      ensures files == old(files) - {path} && deleted == (path in old(files))
    {
      deleted := path in files;
      files := files - {path};
    }

    method StatPath(path: string) returns (stat: Option<Stat>)
      ensures stat == StatOf(files, path)
    {
      if path in files {
        return Some(FileStat(files[path].content.size, files[path].etag));
      }
      var rest := files.Keys;
      while rest != {}
        invariant rest <= files.Keys
        invariant forall q :: q in files && q !in rest ==> !(path + "/" <= q)
        decreases |rest|
      {
        var candidate :| candidate in rest;
        if path + "/" <= candidate {
          return Some(DirectoryStat);
        }
        rest := rest - {candidate};
      }
      return None;
    }
  }

  // ----- Stat and listing -----

  /**
   * One level below a prefix, `stat` finds a file exactly where the listing shows one, and
   * a directory exactly where it shows a directory and no file.
   */
  lemma StatAgreesWithListing(files: Files, prefix: string, p: string)
    requires VfsListing.Relative(files.Keys) && VfsListing.Below(prefix, p) && '/' !in VfsListing.Rest(prefix, p)
    ensures var stat := StatOf(files, p);
            && (stat.Some? && stat.value.FileStat? <==> p in VfsListing.Direct(files.Keys, prefix))
            && (stat == Some(DirectoryStat) <==>
                  p in VfsListing.Dirs(files.Keys, prefix) && p !in VfsListing.Direct(files.Keys, prefix))
  {
    VfsListing.LeadingDir(files.Keys, prefix, p);
    assert Covers(p, p);
    if VfsListing.HasBelow(files.Keys, p) {
      var q :| q in files.Keys && p + "/" <= q;
      VfsListing.DirOfBelow(prefix, p, q);
    }
  }

  // ----- Conditional writes over runs -----

  datatype Op = Write(path: string, content: Content, cond: IfMatch, now: int) | Delete(path: string)

  function Step(files: Files, op: Op): Files {
    match op
    case Write(path, c, cond, now) => WriteStep(files, path, c, cond, now).0
    case Delete(path) => files - {path}
  }

  function Run(files: Files, ops: seq<Op>): Files {
    if ops == [] then files else Step(Run(files, ops[..|ops| - 1]), ops[|ops| - 1])
  }

  /** The operation writes `p`, or deletes a file there. */
  predicate Affects(files: Files, op: Op, p: string) {
    op.path == p && if op.Write? then Refused(files, p, op.cond).None? else p in files
  }

  /** Operation `i` of a run affects `p`. */
  predicate Touches(before: Files, ops: seq<Op>, i: int, p: string) {
    0 <= i < |ops| && Affects(Run(before, ops[..i]), ops[i], p)
  }

  ghost predicate Untouched(before: Files, ops: seq<Op>, p: string) {
    forall i :: !Touches(before, ops, i, p)
  }

  /** The last operation to touch `p` is a write that happens to make the same etag. */
  ghost predicate Mistaken(before: Files, ops: seq<Op>, i: int, p: string, etag: Etag) {
    && Touches(before, ops, i, p) && ops[i].Write? && Etag(ops[i].content.size, ops[i].now) == etag
    && forall j :: i < j ==> !Touches(before, ops, j, p)
  }

  lemma TouchesInit(before: Files, ops: seq<Op>, i: int, p: string)
    requires 0 <= i < |ops| - 1
    ensures Touches(before, ops[..|ops| - 1], i, p) <==> Touches(before, ops, i, p)
  {
    assert ops[..|ops| - 1][..i] == ops[..i];
  }

  lemma {:induction false} EtagHistory(before: Files, ops: seq<Op>, p: string, etag: Etag)
    requires p in before && before[p].etag == etag
    ensures Refused(Run(before, ops), p, Exactly(etag)).None?
            <==> Untouched(before, ops, p) || exists i :: Mistaken(before, ops, i, p, etag)
    ensures Untouched(before, ops, p) ==> Get(Run(before, ops), p) == Some(before[p])
    decreases |ops|
  {
    if ops != [] {
      var last, init := |ops| - 1, ops[..|ops| - 1];
      EtagHistory(before, init, p, etag);
      forall i | 0 <= i < last ensures Touches(before, init, i, p) <==> Touches(before, ops, i, p) {
        TouchesInit(before, ops, i, p);
      }
      if Touches(before, ops, last, p) {
        assert Refused(Run(before, ops), p, Exactly(etag)).None? <==> Mistaken(before, ops, last, p, etag);
      } else {
        assert Get(Run(before, ops), p) == Get(Run(before, init), p);
        assert Untouched(before, ops, p) <==> Untouched(before, init, p);
        forall i ensures Mistaken(before, ops, i, p, etag) <==> Mistaken(before, init, i, p, etag) {
          assert forall j :: Touches(before, ops, j, p) <==> Touches(before, init, j, p);
        }
      }
    }
  }

  /**
   * Optimistic writing, exactly: after any operations of others, a write conditioned on
   * an etag read before goes through if and only if nobody touched the file since, or the
   * last to touch it wrote as many bytes in the very millisecond of the etag.
   */
  lemma ConditionalWriteExact(before: Files, ops: seq<Op>, p: string, c: Content, now: int)
    requires p in before
    ensures WriteStep(Run(before, ops), p, c, Exactly(before[p].etag), now).1.Ok?
            <==> Untouched(before, ops, p) || exists i :: Mistaken(before, ops, i, p, before[p].etag)
  {
    EtagHistory(before, ops, p, before[p].etag);
  }

  /** So no update is lost when others write in later milliseconds: the write replaces exactly what was read. */
  lemma NoLostUpdate(before: Files, ops: seq<Op>, p: string, c: Content, now: int)
    requires p in before
    requires forall i :: 0 <= i < |ops| && ops[i].Write? ==> ops[i].now > before[p].etag.at
    ensures var (after, r) := WriteStep(Run(before, ops), p, c, Exactly(before[p].etag), now);
            && (r.Ok? <==> Untouched(before, ops, p))
            && (r.Ok? ==> Get(Run(before, ops), p) == Some(before[p]))
            && (r.Err? ==> after == Run(before, ops))
  {
    EtagHistory(before, ops, p, before[p].etag);
  }

  /** Two writes of one length in one millisecond get one etag, and the first of them is overwritten unseen. */
  lemma SameMillisecondLosesUpdate(p: string, mine: Content, theirs: Content, next: Content, at: int, now: int)
    requires mine.size == theirs.size && mine != theirs
    ensures var before := map[p := Stored(mine, Etag(mine.size, at))];
            var ops := [Write(p, theirs, Unconditional, at)];
            && Get(Run(before, ops), p) != Some(before[p])
            && WriteStep(Run(before, ops), p, next, Exactly(before[p].etag), now).1.Ok?
  {
    var before := map[p := Stored(mine, Etag(mine.size, at))];
    var ops := [Write(p, theirs, Unconditional, at)];
    assert Run(before, ops) == Step(Run(before, []), ops[0]);
  }
}
