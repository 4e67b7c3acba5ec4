/**
 * Hierarchical listing of the native vfs (packages/native/src/vfs.ts,
 * createMemoryVfsBackend): files and directories one level below a prefix, recursive
 * listings, and pages resumed by path.
 */
module VfsListing {
  import opened Common

  datatype Entry = File(path: string) | Directory(path: string)

  /** `p` lies strictly below `prefix`; everything lies below the root "". */
  predicate Below(prefix: string, p: string) {
    prefix == "" || prefix + "/" <= p
  }

  /** The part of `p` below `prefix`. */
  function Rest(prefix: string, p: string): string
    requires Below(prefix, p)
  {
    if prefix == "" then p else p[|prefix| + 1..]
  }

  function Segment(rest: string): string {
    if rest == "" || rest[0] == '/' then "" else [rest[0]] + Segment(rest[1..])
  }

  function Join(prefix: string, name: string): string {
    if prefix == "" then name else prefix + "/" + name
  }

  /** A path is listed as a file at `prefix` if it is `prefix` itself or one level below. */
  predicate IsDirect(prefix: string, p: string) {
    (prefix != "" && p == prefix) || (Below(prefix, p) && '/' !in Rest(prefix, p))
  }

  predicate IsDeep(prefix: string, p: string) {
    Below(prefix, p) && '/' in Rest(prefix, p)
  }

  /** The directory one level below `prefix` through which a deep path is reached. */
  function DirOf(prefix: string, p: string): string
    requires IsDeep(prefix, p)
  {
    Join(prefix, Segment(Rest(prefix, p)))
  }

  function Direct(files: set<string>, prefix: string): set<string> {
    set p | p in files && IsDirect(prefix, p)
  }

  function Dirs(files: set<string>, prefix: string): set<string> {
    set p | p in files && IsDeep(prefix, p) :: DirOf(prefix, p)
  }

  /** What a recursive listing shows. */
  function Everything(files: set<string>, prefix: string): set<string> {
    set p | p in files && (prefix == "" || p == prefix || Below(prefix, p))
  }

  /** The loop of `list` that sorts each stored path into files and directories. */
  method Collect(files: set<string>, prefix: string, recursive: bool) returns (found: set<string>, dirs: set<string>)
    ensures found == if recursive then Everything(files, prefix) else Direct(files, prefix)
    ensures dirs == if recursive then {} else Dirs(files, prefix)
  {
    found, dirs := {}, {};
    var todo := files;
    while todo != {}
      invariant todo <= files
      invariant found == if recursive then Everything(files - todo, prefix) else Direct(files - todo, prefix)
      invariant dirs == if recursive then {} else Dirs(files - todo, prefix)
      decreases todo
    {
      var path :| path in todo;
      ghost var seen := files - todo;
      assert files - (todo - {path}) == seen + {path};
      CollectOne(seen, prefix, path);
      todo := todo - {path};
      if prefix != "" && path != prefix && !(prefix + "/" <= path) {
        continue;
      }
      if !recursive && Below(prefix, path) {
        var rest := Rest(prefix, path);
        if '/' in rest {
          dirs := dirs + {Join(prefix, Segment(rest))};
          continue;
        }
      }
      found := found + {path};
    }
    assert files - todo == files;
  }

  lemma CollectOne(seen: set<string>, prefix: string, path: string)
    ensures Everything(seen + {path}, prefix)
         == Everything(seen, prefix) + if prefix == "" || path == prefix || Below(prefix, path) then {path} else {}
    ensures Direct(seen + {path}, prefix) == Direct(seen, prefix) + if IsDirect(prefix, path) then {path} else {}
    ensures Dirs(seen + {path}, prefix)
         == Dirs(seen, prefix) + if IsDeep(prefix, path) then {DirOf(prefix, path)} else {}
  {
  }

  // ----- Expanding the directories -----

  /** No stored path starts with a slash. */
  predicate Relative(files: set<string>) {
    forall p :: p in files ==> p == "" || p[0] != '/'
  }

  predicate Bounded(files: set<string>, bound: nat) {
    forall p :: p in files ==> |p| <= bound
  }

  lemma {:induction false} SegmentSpec(rest: string)
    requires '/' in rest
    ensures Segment(rest) + "/" <= rest && '/' !in Segment(rest)
    decreases |rest|
  {
    if rest[0] != '/' {
      SegmentSpec(rest[1..]);
      assert rest == [rest[0]] + rest[1..];
    }
  }

  /** A listed directory is longer than its parent, shorter than the path it leads to, and above that path. */
  lemma DirOfSpec(files: set<string>, prefix: string, p: string)
    requires Relative(files) && p in files && IsDeep(prefix, p)
    ensures var d := DirOf(prefix, p);
            && |prefix| < |d| < |p| && Below(d, p) && Below(prefix, d) && '/' !in Rest(prefix, d)
  {
    var rest := Rest(prefix, p);
    SegmentSpec(rest);
    var d := DirOf(prefix, p);
    if prefix == "" {
      assert rest == p;
    } else {
      assert p == prefix + "/" + rest;
      assert d + "/" == prefix + "/" + (Segment(rest) + "/");
      assert Rest(prefix, d) == Segment(rest);
    }
  }

  lemma DirsSpec(files: set<string>, prefix: string, bound: nat)
    requires Relative(files) && Bounded(files, bound)
    ensures forall d :: d in Dirs(files, prefix) ==>
        |prefix| < |d| <= bound && Below(prefix, d) && '/' !in Rest(prefix, d)
  {
    forall d | d in Dirs(files, prefix) ensures |prefix| < |d| <= bound && Below(prefix, d) && '/' !in Rest(prefix, d)
    {
      var p :| p in files && IsDeep(prefix, p) && DirOf(prefix, p) == d;
      DirOfSpec(files, prefix, p);
    }
  }

  /** All files met by listing `prefix` and then, recursively, every directory listed. */
  ghost function Expand(files: set<string>, prefix: string, bound: nat): multiset<string>
    requires Relative(files) && Bounded(files, bound) && |prefix| <= bound
    decreases bound - |prefix|, 1, 0
  {
    DirsSpec(files, prefix, bound);
    multiset(Direct(files, prefix)) + ExpandAll(files, Dirs(files, prefix), |prefix|, bound)
  }

  ghost function ExpandAll(files: set<string>, dirs: set<string>, above: nat, bound: nat): multiset<string>
    requires Relative(files) && Bounded(files, bound) && above <= bound
    requires forall d :: d in dirs ==> above < |d| <= bound
    decreases bound - above, 0, |dirs|
  {
    if dirs == {} then multiset{}
    else
      var d :| d in dirs;
      Expand(files, d, bound) + ExpandAll(files, dirs - {d}, above, bound)
  }

  /** Some stored path lies below `p`. */
  predicate HasBelow(files: set<string>, p: string) {
    exists q :: q in files && p + "/" <= q
  }

  /** How often expansion of `prefix` meets `p`: a path that is both file and directory is met once as each. */
  function Times(files: set<string>, prefix: string, p: string): nat {
    if p !in files then 0
    else if prefix != "" && p == prefix then 1
    else if !Below(prefix, p) then 0
    else if HasBelow(files, p) then 2
    else 1
  }

  /** Two names at one level never lead to the same path. */
  lemma LeadApart(prefix: string, c: string, d: string, p: string)
    requires Below(prefix, c) && Below(prefix, d) && '/' !in Rest(prefix, c) && '/' !in Rest(prefix, d)
    requires Covers(c, p) && Covers(d, p)
    ensures c == d
  {
    if |c| < |d| {
      ShorterIsAbove(prefix, c, d, p);
    } else if |d| < |c| {
      ShorterIsAbove(prefix, d, c, p);
    } else {
      assert c == p[..|c|] && d == p[..|d|];
    }
  }

  lemma ShorterIsAbove(prefix: string, c: string, d: string, p: string)
    requires Below(prefix, c) && Below(prefix, d) && |c| < |d|
    requires Covers(c, p) && Covers(d, p)
    ensures '/' in Rest(prefix, d)
  {
    assert d == p[..|d|] && (c + "/")[|c|] == '/';
    assert d[|c|] == '/';
    var skip := if prefix == "" then 0 else |prefix| + 1;
    assert skip <= |c|;
    assert Rest(prefix, d)[|c| - skip] == '/';
  }

  lemma {:induction false} ExpandAllTimes(files: set<string>, prefix: string, dirs: set<string>, bound: nat, p: string)
    requires Relative(files) && Bounded(files, bound) && |prefix| <= bound
    requires forall d :: d in dirs ==> |prefix| < |d| <= bound && Below(prefix, d) && '/' !in Rest(prefix, d)
    ensures forall d :: d in dirs && Covers(d, p) ==> ExpandAll(files, dirs, |prefix|, bound)[p] == Times(files, d, p)
    ensures (forall d :: d in dirs ==> !Covers(d, p)) ==> ExpandAll(files, dirs, |prefix|, bound)[p] == 0
    decreases bound - |prefix|, 0, |dirs|
  {
    if dirs != {} {
      var d := ExpandAllUnfolds(files, dirs, |prefix|, bound);
      ExpandTimes(files, d, bound, p);
      ExpandAllTimes(files, prefix, dirs - {d}, bound, p);
      assert d != "";
      forall e | e in dirs && e != d && Covers(e, p) ensures !Covers(d, p)
      {
        if Covers(d, p) {
          LeadApart(prefix, d, e, p);
        }
      }
      if Covers(d, p) {
        assert forall e :: e in dirs - {d} ==> !Covers(e, p);
      } else {
        assert Times(files, d, p) == 0;
      }
    }
  }

  lemma ExpandAllUnfolds(files: set<string>, dirs: set<string>, above: nat, bound: nat) returns (d: string)
    requires Relative(files) && Bounded(files, bound) && above <= bound && dirs != {}
    requires forall d :: d in dirs ==> above < |d| <= bound
    ensures d in dirs
    ensures ExpandAll(files, dirs, above, bound) == Expand(files, d, bound) + ExpandAll(files, dirs - {d}, above, bound)
  {
    d :| d in dirs && ExpandAll(files, dirs, above, bound)
      == Expand(files, d, bound) + ExpandAll(files, dirs - {d}, above, bound);
  }

  /** Expansion of a directory meets every file below it as often as `Times` says. */
  lemma {:induction false} ExpandTimes(files: set<string>, prefix: string, bound: nat, p: string)
    requires Relative(files) && Bounded(files, bound) && |prefix| <= bound
    ensures Expand(files, prefix, bound)[p] == Times(files, prefix, p)
    decreases bound - |prefix|, 1, 0
  {
    var dirs := Dirs(files, prefix);
    DirsSpec(files, prefix, bound);
    ExpandAllTimes(files, prefix, dirs, bound, p);
    LeadingDir(files, prefix, p);
  }

  /** Which listed directory leads to `p`. */
  lemma LeadingDir(files: set<string>, prefix: string, p: string)
    requires Relative(files)
    ensures var dirs := Dirs(files, prefix);
            forall d :: d in dirs && Covers(d, p) ==>
              && Below(prefix, p) && (p in files ==> p != prefix || prefix == "")
              && (IsDirect(prefix, p) ==> d == p && HasBelow(files, p))
    ensures p in files && IsDeep(prefix, p) ==>
        DirOf(prefix, p) in Dirs(files, prefix) && Covers(DirOf(prefix, p), p) && p != DirOf(prefix, p)
    ensures p in files && IsDirect(prefix, p) && Below(prefix, p) && HasBelow(files, p) ==> p in Dirs(files, prefix)
  {
    if p in files && IsDeep(prefix, p) {
      DirOfSpec(files, prefix, p);
    }
    if p in files && IsDirect(prefix, p) && Below(prefix, p) && HasBelow(files, p) {
      var q :| q in files && p + "/" <= q;
      DirOfBelow(prefix, p, q);
    }
    forall d | d in Dirs(files, prefix) && Covers(d, p)
      ensures Below(prefix, p) && (p in files ==> p != prefix || prefix == "")
      ensures IsDirect(prefix, p) ==> d == p && HasBelow(files, p)
    {
      var q :| q in files && IsDeep(prefix, q) && DirOf(prefix, q) == d;
      DirOfSpec(files, prefix, q);
      BelowTrans(prefix, d, p);
      if IsDirect(prefix, p) && d != p {
        RestHasSlash(prefix, d, p);
      }
    }
  }

  lemma BelowTrans(prefix: string, d: string, p: string)
    requires Below(prefix, d) && Covers(d, p) && |d| > |prefix|
    ensures Below(prefix, p)
  {
    if prefix != "" {
      assert d == p[..|d|];
      assert prefix + "/" == d[..|prefix| + 1] == p[..|prefix| + 1];
    }
  }

  lemma RestHasSlash(prefix: string, d: string, p: string)
    requires Below(prefix, d) && d + "/" <= p && Below(prefix, p) && |d| > |prefix|
    ensures '/' in Rest(prefix, p)
  {
    assert (d + "/")[|d|] == '/' && p[|d|] == '/';
    var skip := if prefix == "" then 0 else |prefix| + 1;
    assert Rest(prefix, p)[|d| - skip] == '/';
  }

  lemma {:induction false} SegmentOf(a: string, b: string)
    requires '/' !in a
    ensures Segment(a + "/" + b) == a
    decreases |a|
  {
    var s := a + "/" + b;
    if a == "" {
      assert s[0] == '/';
    } else {
      assert s[0] == a[0] && s[1..] == a[1..] + "/" + b;
      SegmentOf(a[1..], b);
      assert a == [a[0]] + a[1..];
    }
  }

  /** What lies below a path at this level is reached through a directory of that name. */
  lemma DirOfBelow(prefix: string, p: string, q: string)
    requires Below(prefix, p) && '/' !in Rest(prefix, p) && p + "/" <= q
    ensures IsDeep(prefix, q) && DirOf(prefix, q) == p
  {
    var tail := q[|p| + 1..];
    assert q == p + "/" + tail;
    if prefix != "" {
      assert q[..|prefix| + 1] == p[..|prefix| + 1];
      assert p == prefix + "/" + Rest(prefix, p);
    }
    var rest := Rest(prefix, q);
    assert rest == Rest(prefix, p) + "/" + tail;
    assert rest[|Rest(prefix, p)|] == '/';
    SegmentOf(Rest(prefix, p), tail);
  }

  // ----- Results -----

  /** No stored path is a proper ancestor of another. */
  predicate NoAncestor(files: set<string>) {
    forall p :: p in files ==> !HasBelow(files, p)
  }

  /**
   * Expanding the root, directory by directory, meets exactly the stored files; it meets
   * each exactly once if and only if no stored path is a proper ancestor of another.
   */
  lemma ExpansionExact(files: set<string>, bound: nat)
    requires Relative(files) && Bounded(files, bound)
    ensures Expand(files, "", bound) == multiset(Everything(files, "")) <==> NoAncestor(files)
    ensures forall p :: p in Expand(files, "", bound) <==> p in files
  {
    var met, all := Expand(files, "", bound), multiset(Everything(files, ""));
    forall p ensures met[p] == Times(files, "", p) && all[p] == if p in files then 1 else 0
    {
      ExpandTimes(files, "", bound, p);
    }
    if NoAncestor(files) {
      assert forall p :: met[p] == all[p];
    } else {
      var p :| p in files && HasBelow(files, p);
      assert met[p] == 2 && all[p] == 1;
    }
  }

  /**
   * Expanding any directory meets exactly what its recursive listing shows, each once, if
   * and only if no path stored below it is a proper ancestor of another.
   */
  lemma SubtreeExpansion(files: set<string>, prefix: string, bound: nat)
    requires Relative(files) && Bounded(files, bound) && |prefix| <= bound
    ensures Expand(files, prefix, bound) == multiset(Everything(files, prefix))
            <==> forall p :: p in files && Below(prefix, p) ==> !HasBelow(files, p)
  {
    var met, all := Expand(files, prefix, bound), multiset(Everything(files, prefix));
    forall p ensures met[p] == Times(files, prefix, p) && all[p] == if p in Everything(files, prefix) then 1 else 0
    {
      ExpandTimes(files, prefix, bound, p);
    }
    if forall p :: p in files && Below(prefix, p) ==> !HasBelow(files, p) {
      assert forall p :: met[p] == all[p];
    } else {
      var p :| p in files && Below(prefix, p) && HasBelow(files, p);
      assert p != prefix || prefix == "";
      assert met[p] == 2 && all[p] == 1;
    }
  }

  /** An absolute path would make the root list itself as a directory, so that expansion never ends. */
  lemma RootListsItselfIffAbsolute(files: set<string>)
    ensures "" in Dirs(files, "") <==> exists p :: p in files && p != "" && p[0] == '/'
  {
    forall p | p in files && p != "" && p[0] == '/' ensures "" in Dirs(files, "")
    {
      assert IsDeep("", p) && DirOf("", p) == "";
    }
    if "" in Dirs(files, "") {
      var p :| p in files && IsDeep("", p) && DirOf("", p) == "";
      assert p[0] == '/';
    }
  }

  // ----- Pages -----

  datatype Page = Page(entries: seq<Entry>, cursor: Option<string>)

  /** `findIndex`: the first entry with this path. */
  function IndexOf(entries: seq<Entry>, path: string): Option<nat> {
    if entries == [] then None
    else if entries[0].path == path then Some(0)
    else match IndexOf(entries[1..], path)
      case None => None
      case Some(i) => Some(i + 1)
  }

  lemma {:induction false} IndexOfSpec(entries: seq<Entry>, path: string)
    ensures match IndexOf(entries, path)
            case None => forall i :: 0 <= i < |entries| ==> entries[i].path != path
            case Some(i) =>
              i < |entries| && entries[i].path == path && forall j :: 0 <= j < i ==> entries[j].path != path
    decreases |entries|
  {
    if entries != [] && entries[0].path != path {
      IndexOfSpec(entries[1..], path);
      assert forall i :: 0 < i < |entries| ==> entries[i] == entries[1..][i - 1];
    }
  }

  /** An unknown or empty cursor starts over; a known one resumes after the first entry with its path. */
  function StartOf(entries: seq<Entry>, cursor: string): (start: nat)
    ensures start <= |entries|
  {
    IndexOfSpec(entries, cursor);
    var at := if cursor == "" then None else IndexOf(entries, cursor);
    if at.Some? then at.value + 1 else 0
  }

  /** An empty last path is no cursor. */
  function PageOf(entries: seq<Entry>, cursor: string, limit: nat): Page {
    var start := StartOf(entries, cursor);
    var end := if start + limit < |entries| then start + limit else |entries|;
    var page := entries[start..end];
    var more := start + limit < |entries| && page != [] && page[|page| - 1].path != "";
    Page(page, if more then Some(page[|page| - 1].path) else None)
  }

  predicate NoEmptyPath(entries: seq<Entry>) {
    forall i :: 0 <= i < |entries| ==> entries[i].path != ""
  }

  predicate DistinctPaths(entries: seq<Entry>) {
    forall i, j :: 0 <= i < j < |entries| ==> entries[i].path != entries[j].path
  }

  /** A cursor resumes right after its own entry exactly when no earlier entry has the same path. */
  lemma ResumesExactly(entries: seq<Entry>, i: nat)
    requires i < |entries|
    ensures IndexOf(entries, entries[i].path) == Some(i)
        <==> forall j :: 0 <= j < i ==> entries[j].path != entries[i].path
  {
    IndexOfSpec(entries, entries[i].path);
  }

  // ----- Following the cursors -----

  /** All pages from a cursor on, until one comes without a cursor. */
  predicate Follows(entries: seq<Entry>, limit: nat, cursor: string, pages: seq<Page>)
    decreases |pages|
  {
    && pages != [] && pages[0] == PageOf(entries, cursor, limit)
    && (if pages[0].cursor.None? then |pages| == 1 else Follows(entries, limit, pages[0].cursor.value, pages[1..]))
  }

  function Concat(pages: seq<Page>): seq<Entry> {
    if pages == [] then [] else pages[0].entries + Concat(pages[1..])
  }

  /** The drain ends, with every entry once and in order. */
  ghost predicate Drains(entries: seq<Entry>, limit: nat) {
    exists pages :: Follows(entries, limit, "", pages) && Concat(pages) == entries
  }

  /** The entry in front of position `n` is the first with its path. */
  predicate FirstOfPath(entries: seq<Entry>, n: nat)
    requires 0 < n <= |entries|
  {
    IndexOf(entries, entries[n - 1].path) == Some(n - 1)
  }

  /** So it is in front of every page boundary from `n` on: `n`, `n + limit`, `n + 2 * limit` and so forth. */
  predicate Resumable(entries: seq<Entry>, limit: nat, n: nat)
    requires limit >= 1
    decreases |entries| - n
  {
    n < |entries| ==> (n > 0 ==> FirstOfPath(entries, n)) && Resumable(entries, limit, n + limit)
  }

  /** A page in the middle of a listing: its entries, and where the next one starts. */
  lemma PageAt(entries: seq<Entry>, cursor: string, limit: nat)
    requires limit >= 1 && NoEmptyPath(entries)
    ensures var n, page := StartOf(entries, cursor), PageOf(entries, cursor, limit);
            if n + limit < |entries| then
              && page == Page(entries[n..n + limit], Some(entries[n + limit - 1].path))
              && StartOf(entries, page.cursor.value) <= n + limit
              && (StartOf(entries, page.cursor.value) == n + limit <==> FirstOfPath(entries, n + limit))
            else page == Page(entries[n..], None)
  {
    var n := StartOf(entries, cursor);
    if n + limit < |entries| {
      IndexOfSpec(entries, entries[n + limit - 1].path);
    }
  }

  lemma FollowsOn(entries: seq<Entry>, limit: nat, cursor: string, rest: seq<Page>)
    requires var page := PageOf(entries, cursor, limit);
             page.cursor.Some? && Follows(entries, limit, page.cursor.value, rest)
    ensures var pages := [PageOf(entries, cursor, limit)] + rest;
            && Follows(entries, limit, cursor, pages)
            && Concat(pages) == PageOf(entries, cursor, limit).entries + Concat(rest)
  {
    assert ([PageOf(entries, cursor, limit)] + rest)[1..] == rest;
  }

  lemma {:induction false} DrainFrom(entries: seq<Entry>, limit: nat, cursor: string) returns (pages: seq<Page>)
    requires limit >= 1 && NoEmptyPath(entries) && Resumable(entries, limit, StartOf(entries, cursor))
    ensures Follows(entries, limit, cursor, pages) && Concat(pages) == entries[StartOf(entries, cursor)..]
    decreases |entries| - StartOf(entries, cursor)
  {
    var n, page := StartOf(entries, cursor), PageOf(entries, cursor, limit);
    PageAt(entries, cursor, limit);
    if n + limit < |entries| {
      assert Resumable(entries, limit, n + limit);
      var rest := DrainFrom(entries, limit, page.cursor.value);
      pages := [page] + rest;
      FollowsOn(entries, limit, cursor, rest);
      Slices(entries, n, n + limit);
    } else {
      pages := [page];
      LastPage(page);
    }
  }

  lemma LastPage(page: Page)
    ensures Concat([page]) == page.entries
  {
    assert Concat([page]) == page.entries + Concat([]);
  }

  /** A drain that ends has returned at least everything from its start on. */
  lemma {:induction false} NeverShort(entries: seq<Entry>, limit: nat, cursor: string, pages: seq<Page>)
    requires limit >= 1 && NoEmptyPath(entries) && Follows(entries, limit, cursor, pages)
    ensures |Concat(pages)| >= |entries| - StartOf(entries, cursor)
    decreases |pages|
  {
    PageAt(entries, cursor, limit);
    if pages[0].cursor.Some? {
      NeverShort(entries, limit, pages[0].cursor.value, pages[1..]);
    }
  }

  /** One that meets a bad boundary has returned more than that. */
  lemma {:induction false} RepeatsSomething(entries: seq<Entry>, limit: nat, cursor: string, pages: seq<Page>)
    requires limit >= 1 && NoEmptyPath(entries) && Follows(entries, limit, cursor, pages)
    requires var n := StartOf(entries, cursor);
             (0 < n < |entries| ==> FirstOfPath(entries, n)) && !Resumable(entries, limit, n)
    ensures |Concat(pages)| > |entries| - StartOf(entries, cursor)
    decreases |pages|
  {
    var n := StartOf(entries, cursor);
    PageAt(entries, cursor, limit);
    assert !Resumable(entries, limit, n + limit);
    var next := pages[0].cursor.value;
    if FirstOfPath(entries, n + limit) {
      RepeatsSomething(entries, limit, next, pages[1..]);
    } else {
      NeverShort(entries, limit, next, pages[1..]);
    }
  }

  /**
   * Following cursors over an unchanged listing ends with every entry once, in order, if
   * and only if in front of every page boundary stands the first entry with its path.
   */
  lemma DrainsExactly(entries: seq<Entry>, limit: nat)
    requires limit >= 1 && NoEmptyPath(entries)
    ensures Drains(entries, limit) <==> Resumable(entries, limit, 0)
  {
    if Resumable(entries, limit, 0) {
      var pages := DrainFrom(entries, limit, "");
      assert entries[0..] == entries;
    } else {
      forall pages | Follows(entries, limit, "", pages) ensures Concat(pages) != entries
      {
        RepeatsSomething(entries, limit, "", pages);
      }
    }
  }

  lemma {:induction false} ResumableEverywhere(entries: seq<Entry>, limit: nat, n: nat)
    requires limit >= 1 && forall k :: 0 < k < |entries| ==> FirstOfPath(entries, k)
    ensures Resumable(entries, limit, n)
    decreases |entries| - n
  {
    if n < |entries| {
      ResumableEverywhere(entries, limit, n + limit);
    }
  }

  /** It does so for every limit if and only if every entry but the last is the first with its path. */
  lemma DrainsForEveryLimit(entries: seq<Entry>)
    requires NoEmptyPath(entries)
    ensures (forall limit: nat :: limit >= 1 ==> Drains(entries, limit))
            <==> forall n :: 0 < n < |entries| ==> FirstOfPath(entries, n)
  {
    if forall n :: 0 < n < |entries| ==> FirstOfPath(entries, n) {
      forall limit: nat | limit >= 1 ensures Drains(entries, limit)
      {
        ResumableEverywhere(entries, limit, 0);
        DrainsExactly(entries, limit);
      }
    } else {
      var n: nat :| 0 < n < |entries| && !FirstOfPath(entries, n);
      assert !Resumable(entries, n, n);
      assert !Resumable(entries, n, 0);
      DrainsExactly(entries, n);
    }
  }

  /** The drain as a loop, under exactly the condition that makes it end with every entry once. */
  method Drain(entries: seq<Entry>, limit: nat) returns (all: seq<Entry>)
    requires limit >= 1 && NoEmptyPath(entries) && Resumable(entries, limit, 0)
    ensures all == entries
  {
    all := [];
    var cursor := Some("");
    ghost var n: nat := 0;
    while cursor.Some?
      invariant cursor.Some? ==> n == StartOf(entries, cursor.value) && Resumable(entries, limit, n)
      invariant n <= |entries| && all == entries[..n] && (cursor.None? ==> n == |entries|)
      decreases cursor.Some?, |entries| - n
    {
      PageAt(entries, cursor.value, limit);
      var page := PageOf(entries, cursor.value, limit);
      assert Resumable(entries, limit, n + limit);
      ghost var end := if n + limit < |entries| then n + limit else |entries|;
      Slices(entries, n, end);
      all, cursor, n := all + page.entries, page.cursor, end;
    }
  }

  lemma Slices(entries: seq<Entry>, n: nat, end: nat)
    requires n <= end <= |entries|
    ensures entries[..n] + entries[n..end] == entries[..end]
    ensures entries[n..end] + entries[end..] == entries[n..]
  {
  }

  // ----- The listings that are paged -----

  predicate NoRepetition(entries: seq<Entry>) {
    forall i, j :: 0 <= i < j < |entries| ==> entries[i] != entries[j]
  }

  /** The entries of one level, each once, in whatever order sorting by path puts them. */
  ghost predicate IsLevel(entries: seq<Entry>, files: set<string>, prefix: string) {
    && NoRepetition(entries)
    && forall e :: e in entries <==> if e.File? then e.path in Direct(files, prefix) else e.path in Dirs(files, prefix)
  }

  ghost predicate IsRecursive(entries: seq<Entry>, files: set<string>, prefix: string) {
    && NoRepetition(entries)
    && forall e :: e in entries <==> e.File? && e.path in Everything(files, prefix)
  }

  lemma LevelPaths(entries: seq<Entry>, files: set<string>, prefix: string)
    requires IsLevel(entries, files, prefix) && Relative(files) && "" !in files
    ensures NoEmptyPath(entries)
    ensures forall i, j :: 0 <= i < j < |entries| && entries[i].path == entries[j].path ==>
              entries[i].path in files && Below(prefix, entries[i].path) && HasBelow(files, entries[i].path)
  {
    forall i | 0 <= i < |entries| ensures entries[i].path != ""
    {
      assert entries[i] in entries;
      if entries[i].Directory? {
        var q :| q in files && IsDeep(prefix, q) && DirOf(prefix, q) == entries[i].path;
        DirOfSpec(files, prefix, q);
      }
    }
    forall i, j | 0 <= i < j < |entries| && entries[i].path == entries[j].path
      ensures entries[i].path in files && Below(prefix, entries[i].path) && HasBelow(files, entries[i].path)
    {
      assert entries[i] in entries && entries[j] in entries && entries[i].File? != entries[j].File?;
      SharedPathsExact(files, prefix, entries[i].path);
    }
  }

  lemma FirstWhenDistinct(entries: seq<Entry>)
    requires DistinctPaths(entries)
    ensures forall n :: 0 < n < |entries| ==> FirstOfPath(entries, n)
  {
    forall n | 0 < n < |entries| ensures FirstOfPath(entries, n)
    {
      ResumesExactly(entries, n - 1);
    }
  }

  /**
   * Both listings of a store, each path relative and none empty, drain for every limit:
   * the recursive one always, the one of a level when no path below it is a proper
   * ancestor of another.
   */
  lemma ListingsDrain(entries: seq<Entry>, files: set<string>, prefix: string, limit: nat)
    requires limit >= 1 && Relative(files) && "" !in files
    ensures IsRecursive(entries, files, prefix) ==> Drains(entries, limit)
    ensures IsLevel(entries, files, prefix) && (forall p :: p in files && Below(prefix, p) ==> !HasBelow(files, p)) ==>
              Drains(entries, limit)
  {
    if IsRecursive(entries, files, prefix) {
      assert forall i :: 0 <= i < |entries| ==> entries[i] in entries;
      FirstWhenDistinct(entries);
      DrainsForEveryLimit(entries);
    }
    if IsLevel(entries, files, prefix) && forall p :: p in files && Below(prefix, p) ==> !HasBelow(files, p) {
      LevelPaths(entries, files, prefix);
      FirstWhenDistinct(entries);
      DrainsForEveryLimit(entries);
    }
  }

  predicate ListedTwice(files: set<string>, prefix: string, p: string) {
    p in Direct(files, prefix) && p in Dirs(files, prefix)
  }

  /** A path listed twice stands somewhere behind its first entry. */
  lemma SecondEntry(entries: seq<Entry>, files: set<string>, prefix: string, p: string) returns (n: nat)
    requires IsLevel(entries, files, prefix) && ListedTwice(files, prefix, p)
    ensures 0 < n <= |entries| && entries[n - 1].path == p && !FirstOfPath(entries, n)
  {
    var a, b := BothEntries(entries, files, prefix, p);
    if a < b {
      n := b + 1;
      NotFirst(entries, a, b);
    } else {
      n := a + 1;
      NotFirst(entries, b, a);
    }
  }

  lemma BothEntries(entries: seq<Entry>, files: set<string>, prefix: string, p: string) returns (a: nat, b: nat)
    requires IsLevel(entries, files, prefix) && ListedTwice(files, prefix, p)
    ensures a < |entries| && b < |entries| && a != b && entries[a].path == p && entries[b].path == p
  {
    assert File(p) in entries && Directory(p) in entries;
    a :| a < |entries| && entries[a] == File(p);
    b :| b < |entries| && entries[b] == Directory(p);
  }

  lemma NotFirst(entries: seq<Entry>, a: nat, b: nat)
    requires a < b < |entries| && entries[a].path == entries[b].path
    ensures !FirstOfPath(entries, b + 1)
  {
    ResumesExactly(entries, b);
  }

  /** Only such a path does, and at no more than one position. */
  lemma SecondIsLast(entries: seq<Entry>, files: set<string>, prefix: string, n: nat)
    requires IsLevel(entries, files, prefix) && 0 < n <= |entries| && !FirstOfPath(entries, n)
    ensures ListedTwice(files, prefix, entries[n - 1].path)
    ensures forall k :: n <= k < |entries| ==> entries[k].path != entries[n - 1].path
  {
    ResumesExactly(entries, n - 1);
    var j :| 0 <= j < n - 1 && entries[j].path == entries[n - 1].path;
    assert entries[j] in entries && entries[n - 1] in entries && entries[j].File? != entries[n - 1].File?;
  }

  /** The level of a store drains for every limit if and only if a path it lists twice can only be its last entry's. */
  lemma LevelDrainsExactly(entries: seq<Entry>, files: set<string>, prefix: string)
    requires IsLevel(entries, files, prefix) && Relative(files) && "" !in files
    ensures (forall limit: nat :: limit >= 1 ==> Drains(entries, limit))
            <==> forall p :: ListedTwice(files, prefix, p) ==> entries != [] && entries[|entries| - 1].path == p
  {
    LevelPaths(entries, files, prefix);
    DrainsForEveryLimit(entries);
    if forall n :: 0 < n < |entries| ==> FirstOfPath(entries, n) {
      forall p | ListedTwice(files, prefix, p) ensures entries != [] && entries[|entries| - 1].path == p
      {
        var n := SecondEntry(entries, files, prefix, p);
      }
    } else {
      var n: nat :| 0 < n < |entries| && !FirstOfPath(entries, n);
      SecondIsLast(entries, files, prefix, n);
      assert entries[|entries| - 1].path != entries[n - 1].path;
    }
  }

  const CLASHING := {"a", "a/b", "c"}
  const CLASHING_LEVEL := [File("a"), Directory("a"), File("c")]

  /** The root of a store with a file "a" and a file "a/b", drained one entry at a time, never ends. */
  lemma SharedPathNeverDrains(pages: seq<Page>)
    ensures IsLevel(CLASHING_LEVEL, CLASHING, "")
    ensures !Follows(CLASHING_LEVEL, 1, "", pages)
  {
    ClashingLevel();
    if Follows(CLASHING_LEVEL, 1, "", pages) {
      IndexOfSpec(CLASHING_LEVEL, "a");
      assert PageOf(CLASHING_LEVEL, "", 1) == Page([File("a")], Some("a"));
      StuckAtA(pages[1..]);
    }
  }

  lemma {:induction false} StuckAtA(pages: seq<Page>)
    ensures !Follows(CLASHING_LEVEL, 1, "a", pages)
    decreases |pages|
  {
    IndexOfSpec(CLASHING_LEVEL, "a");
    assert PageOf(CLASHING_LEVEL, "a", 1) == Page([Directory("a")], Some("a"));
    if pages != [] {
      StuckAtA(pages[1..]);
    }
  }

  lemma ClashingLevel()
    ensures IsLevel(CLASHING_LEVEL, CLASHING, "")
  {
    assert "a/b"[1] == '/' && Segment("a/b") == "a" by {
      assert "a/b"[1..] == "/b";
    }
    assert IsDeep("", "a/b") && DirOf("", "a/b") == "a";
    assert !IsDeep("", "a") && !IsDeep("", "c") && IsDirect("", "a") && IsDirect("", "c") && !IsDirect("", "a/b");
    assert Direct(CLASHING, "") == {"a", "c"};
    assert Dirs(CLASHING, "") == {"a"};
  }

  /** A listing shows some path twice exactly when a stored file is also a directory at that level. */
  lemma SharedPathsExact(files: set<string>, prefix: string, p: string)
    requires Relative(files)
    ensures p in Direct(files, prefix) && p in Dirs(files, prefix) <==>
              p in files && Below(prefix, p) && '/' !in Rest(prefix, p) && HasBelow(files, p)
  {
    LeadingDir(files, prefix, p);
    if p in Direct(files, prefix) && p in Dirs(files, prefix) {
      assert Covers(p, p);
      var q :| q in files && IsDeep(prefix, q) && DirOf(prefix, q) == p;
      DirOfSpec(files, prefix, q);
    }
  }
}
