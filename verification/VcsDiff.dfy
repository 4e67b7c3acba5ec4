/**
 * The three-way diff of two trees (packages/native/src/vcs.ts) and its algebra.
 * A tree maps a path to a content hash.  The source returns each part of a diff
 * as a list with one entry per path; here each part is a map from that path.
 */
module VcsDiff {
  import opened Common
  import opened Segments

  type Hash = string
  type Tree = map<string, Hash>

  datatype Modification = Modification(from: Hash, to: Hash)
  datatype Diff = Diff(added: Tree, modified: map<string, Modification>, removed: Tree) {
    predicate IsEmpty() {
      |added| + |modified| + |removed| == 0
    }

    predicate Touches(p: string) {
      p in added || p in modified || p in removed
    }

    /** What the diff says `p` held before; meaningful where it touches `p`. */
    function Before(p: string): Option<Hash> {
      if p in modified then Some(modified[p].from) else Get(removed, p)
    }

    /** What the diff says `p` holds afterwards; meaningful where it touches `p`. */
    function After(p: string): Option<Hash> {
      if p in modified then Some(modified[p].to) else Get(added, p)
    }

    function Paths(): set<string> {
      added.Keys + modified.Keys + removed.Keys
    }
  }

  function DiffOf(from: Tree, to: Tree): Diff {
    Diff(
      map p | p in to && p !in from :: to[p],
      map p | p in to && p in from && from[p] != to[p] :: Modification(from[p], to[p]),
      map p | p in from && p !in to :: from[p])
  }

  /** What the loops have collected after the paths `seen`. */
  function NewIn(from: Tree, to: Tree, seen: set<string>): Tree {
    map p | p in to && p in seen && p !in from :: to[p]
  }

  function ChangedIn(from: Tree, to: Tree, seen: set<string>): map<string, Modification> {
    map p | p in to && p in seen && p in from && from[p] != to[p] :: Modification(from[p], to[p])
  }

  lemma SeeNew(from: Tree, to: Tree, seen: set<string>, path: string)
    requires path in to
    ensures NewIn(from, to, seen + {path})
         == if path !in from then NewIn(from, to, seen)[path := to[path]] else NewIn(from, to, seen)
  {
  }

  lemma SeeChanged(from: Tree, to: Tree, seen: set<string>, path: string)
    requires path in to
    ensures ChangedIn(from, to, seen + {path})
         == if path in from && from[path] != to[path]
            then ChangedIn(from, to, seen)[path := Modification(from[path], to[path])]
            else ChangedIn(from, to, seen)
  {
  }

  /** The two loops of `diffMaps`, in whatever order the maps are enumerated. */
  method DiffMaps(from: Tree, to: Tree) returns (d: Diff)
    ensures d == DiffOf(from, to)
  {
    var added, modified, removed := map[], map[], map[];
    var todo := to.Keys;
    ghost var seen: set<string> := {};
    while todo != {}
      invariant todo + seen == to.Keys
      invariant added == NewIn(from, to, seen) && modified == ChangedIn(from, to, seen)
      decreases todo
    {
      var path :| path in todo;
      SeeNew(from, to, seen, path);
      SeeChanged(from, to, seen, path);
      todo, seen := todo - {path}, seen + {path};
      if path !in from {
        added := added[path := to[path]];
      } else if from[path] != to[path] {
        modified := modified[path := Modification(from[path], to[path])];
      }
    }
    todo, seen := from.Keys, {};
    while todo != {}
      invariant todo + seen == from.Keys
      invariant removed == NewIn(to, from, seen)
      decreases todo
    {
      var path :| path in todo;
      SeeNew(to, from, seen, path);
      todo, seen := todo - {path}, seen + {path};
      if path !in to {
        removed := removed[path := from[path]];
      }
    }
    AllSeen(from, to);
    AllSeen(to, from);
    d := Diff(added, modified, removed);
  }

  lemma AllSeen(from: Tree, to: Tree)
    ensures NewIn(from, to, to.Keys) == map p | p in to && p !in from :: to[p]
    ensures ChangedIn(from, to, to.Keys)
         == map p | p in to && p in from && from[p] != to[p] :: Modification(from[p], to[p])
  {
  }

  /** The part of a tree that an optional prefix selects; "" selects everything. */
  function FilterByPrefix(t: Tree, prefix: Option<string>): Tree {
    if prefix.None? || prefix.value == "" then t
    else map p | p in t && Covers(prefix.value, p) :: t[p]
  }

  method FilterMap(t: Tree, prefix: Option<string>) returns (out: Tree)
    ensures out == FilterByPrefix(t, prefix)
  {
    if prefix.None? || prefix.value == "" {
      return t;
    }
    out := map[];
    var todo := t.Keys;
    while todo != {}
      invariant todo <= t.Keys
      invariant out == map p | p in t && p !in todo && Covers(prefix.value, p) :: t[p]
      decreases todo
    {
      var path :| path in todo;
      todo := todo - {path};
      if Covers(prefix.value, path) {
        out := out[path := t[path]];
      }
    }
  }

  /** By whole path segments; the empty prefix selects everything. */
  lemma FilterByPrefixExact(t: Tree, prefix: Option<string>, p: string)
    ensures p in FilterByPrefix(t, prefix) <==>
              p in t && (prefix.None? || prefix.value == "" || Split(prefix.value, '/') <= Split(p, '/'))
    ensures p in FilterByPrefix(t, prefix) ==> FilterByPrefix(t, prefix)[p] == t[p]
  {
    if prefix.Some? {
      CoversIsSegmentPrefix(prefix.value, p);
    }
  }

  function FilterDiff(d: Diff, prefix: Option<string>): Diff {
    if prefix.None? || prefix.value == "" then d
    else Diff(
      map p | p in d.added && Covers(prefix.value, p) :: d.added[p],
      map p | p in d.modified && Covers(prefix.value, p) :: d.modified[p],
      map p | p in d.removed && Covers(prefix.value, p) :: d.removed[p])
  }

  // ----- Algebra -----

  /** Carry a diff out on a tree. */
  function Apply(d: Diff, t: Tree): Tree {
    map p | p in (t.Keys - d.removed.Keys) + d.added.Keys + d.modified.Keys ::
      if p in d.added then d.added[p] else if p in d.modified then d.modified[p].to else t[p]
  }

  function Inverse(d: Diff): Diff {
    Diff(d.removed, map p | p in d.modified :: Modification(d.modified[p].to, d.modified[p].from), d.added)
  }

  /** The diff that takes every listed path from what it held to what it holds. */
  function Collect(was: map<string, Option<Hash>>, now: map<string, Option<Hash>>): Diff
    requires was.Keys == now.Keys
  {
    Diff(
      map p | p in now && was[p].None? && now[p].Some? :: now[p].value,
      map p | p in now && was[p].Some? && now[p].Some? && was[p] != now[p] :: Modification(was[p].value, now[p].value),
      map p | p in was && was[p].Some? && now[p].None? :: was[p].value)
  }

  /** The diff of a step `first` followed by a step `second`, from the two diffs alone. */
  function Compose(first: Diff, second: Diff): Diff {
    var paths := first.Paths() + second.Paths();
    Collect(
      map p | p in paths :: if first.Touches(p) then first.Before(p) else second.Before(p),
      map p | p in paths :: if second.Touches(p) then second.After(p) else first.After(p))
  }

  lemma PartsAreDisjoint(a: Tree, b: Tree)
    ensures var d := DiffOf(a, b);
            && d.added.Keys !! d.modified.Keys
            && d.added.Keys !! d.removed.Keys
            && d.modified.Keys !! d.removed.Keys
            && d.Paths() == set p | p in a.Keys + b.Keys && Get(a, p) != Get(b, p)
  {
    var d := DiffOf(a, b);
    assert forall p :: p in d.Paths() <==> p in a.Keys + b.Keys && Get(a, p) != Get(b, p);
  }

  lemma EmptyIffEqual(a: Tree, b: Tree)
    ensures DiffOf(a, b).IsEmpty() <==> a == b
  {
    var d := DiffOf(a, b);
    if d.IsEmpty() {
      assert d.added == map[] && d.modified == map[] && d.removed == map[];
      forall p ensures p in a <==> p in b
      {
        assert p !in d.added.Keys && p !in d.removed.Keys;
      }
      forall p | p in a ensures a[p] == b[p]
      {
        assert p !in d.modified.Keys;
      }
    }
  }

  /**
   * A diff computed against `base` turns `t` into `to` exactly when `t` already
   * agrees with `to` wherever `base` did.
   */
  lemma ApplyToOtherBase(base: Tree, t: Tree, to: Tree)
    ensures Apply(DiffOf(base, to), t) == to <==> forall p :: Get(base, p) == Get(to, p) ==> Get(t, p) == Get(to, p)
  {
    var r := Apply(DiffOf(base, to), t);
    forall p ensures Get(r, p) == if Get(base, p) == Get(to, p) then Get(t, p) else Get(to, p)
    {
      var d := DiffOf(base, to);
      assert p in r <==> p in (t.Keys - d.removed.Keys) + d.added.Keys + d.modified.Keys;
    }
    if forall p :: Get(base, p) == Get(to, p) ==> Get(t, p) == Get(to, p) {
      forall p ensures (p in r <==> p in to) && (p in to ==> r[p] == to[p])
      {
        assert Get(r, p) == Get(to, p);
      }
      assert r == to;
    }
  }

  lemma ApplyDiff(a: Tree, b: Tree)
    ensures Apply(DiffOf(a, b), a) == b
  {
    ApplyToOtherBase(a, a, b);
  }

  lemma SwapIsInverse(a: Tree, b: Tree)
    ensures DiffOf(b, a) == Inverse(DiffOf(a, b))
    ensures Apply(Inverse(DiffOf(a, b)), b) == a
  {
    assert DiffOf(b, a).modified == Inverse(DiffOf(a, b)).modified;
    ApplyDiff(b, a);
  }

  lemma CollectIsDiff(a: Tree, c: Tree, was: map<string, Option<Hash>>, now: map<string, Option<Hash>>)
    requires was.Keys == now.Keys
    requires forall p :: p in was ==> was[p] == Get(a, p) && now[p] == Get(c, p)
    requires forall p :: p !in was ==> Get(a, p) == Get(c, p)
    ensures Collect(was, now) == DiffOf(a, c)
  {
    var l, r := Collect(was, now), DiffOf(a, c);
    forall p
      ensures p in l.added <==> p in r.added
      ensures p in l.modified <==> p in r.modified
      ensures p in l.removed <==> p in r.removed
    {
      assert p in a <==> Get(a, p).Some?;
      assert p in c <==> Get(c, p).Some?;
    }
    assert l.added == r.added;
    assert l.modified == r.modified;
    assert l.removed == r.removed;
  }

  lemma ConsecutiveDiffsCompose(a: Tree, b: Tree, c: Tree)
    ensures Compose(DiffOf(a, b), DiffOf(b, c)) == DiffOf(a, c)
  {
    var d, e := DiffOf(a, b), DiffOf(b, c);
    var paths := d.Paths() + e.Paths();
    var was := map p | p in paths :: if d.Touches(p) then d.Before(p) else e.Before(p);
    var now := map p | p in paths :: if e.Touches(p) then e.After(p) else d.After(p);
    forall p
      ensures p in was ==> was[p] == Get(a, p) && now[p] == Get(c, p)
      ensures p !in was ==> Get(a, p) == Get(c, p)
    {
      DiffAt(a, b, p);
      DiffAt(b, c, p);
    }
    CollectIsDiff(a, c, was, now);
  }

  lemma DiffAt(a: Tree, b: Tree, p: string)
    ensures var d := DiffOf(a, b);
            && (p in d.Paths() <==> d.Touches(p))
            && (d.Touches(p) <==> Get(a, p) != Get(b, p))
            && (d.Touches(p) ==> d.Before(p) == Get(a, p) && d.After(p) == Get(b, p))
  {
  }

  lemma FilterCommutesWithDiff(a: Tree, b: Tree, prefix: Option<string>)
    ensures FilterDiff(DiffOf(a, b), prefix) == DiffOf(FilterByPrefix(a, prefix), FilterByPrefix(b, prefix))
  {
    var l, r := FilterDiff(DiffOf(a, b), prefix), DiffOf(FilterByPrefix(a, prefix), FilterByPrefix(b, prefix));
    assert l.added == r.added;
    assert l.modified == r.modified;
    assert l.removed == r.removed;
  }
}
