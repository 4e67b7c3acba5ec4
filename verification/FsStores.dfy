/**
 * The SQLite one-table store and the DSQL two-table store of the workspace file system
 * (server/workspace/src/fs-store.ts), each against a plain map from path to last write.
 * One workspace's partition; the SQL engine executes each statement atomically.
 */
module FsStores {
  import opened Common
  import opened FsListing

  /** SHA-256 as an injection. */
  datatype Hash = Sha256(content: string)
  datatype Meta = Meta(mimeType: string, updatedAt: int)
  datatype File = File(content: string, meta: Meta)
  type Files = map<string, File>

  datatype Key = Key(path: string, hash: Hash)

  /** A table without the rows of some paths. */
  function WithoutPaths<V>(rows: map<Key, V>, gone: set<string>): map<Key, V> {
    rows - (set k | k in rows && k.path in gone)
  }

  // ----- The interface, on a plain map -----

  datatype Op =
    | Write(path: string, content: string, mimeType: string, versioned: bool, now: int)
    | Remove(at: string)
    | RemovePrefix(prefix: string)

  function Apply(m: Files, op: Op): Files {
    match op
    case Write(p, c, mime, _, now) => m[p := File(c, Meta(mime, now))]
    case Remove(p) => m - {p}
    case RemovePrefix(prefix) => m - (set p | p in m && InPrefix(p, prefix))
  }

  // ----- SQLite: one table keyed by path and hash -----

  /** `order` is the row id: it grows with every insertion. */
  datatype Row = Row(meta: Meta, order: nat)
  datatype Sqlite = Sqlite(rows: map<Key, Row>, next: nat)

  function SqliteWrite(s: Sqlite, path: string, content: string, mime: string, versioned: bool, now: int): Sqlite {
    var hash := Sha256(content);
    var kept := if versioned then s.rows else s.rows - (set k | k in s.rows && k.path == path && k.hash != hash);
    Sqlite(kept[Key(path, hash) := Row(Meta(mime, now), s.next)], s.next + 1)
  }

  function SqliteRemove(s: Sqlite, path: string): Sqlite {
    s.(rows := WithoutPaths(s.rows, {path}))
  }

  /** The delete statement has no case for the empty prefix: only "" itself and absolute paths match it. */
  function SqliteRemovePrefix(s: Sqlite, prefix: string): Sqlite {
    s.(rows := s.rows - set k | k in s.rows && Covers(prefix, k.path))
  }

  function SqliteStep(s: Sqlite, op: Op): Sqlite {
    match op
    case Write(p, c, mime, v, now) => SqliteWrite(s, p, c, mime, v, now)
    case Remove(p) => SqliteRemove(s, p)
    case RemovePrefix(prefix) => SqliteRemovePrefix(s, prefix)
  }

  predicate Later(a: Row, b: Row) {
    a.meta.updatedAt > b.meta.updatedAt || (a.meta.updatedAt == b.meta.updatedAt && a.order > b.order)
  }

  /** The row that `ORDER BY updated_at DESC, rowid DESC LIMIT 1` selects for a path. */
  predicate IsLatest(s: Sqlite, k: Key) {
    k in s.rows && forall j :: j in s.rows && j.path == k.path && j != k ==> Later(s.rows[k], s.rows[j])
  }

  /** A row whose columns `MAX(updated_at)` may report for its path: any one with the greatest time. */
  predicate IsListed(s: Sqlite, k: Key) {
    k in s.rows && forall j :: j in s.rows && j.path == k.path ==> s.rows[j].meta.updatedAt <= s.rows[k].meta.updatedAt
  }

  function FileOf(s: Sqlite, k: Key): File
    requires k in s.rows
  {
    File(k.hash.content, s.rows[k].meta)
  }

  // ----- DSQL: a pointer table, a version table, and content blobs -----

  datatype Pointer = Pointer(hash: Hash, meta: Meta)
  datatype Dsql = Dsql(latest: map<string, Pointer>, versions: map<Key, Meta>, blobs: map<Hash, string>)

  function DsqlWrite(s: Dsql, path: string, content: string, mime: string, versioned: bool, now: int): Dsql {
    var hash := Sha256(content);
    Dsql(
      s.latest[path := Pointer(hash, Meta(mime, now))],
      if versioned then s.versions[Key(path, hash) := Meta(mime, now)] else WithoutPaths(s.versions, {path}),
      s.blobs[hash := content])
  }

  function DsqlRemovePaths(s: Dsql, paths: set<string>): Dsql {
    s.(latest := s.latest - paths, versions := WithoutPaths(s.versions, paths))
  }

  function DsqlRemovePrefix(s: Dsql, prefix: string): Dsql {
    DsqlRemovePaths(s, set p | p in s.latest && InPrefix(p, prefix))
  }

  function DsqlStep(s: Dsql, op: Op): Dsql {
    match op
    case Write(p, c, mime, v, now) => DsqlWrite(s, p, c, mime, v, now)
    case Remove(p) => DsqlRemovePaths(s, {p})
    case RemovePrefix(prefix) => DsqlRemovePrefix(s, prefix)
  }

  /** `read` of the latest version: the pointer row, then the blob it names. */
  function DsqlRead(s: Dsql, path: string): Option<File> {
    if path in s.latest && s.latest[path].hash in s.blobs
    then Some(File(s.blobs[s.latest[path].hash], s.latest[path].meta))
    else None
  }

  /** `read` of a pinned version. */
  function DsqlPinned(s: Dsql, k: Key): Option<File> {
    if k in s.versions && k.hash in s.blobs then Some(File(s.blobs[k.hash], s.versions[k])) else None
  }

  function SqlitePinned(s: Sqlite, k: Key): Option<File> {
    if k in s.rows then Some(FileOf(s, k)) else None
  }

  // ----- Both stores beside the map -----

  /**
   * `residue[p]` is the content of the last unversioned write to `p`, while no versioned
   * write of the same content and no removal has followed it.
   */
  datatype World = World(m: Files, sqlite: Sqlite, dsql: Dsql, residue: map<string, Hash>, clock: int)

  const EMPTY := World(map[], Sqlite(map[], 0), Dsql(map[], map[], map[]), map[], 0)

  function ResidueStep(residue: map<string, Hash>, op: Op): map<string, Hash> {
    match op
    case Write(p, c, _, v, _) =>
      if !v then residue[p := Sha256(c)]
      else if p in residue && residue[p] == Sha256(c) then residue - {p}
      else residue
    case Remove(p) => residue - {p}
    case RemovePrefix(prefix) => residue - (set p | p in residue && InPrefix(p, prefix))
  }

  function Step(w: World, op: Op): World {
    World(Apply(w.m, op), SqliteStep(w.sqlite, op), DsqlStep(w.dsql, op), ResidueStep(w.residue, op),
          if op.Write? then op.now else w.clock)
  }

  /** Normalised paths are not empty and not absolute. */
  predicate Normal(path: string) {
    path != "" && path[0] != '/'
  }

  /** The clock does not run backwards, written paths are normalised, and a subtree removal names a subtree. */
  predicate Legal(w: World, op: Op) {
    && (op.Write? ==> op.now >= w.clock && Normal(op.path))
    && (op.RemovePrefix? ==> op.prefix != "")
  }

  function Run(w: World, ops: seq<Op>): World
    decreases |ops|
  {
    if ops == [] then w else Run(Step(w, ops[0]), ops[1..])
  }

  predicate LegalRun(w: World, ops: seq<Op>)
    decreases |ops|
  {
    ops != [] ==> Legal(w, ops[0]) && LegalRun(Step(w, ops[0]), ops[1..])
  }

  // ----- What every run keeps -----

  function LastKey(m: Files, p: string): Key
    requires p in m
  {
    Key(p, Sha256(m[p].content))
  }

  /** The row of the last write to `p` is there, with its metadata, and is the latest. */
  predicate LastRowOk(m: Files, s: Sqlite, p: string)
    requires p in m
  {
    IsLatest(s, LastKey(m, p)) && s.rows[LastKey(m, p)].meta == m[p].meta
  }

  predicate RowOk(m: Files, s: Sqlite, clock: int, k: Key)
    requires k in s.rows
  {
    k.path in m && s.rows[k].order < s.next && s.rows[k].meta.updatedAt <= clock
  }

  /** The table holds rows exactly for the stored paths, and the row of the last write is the latest. */
  predicate SqliteOk(m: Files, s: Sqlite, clock: int) {
    && (forall k :: k in s.rows ==> RowOk(m, s, clock, k))
    && (forall p :: p in m ==> LastRowOk(m, s, p))
  }

  /** The pointer table is the map; versions exist only for stored paths; every hash has its blob. */
  predicate DsqlOk(m: Files, s: Dsql) {
    && s.latest.Keys == m.Keys
    && (forall p :: p in m ==> s.latest[p] == Pointer(Sha256(m[p].content), m[p].meta) && s.latest[p].hash in s.blobs)
    && (forall k :: k in s.versions ==> k.path in m && k.hash in s.blobs)
    && (forall h :: h in s.blobs ==> s.blobs[h] == h.content)
  }

  /** Both tables agree on one key, unless it is an unversioned leftover, which only SQLite keeps. */
  predicate KeyAgrees(rows: map<Key, Row>, versions: map<Key, Meta>, residue: map<string, Hash>, k: Key) {
    if Get(residue, k.path) == Some(k.hash) then k in rows && k !in versions
    else if k in rows then k in versions && versions[k] == rows[k].meta
    else k !in versions
  }

  ghost predicate VersionsAgree(rows: map<Key, Row>, versions: map<Key, Meta>, residue: map<string, Hash>) {
    forall k :: KeyAgrees(rows, versions, residue, k)
  }

  ghost predicate Inv(w: World) {
    && (forall p :: p in w.m ==> Normal(p))
    && SqliteOk(w.m, w.sqlite, w.clock)
    && DsqlOk(w.m, w.dsql)
    && VersionsAgree(w.sqlite.rows, w.dsql.versions, w.residue)
  }

  lemma SqliteWriteKeeps(m: Files, s: Sqlite, clock: int, op: Op)
    requires SqliteOk(m, s, clock) && op.Write? && op.now >= clock
    ensures SqliteOk(Apply(m, op), SqliteStep(s, op), op.now)
  {
    var t, n := SqliteStep(s, op), Apply(m, op);
    var written := Key(op.path, Sha256(op.content));
    forall k | k in t.rows ensures RowOk(n, t, op.now, k)
    {
      assert k != written ==> RowOk(m, s, clock, k) && t.rows[k] == s.rows[k];
    }
    forall p | p in n ensures LastRowOk(n, t, p)
    {
      if p == op.path {
        forall j | j in t.rows && j.path == p && j != written ensures Later(t.rows[written], t.rows[j])
        {
          assert RowOk(m, s, clock, j) && t.rows[j] == s.rows[j];
        }
      } else {
        assert LastRowOk(m, s, p);
        assert forall j :: j in t.rows && j.path == p ==> j in s.rows && t.rows[j] == s.rows[j];
      }
    }
  }

  lemma SqliteDropKeeps(m: Files, s: Sqlite, clock: int, gone: set<string>)
    requires SqliteOk(m, s, clock)
    ensures SqliteOk(m - gone, s.(rows := WithoutPaths(s.rows, gone)), clock)
  {
    var t, n := s.(rows := WithoutPaths(s.rows, gone)), m - gone;
    forall k | k in t.rows ensures RowOk(n, t, clock, k)
    {
      assert RowOk(m, s, clock, k);
    }
    forall p | p in n ensures LastRowOk(n, t, p)
    {
      assert LastRowOk(m, s, p);
    }
  }

  lemma DsqlWriteKeeps(m: Files, s: Dsql, op: Op)
    requires DsqlOk(m, s) && op.Write?
    ensures DsqlOk(Apply(m, op), DsqlStep(s, op))
  {
    var t := DsqlStep(s, op);
    assert forall k :: k in t.versions ==> k in s.versions || k == Key(op.path, Sha256(op.content));
  }

  lemma DsqlDropKeeps(m: Files, s: Dsql, gone: set<string>)
    requires DsqlOk(m, s)
    ensures DsqlOk(m - gone, DsqlRemovePaths(s, gone))
  {
  }

  lemma VersionsWriteKeeps(w: World, op: Op)
    requires VersionsAgree(w.sqlite.rows, w.dsql.versions, w.residue) && op.Write?
    ensures var t := Step(w, op); VersionsAgree(t.sqlite.rows, t.dsql.versions, t.residue)
  {
    var t := Step(w, op);
    forall k ensures KeyAgrees(t.sqlite.rows, t.dsql.versions, t.residue, k)
    {
      assert KeyAgrees(w.sqlite.rows, w.dsql.versions, w.residue, k);
    }
  }

  lemma VersionsDropKeeps(rows: map<Key, Row>, versions: map<Key, Meta>, residue: map<string, Hash>, gone: set<string>)
    requires VersionsAgree(rows, versions, residue)
    ensures VersionsAgree(WithoutPaths(rows, gone), WithoutPaths(versions, gone), residue - gone)
  {
    forall k ensures KeyAgrees(WithoutPaths(rows, gone), WithoutPaths(versions, gone), residue - gone, k)
    {
      assert KeyAgrees(rows, versions, residue, k);
    }
  }

  /** The paths a removal takes away. */
  function Gone(keys: set<string>, op: Op): set<string>
    requires !op.Write?
  {
    if op.Remove? then {op.at} else set p | p in keys && InPrefix(p, op.prefix)
  }

  lemma ResidueShape(w: World, op: Op)
    requires !op.Write? && forall p :: p in w.residue ==> p in w.m
    ensures ResidueStep(w.residue, op) == w.residue - Gone(w.m.Keys, op)
  {
  }

  /** Every table loses the same paths in a removal, whichever statement removes them. */
  lemma RemovalShape(w: World, op: Op)
    requires Inv(w) && !op.Write? && (op.RemovePrefix? ==> op.prefix != "")
    ensures var t, gone := Step(w, op), Gone(w.m.Keys, op);
            && t.m == w.m - gone
            && t.sqlite.rows == WithoutPaths(w.sqlite.rows, gone) && t.sqlite.next == w.sqlite.next
            && t.dsql == DsqlRemovePaths(w.dsql, gone)
            && t.residue == w.residue - gone
  {
    var gone := Gone(w.m.Keys, op);
    KnownPaths(w);
    ResidueShape(w, op);
    if op.RemovePrefix? {
      assert gone == set p | p in w.dsql.latest && InPrefix(p, op.prefix);
      assert (set k | k in w.sqlite.rows && Covers(op.prefix, k.path)) == set k | k in w.sqlite.rows && k.path in gone;
    }
  }

  /** Rows and leftovers belong to stored paths. */
  lemma KnownPaths(w: World)
    requires Inv(w)
    ensures forall k :: k in w.sqlite.rows ==> k.path in w.m
    ensures forall p :: p in w.residue ==> p in w.m
  {
    forall k | k in w.sqlite.rows ensures k.path in w.m
    {
      assert RowOk(w.m, w.sqlite, w.clock, k);
    }
    forall p | p in w.residue ensures p in w.m
    {
      var k := Key(p, w.residue[p]);
      assert KeyAgrees(w.sqlite.rows, w.dsql.versions, w.residue, k);
    }
  }

  lemma StepKeeps(w: World, op: Op)
    requires Inv(w) && Legal(w, op)
    ensures Inv(Step(w, op))
  {
    if op.Write? {
      SqliteWriteKeeps(w.m, w.sqlite, w.clock, op);
      DsqlWriteKeeps(w.m, w.dsql, op);
      VersionsWriteKeeps(w, op);
    } else {
      var gone := Gone(w.m.Keys, op);
      RemovalShape(w, op);
      SqliteDropKeeps(w.m, w.sqlite, w.clock, gone);
      DsqlDropKeeps(w.m, w.dsql, gone);
      VersionsDropKeeps(w.sqlite.rows, w.dsql.versions, w.residue, gone);
    }
  }

  lemma {:induction false} RunKeeps(w: World, ops: seq<Op>)
    requires Inv(w) && LegalRun(w, ops)
    ensures Inv(Run(w, ops))
    decreases |ops|
  {
    if ops != [] {
      StepKeeps(w, ops[0]);
      RunKeeps(Step(w, ops[0]), ops[1..]);
    }
  }

  /** The operation takes the path away. */
  predicate Removes(op: Op, p: string) {
    match op
    case Write(_, _, _, _, _) => false
    case Remove(q) => q == p
    case RemovePrefix(prefix) => prefix == "" || p == prefix || prefix + "/" <= p
  }

  /** Operation `i` wrote the path, with this content, type and time, and no later one wrote or removed it. */
  predicate WrittenLast(ops: seq<Op>, i: int, p: string, f: File) {
    && 0 <= i < |ops| && ops[i].Write? && ops[i].path == p
    && f == File(ops[i].content, Meta(ops[i].mimeType, ops[i].now))
    && forall j :: i < j < |ops| ==> Untouched(ops[j], p)
  }

  predicate Untouched(op: Op, p: string) {
    !(op.Write? && op.path == p) && !Removes(op, p)
  }

  lemma RunLast(w: World, ops: seq<Op>, op: Op)
    ensures Run(w, ops + [op]) == Step(Run(w, ops), op)
    decreases |ops|
  {
    var all := ops + [op];
    if ops == [] {
      assert all[1..] == [];
    } else {
      assert all[1..] == ops[1..] + [op];
      RunLast(Step(w, ops[0]), ops[1..], op);
    }
  }

  /** The map holds, for each path, exactly what the last write that was not removed stored. */
  lemma {:induction false} MapIsLastWrite(ops: seq<Op>, p: string, f: File)
    ensures Get(Run(EMPTY, ops).m, p) == Some(f) <==> exists i :: WrittenLast(ops, i, p, f)
    decreases |ops|
  {
    if ops != [] {
      var last := |ops| - 1;
      var front, op := ops[..last], ops[last];
      assert ops == front + [op];
      RunLast(EMPTY, front, op);
      MapIsLastWrite(front, p, f);
      if Untouched(op, p) {
        forall i ensures WrittenLast(ops, i, p, f) <==> WrittenLast(front, i, p, f)
        {
          if WrittenLast(ops, i, p, f) {
            assert i != last;
          }
        }
      } else {
        assert forall i :: WrittenLast(ops, i, p, f) ==> i == last;
        assert op.Write? && f == File(op.content, Meta(op.mimeType, op.now)) <==> WrittenLast(ops, last, p, f);
      }
    }
  }

  /**
   * Refinement: after any legal run the latest read of either store is a lookup in the
   * map, and both know the same paths.
   */
  lemma LatestReadsAreMapLookups(ops: seq<Op>, p: string)
    requires LegalRun(EMPTY, ops)
    ensures var w := Run(EMPTY, ops);
            && DsqlRead(w.dsql, p) == Get(w.m, p)
            && (forall h :: IsLatest(w.sqlite, Key(p, h)) ==> Some(FileOf(w.sqlite, Key(p, h))) == Get(w.m, p))
            && (p in w.m <==> exists h :: IsLatest(w.sqlite, Key(p, h)))
            && (p in w.m <==> exists h :: Key(p, h) in w.sqlite.rows)
            && w.dsql.latest.Keys == w.m.Keys
  {
    RunKeeps(EMPTY, ops);
    var w := Run(EMPTY, ops);
    if p in w.m {
      assert LastRowOk(w.m, w.sqlite, p);
      assert LastKey(w.m, p) == Key(p, Sha256(w.m[p].content));
    }
    forall h | Key(p, h) in w.sqlite.rows ensures p in w.m
    {
      assert RowOk(w.m, w.sqlite, w.clock, Key(p, h));
    }
    forall h | IsLatest(w.sqlite, Key(p, h)) ensures p in w.m && Key(p, h) == LastKey(w.m, p)
    {
      assert RowOk(w.m, w.sqlite, w.clock, Key(p, h));
    }
  }

  /** The paths a `GROUP BY path` over the table lists. */
  function SqlitePaths(s: Sqlite): set<string> {
    set k | k in s.rows :: k.path
  }

  /** Every page of a listing shows the same paths on both stores and on the map, for any prefix, cursor and limit. */
  lemma ListingsAgree(ops: seq<Op>, prefix: string, cursor: string, limit: Option<nat>)
    requires LegalRun(EMPTY, ops)
    ensures var w := Run(EMPTY, ops);
            SqlPage(SqlitePaths(w.sqlite), prefix, cursor, limit)
              == SqlPage(w.dsql.latest.Keys, prefix, cursor, limit)
              == SqlPage(w.m.Keys, prefix, cursor, limit)
  {
    RunKeeps(EMPTY, ops);
    var w := Run(EMPTY, ops);
    KnownPaths(w);
    forall p | p in w.m ensures p in SqlitePaths(w.sqlite)
    {
      assert LastRowOk(w.m, w.sqlite, p) && LastKey(w.m, p) in w.sqlite.rows;
    }
    assert SqlitePaths(w.sqlite) == w.m.Keys;
  }

  /**
   * The SQLite listing picks any row with the greatest time, so what it shows for a path
   * is sure to be the last write exactly when no other version carries the same time.
   */
  lemma ListingExact(ops: seq<Op>, p: string)
    requires LegalRun(EMPTY, ops) && p in Run(EMPTY, ops).m
    ensures var w := Run(EMPTY, ops);
            var last := LastKey(w.m, p);
            && last in w.sqlite.rows && IsListed(w.sqlite, last)
            && ((forall k :: IsListed(w.sqlite, k) && k.path == p ==> FileOf(w.sqlite, k) == w.m[p])
                <==> forall k :: k in w.sqlite.rows && k.path == p && k != last ==>
                       w.sqlite.rows[k].meta.updatedAt < w.sqlite.rows[last].meta.updatedAt)
  {
    RunKeeps(EMPTY, ops);
    var w := Run(EMPTY, ops);
    var last := LastKey(w.m, p);
    assert LastRowOk(w.m, w.sqlite, p);
    forall k | k in w.sqlite.rows && k.path == p && k != last
      ensures w.sqlite.rows[k].meta.updatedAt <= w.sqlite.rows[last].meta.updatedAt
      ensures FileOf(w.sqlite, k) != w.m[p]
      ensures w.sqlite.rows[k].meta.updatedAt == w.sqlite.rows[last].meta.updatedAt ==> IsListed(w.sqlite, k)
    {
      assert Later(w.sqlite.rows[last], w.sqlite.rows[k]);
    }
  }

  /** A hash-pinned read gives the same on both stores exactly when the hash is not an unversioned leftover. */
  lemma PinnedReadsExact(ops: seq<Op>, k: Key)
    requires LegalRun(EMPTY, ops)
    ensures var w := Run(EMPTY, ops);
            SqlitePinned(w.sqlite, k) == DsqlPinned(w.dsql, k) <==> Get(w.residue, k.path) != Some(k.hash)
  {
    RunKeeps(EMPTY, ops);
    var w := Run(EMPTY, ops);
    assert KeyAgrees(w.sqlite.rows, w.dsql.versions, w.residue, k);
  }

  /** Ties are reached: two versions written in one millisecond, and the listing may show the first. */
  lemma TieIsReached(p: string, first: string, second: string, mime: string, now: int)
    requires Normal(p) && first != second && now >= 0
    ensures var ops := [Write(p, first, mime, true, now), Write(p, second, mime, true, now)];
            && LegalRun(EMPTY, ops)
            && var w := Run(EMPTY, ops);
               IsListed(w.sqlite, Key(p, Sha256(first))) && Some(FileOf(w.sqlite, Key(p, Sha256(first)))) != Get(w.m, p)
  {
    var a, b := Write(p, first, mime, true, now), Write(p, second, mime, true, now);
    var w1 := Step(EMPTY, a);
    var w2 := Step(w1, b);
    assert [a, b][1..] == [b] && [b][1..] == [];
    assert Run(w1, [b]) == Run(w2, []) && Run(EMPTY, [a, b]) == w2;
    assert LegalRun(w1, [b]);
    assert forall k :: k in w2.sqlite.rows <==> k == Key(p, Sha256(first)) || k == Key(p, Sha256(second));
  }

  /** Leftovers are reached by one unversioned write, which SQLite lets be read by hash and DSQL does not. */
  lemma LeftoverIsReached(p: string, content: string, mime: string, now: int)
    requires Normal(p) && now >= 0
    ensures var ops := [Write(p, content, mime, false, now)];
            && LegalRun(EMPTY, ops)
            && var w := Run(EMPTY, ops);
               SqlitePinned(w.sqlite, Key(p, Sha256(content))) != DsqlPinned(w.dsql, Key(p, Sha256(content)))
  {
    var op := Write(p, content, mime, false, now);
    var w := Step(EMPTY, op);
    assert [op][1..] == [] && Run(EMPTY, [op]) == Run(w, []);
    assert Key(p, Sha256(content)) in w.sqlite.rows && Key(p, Sha256(content)) !in w.dsql.versions;
  }

  /** A path never written unversioned has no leftover. */
  lemma {:induction false} VersionedPathsHaveNoResidue(w: World, ops: seq<Op>, p: string)
    requires p !in w.residue
    requires forall i :: 0 <= i < |ops| && ops[i].Write? && ops[i].path == p ==> ops[i].versioned
    ensures p !in Run(w, ops).residue
    decreases |ops|
  {
    if ops != [] {
      assert p !in Step(w, ops[0]).residue;
      forall i | 0 <= i < |ops[1..]| && ops[1..][i].Write? && ops[1..][i].path == p ensures ops[1..][i].versioned
      {
        assert ops[1..][i] == ops[i + 1];
      }
      VersionedPathsHaveNoResidue(Step(w, ops[0]), ops[1..], p);
    }
  }

  /** An unversioned write leaves SQLite one version of the path, its own, and DSQL none. */
  lemma UnversionedWriteLeavesAtMostOne(w: World, op: Op, h: Hash)
    requires op.Write? && !op.versioned
    ensures Key(op.path, h) in Step(w, op).sqlite.rows <==> h == Sha256(op.content)
    ensures Key(op.path, h) !in Step(w, op).dsql.versions
  {
  }

  /**
   * Removing the empty prefix is where the stores part: DSQL lists and deletes
   * everything, SQLite deletes nothing.  They agree only on an empty store.
   */
  lemma EmptyPrefixDiverges(ops: seq<Op>)
    requires LegalRun(EMPTY, ops)
    ensures var w := Run(EMPTY, ops);
            var t := Step(w, RemovePrefix(""));
            && t.sqlite == w.sqlite && t.dsql.latest == map[]
            && ((forall k :: k in t.sqlite.rows ==> k.path in t.dsql.latest) <==> w.m == map[])
  {
    RunKeeps(EMPTY, ops);
    var w := Run(EMPTY, ops);
    var t := Step(w, RemovePrefix(""));
    SqliteIgnoresEmptyPrefix(w);
    assert t.dsql.latest.Keys == {} by {
      assert forall p :: p in w.dsql.latest ==> InPrefix(p, "");
    }
    if w.m != map[] {
      var p :| p in w.m;
      assert LastRowOk(w.m, w.sqlite, p);
      assert LastKey(w.m, p) in t.sqlite.rows && LastKey(w.m, p).path !in t.dsql.latest;
    }
  }

  lemma SqliteIgnoresEmptyPrefix(w: World)
    requires Inv(w)
    ensures SqliteRemovePrefix(w.sqlite, "") == w.sqlite
    ensures forall k :: k in w.sqlite.rows ==> k.path in w.m
  {
    forall k | k in w.sqlite.rows ensures !Covers("", k.path) && k.path in w.m
    {
      assert RowOk(w.m, w.sqlite, w.clock, k);
      assert ("" + "/")[0] == '/';
    }
  }

  // ----- The objects -----

  class FsStoreSqlite {
    var rows: map<Key, Row>
    var next: nat

    ghost function Value(): Sqlite
      reads this
    {
      Sqlite(rows, next)
    }

    constructor ()
      ensures Value() == EMPTY.sqlite
    {
      rows, next := map[], 0;
    }

    method Write(path: string, content: string, mime: string, versioned: bool, now: int)
      modifies this
      ensures Value() == SqliteWrite(old(Value()), path, content, mime, versioned, now)
    {
      var hash := Sha256(content);
      if !versioned {
        rows := rows - set k | k in rows && k.path == path && k.hash != hash;
      }
      rows := rows[Key(path, hash) := Row(Meta(mime, now), next)];
      next := next + 1;
    }

    method Remove(path: string) returns (removed: bool)
      modifies this
      ensures Value() == SqliteRemove(old(Value()), path)
      ensures removed <==> exists h :: Key(path, h) in old(rows)
    {
      var hit := set k | k in rows && k.path == path;
      removed := hit != {};
      if removed {
        ghost var k :| k in hit;
        assert k == Key(path, k.hash);
      }
      assert forall h :: Key(path, h) in rows ==> Key(path, h) in hit;
      rows := WithoutPaths(rows, {path});
    }

    method RemovePrefix(prefix: string)
      modifies this
      ensures Value() == SqliteRemovePrefix(old(Value()), prefix)
    {
      rows := rows - set k | k in rows && Covers(prefix, k.path);
    }
  }

  class FsStoreDsql {
    var latest: map<string, Pointer>
    var versions: map<Key, Meta>
    var blobs: map<Hash, string>

    ghost function Value(): Dsql
      reads this
    {
      Dsql(latest, versions, blobs)
    }

    constructor ()
      ensures Value() == EMPTY.dsql
    {
      latest, versions, blobs := map[], map[], map[];
    }

    /** `write`: PUT the blob, then the pointer row, then the version row or the clean-up. */
    method Write(path: string, content: string, mime: string, versioned: bool, now: int)
      modifies this
      ensures Value() == DsqlWrite(old(Value()), path, content, mime, versioned, now)
    {
      var hash := Sha256(content);
      blobs := blobs[hash := content];
      latest := latest[path := Pointer(hash, Meta(mime, now))];
      if versioned {
        versions := versions[Key(path, hash) := Meta(mime, now)];
      } else {
        versions := WithoutPaths(versions, {path});
      }
    }

    /** The latest version, or the one pinned by its hash. */
    method Read(path: string, hash: Option<Hash>) returns (file: Option<File>)
      ensures file == if hash.Some? then DsqlPinned(Value(), Key(path, hash.value)) else DsqlRead(Value(), path)
    {
      if hash.Some? {
        var k := Key(path, hash.value);
        if k !in versions || k.hash !in blobs {
          return None;
        }
        return Some(File(blobs[k.hash], versions[k]));
      }
      if path !in latest || latest[path].hash !in blobs {
        return None;
      }
      return Some(File(blobs[latest[path].hash], latest[path].meta));
    }

    method Remove(path: string) returns (removed: bool)
      modifies this
      ensures Value() == DsqlRemovePaths(old(Value()), {path})
      ensures removed <==> path in old(latest)
    {
      removed := path in latest;
      latest := latest - {path};
      versions := WithoutPaths(versions, {path});
    }

    /** Listed paths are deleted batch by batch, both tables per batch. */
    method RemovePrefix(prefix: string, listed: seq<string>, batch: nat) returns (removed: nat)
      requires batch > 0
      requires forall p :: p in listed <==> p in latest && InPrefix(p, prefix)
      modifies this
      ensures Value() == DsqlRemovePrefix(old(Value()), prefix)
      ensures removed == |listed|
    {
      removed := 0;
      ghost var was := Value();
      ghost var done: set<string> := {};
      while removed < |listed|
        invariant removed <= |listed| && done == set i | 0 <= i < removed :: listed[i]
        invariant latest == was.latest - done && versions == WithoutPaths(was.versions, done) && blobs == was.blobs
      {
        var upTo := if removed + batch < |listed| then removed + batch else |listed|;
        var paths := set i | removed <= i < upTo :: listed[i];
        latest := latest - paths;
        versions := WithoutPaths(versions, paths);
        removed := upTo;
        assert WithoutPaths(WithoutPaths(was.versions, done), paths) == WithoutPaths(was.versions, done + paths);
        done := done + paths;
      }
      assert done == set p | p in was.latest && InPrefix(p, prefix) by {
        forall p ensures p in done <==> p in was.latest && InPrefix(p, prefix)
        {
          assert p in done <==> p in listed;
        }
      }
    }
  }
}
