/**
 * Cursor-paginated listing of the workspace file store (server/workspace/src/fs-store.ts):
 * the limit+1 scheme of the SQL backends, the resume-key scheme of the Dynamo backend,
 * and draining a store page by page while it changes.
 */
module FsListing {
  import opened Common
  import opened StringOrder

  /** An empty prefix selects every path. */
  predicate InPrefix(path: string, prefix: string) {
    prefix == "" || Covers(prefix, path)
  }

  /** Paths strictly after the cursor; the empty cursor is the beginning. */
  predicate After(path: string, cursor: string) {
    cursor == "" || Less(cursor, path)
  }

  /** What is still to be listed, in order. */
  ghost function Remaining(keys: set<string>, prefix: string, cursor: string): seq<string> {
    Sorted(set p | p in keys && InPrefix(p, prefix) && After(p, cursor))
  }

  datatype Page = Page(entries: seq<string>, cursor: Option<string>)
  datatype ListError = TypeError

  // ----- The SQL backends: ask for one row more than the limit -----

  /**
   * One page.  A limit of zero reads every row and then finds no last entry to resume
   * from, which the source does not survive when there is any row.
   */
  ghost function SqlPage(
    keys: set<string>, prefix: string, cursor: string, limit: Option<nat>): Result<Page, ListError> {
    var all := Remaining(keys, prefix, cursor);
    var rows := if limit.Some? && limit.value != 0 && limit.value + 1 <= |all| then all[..limit.value + 1] else all;
    if limit.Some? && |rows| > limit.value then
      if limit.value == 0 then Err(TypeError)
      else Ok(Page(rows[..limit.value], Some(rows[limit.value - 1])))
    else Ok(Page(rows, None))
  }

  // ----- The Dynamo backend: resume after the last returned key -----

  /** The first page of what remains; the limit is tested after an entry is added, so zero acts as one. */
  function CutPage(all: seq<string>, limit: Option<nat>): Page {
    if limit.Some? && Quota(limit.value) <= |all| then
      Page(all[..Quota(limit.value)], Some(all[Quota(limit.value) - 1]))
    else Page(all, None)
  }

  ghost function ResumePage(keys: set<string>, prefix: string, cursor: string, limit: Option<nat>): Page {
    CutPage(Remaining(keys, prefix, cursor), limit)
  }

  /** The rows a `begins_with` query returns: the prefix is compared as text. */
  ghost predicate IsQueryResult(rows: seq<string>, keys: set<string>, prefix: string, cursor: string) {
    && Ascending(rows)
    && forall p :: p in rows <==> p in keys && prefix <= p && After(p, cursor)
  }

  function InPrefixOnly(rows: seq<string>, prefix: string): seq<string> {
    if rows == [] then []
    else
      InPrefixOnly(rows[..|rows| - 1], prefix)
        + if InPrefix(rows[|rows| - 1], prefix) then [rows[|rows| - 1]] else []
  }

  lemma {:induction false} FilterKeepsOrder(rows: seq<string>, prefix: string)
    requires Ascending(rows)
    ensures var kept := InPrefixOnly(rows, prefix);
            && Ascending(kept)
            && forall p :: p in kept <==> p in rows && InPrefix(p, prefix)
    decreases |rows|
  {
    if rows != [] {
      var front, last := rows[..|rows| - 1], rows[|rows| - 1];
      FilterKeepsOrder(front, prefix);
      assert rows == front + [last];
      var kept := InPrefixOnly(front, prefix);
      forall i | 0 <= i < |kept| ensures Less(kept[i], last)
      {
        assert kept[i] in front;
      }
    }
  }

  /** Filtering the over-matching query by whole path segments leaves exactly what remains to be listed. */
  lemma FilteredQueryIsRemaining(rows: seq<string>, keys: set<string>, prefix: string, cursor: string)
    requires IsQueryResult(rows, keys, prefix, cursor)
    ensures InPrefixOnly(rows, prefix) == Remaining(keys, prefix, cursor)
  {
    FilterKeepsOrder(rows, prefix);
    var selected := set p | p in keys && InPrefix(p, prefix) && After(p, cursor);
    SortedAscends(selected);
    forall p ensures p in InPrefixOnly(rows, prefix) <==> p in Sorted(selected)
    {
      if prefix != "" && prefix + "/" <= p {
        assert p[..|prefix|] == (prefix + "/")[..|prefix|] == prefix;
      }
    }
    AscendingUnique(InPrefixOnly(rows, prefix), Sorted(selected));
  }

  lemma {:induction false} JoinedIsPrefix(pages: seq<seq<string>>, m: nat, n: nat)
    requires m <= n <= |pages|
    ensures Joined(pages, m) <= Joined(pages, n)
    decreases n
  {
    if m < n {
      JoinedIsPrefix(pages, m, n - 1);
    }
  }

  lemma {:induction false} FilterOfPrefix(small: seq<string>, large: seq<string>, prefix: string)
    requires small <= large
    ensures InPrefixOnly(small, prefix) <= InPrefixOnly(large, prefix)
    decreases |large|
  {
    if small != large {
      FilterOfPrefix(small, large[..|large| - 1], prefix);
    }
  }

  /** The entry count at which a page is full. */
  function Quota(limit: nat): nat {
    if limit > 1 then limit else 1
  }

  /** The query rows read so far, and the entries kept of them, with the page not full yet. */
  ghost predicate Collected(done: seq<string>, prefix: string, limit: Option<nat>, entries: seq<string>) {
    entries == InPrefixOnly(done, prefix) && (limit.Some? ==> |entries| < Quota(limit.value))
  }

  /** Reading one more row. */
  lemma CollectOne(done: seq<string>, path: string, prefix: string)
    ensures InPrefixOnly(done + [path], prefix)
         == InPrefixOnly(done, prefix) + if InPrefix(path, prefix) then [path] else []
  {
    assert (done + [path])[..|done|] == done;
  }

  /** The page is full in the middle of the query. */
  lemma FullPage(done: seq<string>, all: seq<string>, prefix: string, limit: nat)
    requires done <= all && |InPrefixOnly(done, prefix)| == Quota(limit)
    ensures var entries := InPrefixOnly(done, prefix);
            CutPage(InPrefixOnly(all, prefix), Some(limit)) == Page(entries, Some(entries[|entries| - 1]))
  {
    FilterOfPrefix(done, all, prefix);
  }

  /** The query ends before the page is full. */
  lemma LastPage(all: seq<string>, prefix: string, limit: Option<nat>, entries: seq<string>)
    requires Collected(all, prefix, limit, entries)
    ensures CutPage(InPrefixOnly(all, prefix), limit) == Page(entries, None)
  {
  }

  /** One page of query rows: add its matching paths until the page is full. */
  method CollectPage(
    items: seq<string>, prefix: string, limit: Option<nat>, collected: seq<string>, ghost before: seq<string>)
    returns (entries: seq<string>, full: bool, ghost done: seq<string>)
    requires Collected(before, prefix, limit, collected)
    ensures !full ==> done == before + items && Collected(done, prefix, limit, entries)
    ensures full ==>
              && limit.Some? && |entries| == Quota(limit.value)
              && done <= before + items && entries == InPrefixOnly(done, prefix)
  {
    entries, done := collected, before;
    for j := 0 to |items|
      invariant done == before + items[..j] && Collected(done, prefix, limit, entries)
    {
      var path := items[j];
      CollectOne(done, path, prefix);
      ReadOne(before, items, j);
      done := done + [path];
      if InPrefix(path, prefix) {
        entries := entries + [path];
        if limit.Some? && |entries| >= limit.value {
          full := true;
          return;
        }
      }
    }
    full := false;
    assert items[..|items|] == items;
  }

  /** The loop over the pages of a query. */
  method CollectPages(query: seq<seq<string>>, prefix: string, limit: Option<nat>) returns (page: Page)
    ensures page == CutPage(InPrefixOnly(Joined(query, |query|), prefix), limit)
  {
    var entries: seq<string> := [];
    var full: bool;
    ghost var done: seq<string> := [];
    for i := 0 to |query|
      invariant done == Joined(query, i) && Collected(done, prefix, limit, entries)
    {
      JoinedIsPrefix(query, i + 1, |query|);
      entries, full, done := CollectPage(query[i], prefix, limit, entries, done);
      if full {
        FullPage(done, Joined(query, |query|), prefix, limit.value);
        return Page(entries, Some(entries[|entries| - 1]));
      }
    }
    LastPage(done, prefix, limit, entries);
    return Page(entries, None);
  }

  /** `FsStoreS3.list`: however the query is paged, the answer is the resume-key page. */
  method ListByResumeKey(
    ghost keys: set<string>, prefix: string, ghost cursor: string, limit: Option<nat>, query: seq<seq<string>>)
    returns (page: Page)
    requires IsQueryResult(Joined(query, |query|), keys, prefix, cursor)
    ensures page == ResumePage(keys, prefix, cursor, limit)
  {
    FilteredQueryIsRemaining(Joined(query, |query|), keys, prefix, cursor);
    page := CollectPages(query, prefix, limit);
  }

  // ----- Draining while the store changes -----

  /** A page that a scheme may answer with: all that remains, or a nonempty first part ending in its cursor. */
  ghost predicate IsPage(keys: set<string>, prefix: string, cursor: string, page: Page) {
    var all := Remaining(keys, prefix, cursor);
    && page.entries <= all
    && (page.cursor.None? ==> page.entries == all)
    && (page.cursor.Some? ==> page.entries != [] && page.cursor.value == page.entries[|page.entries| - 1])
  }

  /** A page is cut short only by the limit, and then exactly there. */
  predicate Full(page: Page, limit: nat) {
    if page.cursor.Some? then |page.entries| == limit else |page.entries| <= limit
  }

  /** Both schemes answer with such pages for every limit of at least one. */
  lemma BothSchemesPage(keys: set<string>, prefix: string, cursor: string, limit: nat)
    requires limit >= 1
    ensures var sql := SqlPage(keys, prefix, cursor, Some(limit));
            && sql.Ok? && IsPage(keys, prefix, cursor, sql.value) && Full(sql.value, limit)
    ensures var page := ResumePage(keys, prefix, cursor, Some(limit));
            && IsPage(keys, prefix, cursor, page) && Full(page, limit) && (page.cursor.None? ==> |page.entries| < limit)
  {
    SqlSchemePage(keys, prefix, cursor, limit);
    ResumeSchemePage(keys, prefix, cursor, limit);
  }

  lemma SqlSchemePage(keys: set<string>, prefix: string, cursor: string, limit: nat)
    requires limit >= 1
    ensures var sql := SqlPage(keys, prefix, cursor, Some(limit));
            sql.Ok? && IsPage(keys, prefix, cursor, sql.value) && Full(sql.value, limit)
  {
    var all := Remaining(keys, prefix, cursor);
    if limit + 1 <= |all| {
      assert all[..limit + 1][..limit] == all[..limit];
    }
  }

  lemma ResumeSchemePage(keys: set<string>, prefix: string, cursor: string, limit: nat)
    requires limit >= 1
    ensures var page := ResumePage(keys, prefix, cursor, Some(limit));
            && IsPage(keys, prefix, cursor, page) && Full(page, limit) && (page.cursor.None? ==> |page.entries| < limit)
  {
  }

  /**
   * The pages a client receives by following cursors, where `stores[i]` is the set of
   * stored paths when page i is read.
   */
  ghost predicate IsDrain(stores: seq<set<string>>, prefix: string, cursor: string, pages: seq<Page>)
    decreases |pages|
  {
    && |pages| == |stores|
    && (pages != [] ==>
          && IsPage(stores[0], prefix, cursor, pages[0])
          && (|pages| > 1 ==> pages[0].cursor.Some? && IsDrain(stores[1..], prefix, pages[0].cursor.value, pages[1..])))
  }

  function Entries(pages: seq<Page>): seq<string> {
    if pages == [] then [] else pages[0].entries + Entries(pages[1..])
  }

  lemma RemainingSpec(keys: set<string>, prefix: string, cursor: string)
    ensures Ascending(Remaining(keys, prefix, cursor))
    ensures forall p :: p in Remaining(keys, prefix, cursor) <==> p in keys && InPrefix(p, prefix) && After(p, cursor)
  {
    SortedAscends(set p | p in keys && InPrefix(p, prefix) && After(p, cursor));
  }

  /** What a page leaves out lies after its cursor. */
  lemma PageSplits(keys: set<string>, prefix: string, cursor: string, page: Page, p: string)
    requires IsPage(keys, prefix, cursor, page) && page.cursor.Some? && page.cursor.value != ""
    requires p in keys && InPrefix(p, prefix) && After(p, cursor)
    ensures p in page.entries || Less(page.cursor.value, p)
  {
    RemainingSpec(keys, prefix, cursor);
    var all := Remaining(keys, prefix, cursor);
    var i :| 0 <= i < |all| && all[i] == p;
    if i < |page.entries| {
      assert page.entries[i] == all[i];
    } else {
      assert page.cursor.value == all[|page.entries| - 1];
    }
  }

  lemma PageSpec(keys: set<string>, prefix: string, cursor: string, page: Page)
    requires IsPage(keys, prefix, cursor, page)
    ensures Ascending(page.entries)
    ensures forall p :: p in page.entries ==> p in keys && InPrefix(p, prefix) && After(p, cursor)
    ensures page.cursor.Some? ==> forall i :: 0 <= i < |page.entries| - 1 ==> Less(page.entries[i], page.cursor.value)
  {
    RemainingSpec(keys, prefix, cursor);
    var all := Remaining(keys, prefix, cursor);
    assert forall i :: 0 <= i < |page.entries| ==> page.entries[i] == all[i];
    forall p | p in page.entries ensures p in all
    {
      var i :| 0 <= i < |page.entries| && page.entries[i] == p;
      assert all[i] == p;
    }
  }

  /** Whatever is written or removed between pages, the drained paths strictly ascend: none comes twice. */
  lemma {:induction false} DrainAscends(stores: seq<set<string>>, prefix: string, cursor: string, pages: seq<Page>)
    requires IsDrain(stores, prefix, cursor, pages)
    requires forall i :: 0 <= i < |stores| ==> "" !in stores[i]
    ensures Ascending(Entries(pages))
    ensures forall p :: p in Entries(pages) ==> After(p, cursor) && p != ""
    decreases |pages|
  {
    if pages != [] {
      var page, rest := pages[0], Entries(pages[1..]);
      PageSpec(stores[0], prefix, cursor, page);
      if |pages| > 1 {
        assert page.cursor.value in page.entries;
        forall i | 0 <= i < |stores[1..]| ensures "" !in stores[1..][i]
        {
          assert stores[1..][i] == stores[i + 1];
        }
        DrainAscends(stores[1..], prefix, page.cursor.value, pages[1..]);
        AscendingConcat(page.entries, rest);
        forall p | p in rest ensures After(p, cursor)
        {
          if cursor != "" {
            LessTransitive(cursor, page.cursor.value, p);
          }
        }
      } else {
        assert rest == [];
        assert Entries(pages) == page.entries;
      }
    }
  }

  lemma AscendingConcat(xs: seq<string>, ys: seq<string>)
    requires Ascending(xs) && Ascending(ys) && xs != []
    requires forall p :: p in ys ==> Less(xs[|xs| - 1], p)
    ensures Ascending(xs + ys)
  {
    forall i, j | 0 <= i < |xs| <= j < |xs| + |ys| ensures Less((xs + ys)[i], (xs + ys)[j])
    {
      var y := ys[j - |xs|];
      assert y in ys;
      if i < |xs| - 1 {
        LessTransitive(xs[i], xs[|xs| - 1], y);
      }
    }
  }

  /** The path is there at every page; no stored path is empty. */
  predicate AlwaysStored(stores: seq<set<string>>, p: string) {
    forall i :: 0 <= i < |stores| ==> p in stores[i] && "" !in stores[i]
  }

  lemma StoredLater(stores: seq<set<string>>, p: string)
    requires AlwaysStored(stores, p) && stores != []
    ensures AlwaysStored(stores[1..], p)
  {
    assert forall i :: 0 <= i < |stores[1..]| ==> stores[1..][i] == stores[i + 1];
  }

  lemma LastPageHas(keys: set<string>, prefix: string, cursor: string, page: Page, p: string)
    requires IsPage(keys, prefix, cursor, page) && page.cursor.None?
    requires p in keys && InPrefix(p, prefix) && After(p, cursor)
    ensures p in page.entries
  {
    RemainingSpec(keys, prefix, cursor);
  }

  lemma PageHasOrGoesOn(keys: set<string>, prefix: string, cursor: string, page: Page, p: string)
    requires IsPage(keys, prefix, cursor, page) && page.cursor.Some? && "" !in keys
    requires p in keys && InPrefix(p, prefix) && After(p, cursor)
    ensures p in page.entries || After(p, page.cursor.value)
  {
    PageSpec(keys, prefix, cursor, page);
    assert page.cursor.value in page.entries;
    PageSplits(keys, prefix, cursor, page, p);
  }

  /** A finished drain holds every path that was stored throughout it. */
  lemma {:induction false} DrainFindsSurvivors(
    stores: seq<set<string>>, prefix: string, cursor: string, pages: seq<Page>, p: string)
    requires IsDrain(stores, prefix, cursor, pages) && pages != [] && pages[|pages| - 1].cursor.None?
    requires AlwaysStored(stores, p)
    requires InPrefix(p, prefix) && After(p, cursor)
    ensures p in Entries(pages)
    decreases |pages|
  {
    assert p in stores[0] && "" !in stores[0];
    if |pages| == 1 {
      LastPageHas(stores[0], prefix, cursor, pages[0], p);
    } else {
      PageHasOrGoesOn(stores[0], prefix, cursor, pages[0], p);
      if p !in pages[0].entries {
        StoredLater(stores, p);
        DrainFindsSurvivors(stores[1..], prefix, pages[0].cursor.value, pages[1..], p);
      }
    }
  }

  /** A drain lists nothing that was not stored, under the prefix, when its page was read. */
  lemma {:induction false} DrainIsHonest(
    stores: seq<set<string>>, prefix: string, cursor: string, pages: seq<Page>, p: string)
    requires IsDrain(stores, prefix, cursor, pages) && p in Entries(pages)
    ensures InPrefix(p, prefix) && exists i :: 0 <= i < |stores| && p in stores[i] && p in pages[i].entries
    decreases |pages|
  {
    PageSpec(stores[0], prefix, cursor, pages[0]);
    if p !in pages[0].entries {
      assert |pages| > 1;
      DrainIsHonest(stores[1..], prefix, pages[0].cursor.value, pages[1..], p);
      var i :| 0 <= i < |stores[1..]| && p in stores[1..][i] && p in pages[1..][i].entries;
      assert p in stores[i + 1] && p in pages[i + 1].entries;
    }
  }

  /** Over a store that no longer changes, a finished drain is the whole listing. */
  lemma {:induction false} QuietDrainIsListing(
    keys: set<string>, stores: seq<set<string>>, prefix: string, cursor: string, pages: seq<Page>)
    requires IsDrain(stores, prefix, cursor, pages) && pages != [] && pages[|pages| - 1].cursor.None?
    requires "" !in keys && forall i :: 0 <= i < |stores| ==> stores[i] == keys
    ensures Entries(pages) == Remaining(keys, prefix, cursor)
  {
    DrainAscends(stores, prefix, cursor, pages);
    RemainingSpec(keys, prefix, cursor);
    forall p ensures p in Entries(pages) <==> p in Remaining(keys, prefix, cursor)
    {
      if p in Entries(pages) {
        DrainIsHonest(stores, prefix, cursor, pages, p);
      }
      if p in Remaining(keys, prefix, cursor) {
        DrainFindsSurvivors(stores, prefix, cursor, pages, p);
      }
    }
    AscendingUnique(Entries(pages), Remaining(keys, prefix, cursor));
  }

  /**
   * Over a store that no longer changes a drain ends: unfinished, it has at most as many pages as
   * there are paths left.
   */
  lemma {:induction false} QuietDrainEnds(
    keys: set<string>, stores: seq<set<string>>, prefix: string, cursor: string, pages: seq<Page>)
    requires IsDrain(stores, prefix, cursor, pages) && pages != [] && pages[|pages| - 1].cursor.Some?
    requires "" !in keys && forall i :: 0 <= i < |stores| ==> stores[i] == keys
    ensures |pages| <= |Remaining(keys, prefix, cursor)|
    decreases |pages|
  {
    var page := pages[0];
    assert stores[0] == keys;
    PageSpec(keys, prefix, cursor, page);
    var all := Remaining(keys, prefix, cursor);
    if |pages| > 1 {
      assert page.cursor.value in page.entries;
      QuietDrainEnds(keys, stores[1..], prefix, page.cursor.value, pages[1..]);
      RestAfterPage(keys, prefix, cursor, page);
    }
  }

  /** After a page, exactly the unlisted part remains. */
  lemma RestAfterPage(keys: set<string>, prefix: string, cursor: string, page: Page)
    requires IsPage(keys, prefix, cursor, page) && page.cursor.Some? && page.cursor.value != ""
    ensures Remaining(keys, prefix, page.cursor.value) == Remaining(keys, prefix, cursor)[|page.entries|..]
  {
    var next, n := page.cursor.value, |page.entries|;
    RemainingSpec(keys, prefix, cursor);
    RemainingSpec(keys, prefix, next);
    var rest := Remaining(keys, prefix, cursor)[n..];
    forall p ensures p in rest <==> p in Remaining(keys, prefix, next)
    {
      if p in rest {
        RestIsAfter(keys, prefix, cursor, page, p);
      }
      if p in Remaining(keys, prefix, next) {
        AfterIsRest(keys, prefix, cursor, page, p);
      }
    }
    AscendingUnique(rest, Remaining(keys, prefix, next));
  }

  lemma RestIsAfter(keys: set<string>, prefix: string, cursor: string, page: Page, p: string)
    requires IsPage(keys, prefix, cursor, page) && page.cursor.Some? && page.cursor.value != ""
    requires p in Remaining(keys, prefix, cursor)[|page.entries|..]
    ensures p in Remaining(keys, prefix, page.cursor.value)
  {
    RemainingSpec(keys, prefix, cursor);
    RemainingSpec(keys, prefix, page.cursor.value);
    var all, n := Remaining(keys, prefix, cursor), |page.entries|;
    var i :| n <= i < |all| && all[i] == p;
    assert all[n - 1] == page.cursor.value && p in all;
  }

  lemma AfterIsRest(keys: set<string>, prefix: string, cursor: string, page: Page, p: string)
    requires IsPage(keys, prefix, cursor, page) && page.cursor.Some? && page.cursor.value != ""
    requires p in Remaining(keys, prefix, page.cursor.value)
    ensures p in Remaining(keys, prefix, cursor)[|page.entries|..]
  {
    RemainingSpec(keys, prefix, cursor);
    RemainingSpec(keys, prefix, page.cursor.value);
    var all, n := Remaining(keys, prefix, cursor), |page.entries|;
    assert all[n - 1] == page.cursor.value && page.cursor.value in all;
    if cursor != "" {
      LessTransitive(cursor, page.cursor.value, p);
    }
    BehindIsLater(all, n, p);
  }

  lemma BehindIsLater(all: seq<string>, n: nat, p: string)
    requires Ascending(all) && 0 < n <= |all| && p in all && Less(all[n - 1], p)
    ensures p in all[n..]
  {
    var i :| 0 <= i < |all| && all[i] == p;
    if i < n {
      LessIrreflexive(p);
      if i < n - 1 {
        LessTransitive(p, all[n - 1], p);
      }
    }
    assert all[n..][i - n] == p;
  }

  /** The two schemes drain a quiet store to the same listing, for any two limits of at least one. */
  lemma SchemesDrainAlike(keys: set<string>, prefix: string, sql: seq<Page>, resume: seq<Page>, m: nat, n: nat)
    requires m >= 1 && n >= 1 && "" !in keys
    requires FollowsSql(keys, prefix, "", m, sql) && FollowsResume(keys, prefix, "", n, resume)
    ensures Entries(sql) == Entries(resume) == Remaining(keys, prefix, "")
  {
    SqlFollowsDrain(keys, prefix, "", m, sql);
    ResumeFollowsDrain(keys, prefix, "", n, resume);
    QuietDrainIsListing(keys, Unchanged(keys, |sql|), prefix, "", sql);
    QuietDrainIsListing(keys, Unchanged(keys, |resume|), prefix, "", resume);
  }

  /** A store that is the same at each of `n` pages. */
  function Unchanged(keys: set<string>, n: nat): (stores: seq<set<string>>)
    ensures |stores| == n && forall i :: 0 <= i < n ==> stores[i] == keys
  {
    if n == 0 then [] else [keys] + Unchanged(keys, n - 1)
  }

  /** All pages of a quiet store, by the SQL scheme. */
  ghost predicate FollowsSql(keys: set<string>, prefix: string, cursor: string, limit: nat, pages: seq<Page>)
    decreases |pages|
  {
    && pages != [] && SqlPage(keys, prefix, cursor, Some(limit)) == Ok(pages[0])
    && (if pages[0].cursor.None? then |pages| == 1
         else FollowsSql(keys, prefix, pages[0].cursor.value, limit, pages[1..]))
  }

  /** All pages of a quiet store, by the resume-key scheme. */
  ghost predicate FollowsResume(keys: set<string>, prefix: string, cursor: string, limit: nat, pages: seq<Page>)
    decreases |pages|
  {
    && pages != [] && ResumePage(keys, prefix, cursor, Some(limit)) == pages[0]
    && (if pages[0].cursor.None? then |pages| == 1
         else FollowsResume(keys, prefix, pages[0].cursor.value, limit, pages[1..]))
  }

  lemma {:induction false} SqlFollowsDrain(
    keys: set<string>, prefix: string, cursor: string, limit: nat, pages: seq<Page>)
    requires limit >= 1 && FollowsSql(keys, prefix, cursor, limit, pages)
    ensures IsDrain(Unchanged(keys, |pages|), prefix, cursor, pages) && pages[|pages| - 1].cursor.None?
    decreases |pages|
  {
    BothSchemesPage(keys, prefix, cursor, limit);
    if pages[0].cursor.Some? {
      SqlFollowsDrain(keys, prefix, pages[0].cursor.value, limit, pages[1..]);
      assert Unchanged(keys, |pages|)[1..] == Unchanged(keys, |pages[1..]|);
    }
  }

  lemma {:induction false} ResumeFollowsDrain(
    keys: set<string>, prefix: string, cursor: string, limit: nat, pages: seq<Page>)
    requires limit >= 1 && FollowsResume(keys, prefix, cursor, limit, pages)
    ensures IsDrain(Unchanged(keys, |pages|), prefix, cursor, pages) && pages[|pages| - 1].cursor.None?
    decreases |pages|
  {
    BothSchemesPage(keys, prefix, cursor, limit);
    if pages[0].cursor.Some? {
      ResumeFollowsDrain(keys, prefix, pages[0].cursor.value, limit, pages[1..]);
      assert Unchanged(keys, |pages|)[1..] == Unchanged(keys, |pages[1..]|);
    }
  }
}
