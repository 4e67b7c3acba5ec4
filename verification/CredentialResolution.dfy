/**
 * Which credential a call may use (server/workspace/src/credentials.ts,
 * resolveCredentialRecord and resolveWorkspaceCredential), over the workspace's
 * records in listing order.
 */
module CredentialResolution {
  import opened Common
  import opened Credentials
  import opened StringOrder

  datatype Resolved = Resolved(id: string, level: Level, owner: Option<string>, payload: string)
  datatype Failure = ProfileUnresolved | NoSuchCredential | WrongProvider | NotConnected

  function ToResolved(r: Record): Resolved {
    Resolved(r.id, r.level, if r.level == UserOauth then r.createdBy else None, r.payload)
  }

  /** The tests that resolution searches by. */
  datatype Query =
    | WithId(id: string)
    | Of(provider: string)
    | OwnOf(sub: string)
    | OwnAt(provider: string, sub: string)
    | Shared
    | SharedAt(provider: string)
    | VisibleTo(sub: string)

  predicate Matches(q: Query, r: Record) {
    match q
    case WithId(id) => r.id == id
    case Of(p) => r.provider == p
    case OwnOf(sub) => Own(r, sub)
    case OwnAt(p, sub) => r.provider == p && Own(r, sub)
    case Shared => r.level != UserOauth
    case SharedAt(p) => r.provider == p && r.level != UserOauth
    case VisibleTo(sub) => !Foreign(r, sub)
  }

  /** The first matching record. */
  function Find(rows: seq<Record>, q: Query): Option<Record> {
    if rows == [] then None else if Matches(q, rows[0]) then Some(rows[0]) else Find(rows[1..], q)
  }

  function Filter(rows: seq<Record>, q: Query): seq<Record> {
    if rows == [] then [] else (if Matches(q, rows[0]) then [rows[0]] else []) + Filter(rows[1..], q)
  }

  predicate Own(r: Record, sub: string) {
    r.level == UserOauth && r.createdBy == Some(sub)
  }

  /** Another user's connection. */
  predicate Foreign(r: Record, sub: string) {
    r.level == UserOauth && r.createdBy != Some(sub)
  }

  /** Resolution without a pin: the invoker's own connection, else the first workspace credential. */
  function Unpinned(list: seq<Record>, provider: string, sub: string): Result<Option<Resolved>, Failure> {
    var rows := Filter(list, Of(provider));
    if rows == [] then Ok(None)
    else
      var own := Find(rows, OwnOf(sub));
      var selected := if own.Some? then own else Find(rows, Shared);
      if selected.None? then Err(NotConnected) else Ok(Some(ToResolved(selected.value)))
  }

  function Pinned(list: seq<Record>, provider: string, sub: string, id: string): Result<Option<Resolved>, Failure> {
    match Find(list, WithId(id))
    case None => Err(NoSuchCredential)
    case Some(r) =>
      if r.provider != provider then Err(WrongProvider)
      else if Foreign(r, sub) then Err(NotConnected)
      else Ok(Some(ToResolved(r)))
  }

  /** An empty pin is no pin; a bare profile name is always refused. */
  function Resolve(
    list: seq<Record>, provider: string, sub: string, id: Option<string>, profile: Option<string>)
    : Result<Option<Resolved>, Failure>
  {
    if profile.Some? then Err(ProfileUnresolved)
    else if id.Some? && id.value != "" then Pinned(list, provider, sub, id.value)
    else Unpinned(list, provider, sub)
  }

  function WorkspaceOnly(list: seq<Record>, provider: string): Option<Resolved> {
    var rows := Filter(list, SharedAt(provider));
    if rows == [] then None else Some(ToResolved(rows[0]))
  }

  // ----- Lookups -----

  lemma {:induction false} FindSpec(rows: seq<Record>, q: Query)
    ensures var f := Find(rows, q);
            && (f.Some? ==> f.value in rows && Matches(q, f.value))
            && (f.None? <==> forall i :: 0 <= i < |rows| ==> !Matches(q, rows[i]))
    decreases |rows|
  {
    if rows != [] && !Matches(q, rows[0]) {
      FindSpec(rows[1..], q);
      assert forall i :: 0 < i < |rows| ==> rows[i] == rows[1..][i - 1];
    }
  }

  /** Searching a filtered list is searching for both tests at once. */
  lemma {:induction false} FindInFilter(rows: seq<Record>, p: Query, q: Query, both: Query)
    requires forall r :: Matches(both, r) <==> Matches(p, r) && Matches(q, r)
    ensures Find(Filter(rows, p), q) == Find(rows, both)
    decreases |rows|
  {
    if rows != [] {
      FindInFilter(rows[1..], p, q, both);
      if Matches(p, rows[0]) {
        assert Filter(rows, p)[1..] == Filter(rows[1..], p);
      } else {
        assert Filter(rows, p) == Filter(rows[1..], p);
      }
    }
  }

  lemma {:induction false} FilterSpec(rows: seq<Record>, q: Query)
    ensures Find(rows, q) == if Filter(rows, q) == [] then None else Some(Filter(rows, q)[0])
    decreases |rows|
  {
    if rows != [] {
      FilterSpec(rows[1..], q);
    }
  }

  /** The unpinned answer in terms of three searches of the whole listing. */
  lemma UnpinnedByFind(list: seq<Record>, provider: string, sub: string)
    ensures var own, shared := Find(list, OwnAt(provider, sub)), Find(list, SharedAt(provider));
            var here := Find(list, Of(provider));
            Unpinned(list, provider, sub) ==
            if own.Some? then Ok(Some(ToResolved(own.value)))
            else if shared.Some? then Ok(Some(ToResolved(shared.value)))
            else if here.None? then Ok(None)
            else Err(NotConnected)
  {
    FilterSpec(list, Of(provider));
    FindInFilter(list, Of(provider), OwnOf(sub), OwnAt(provider, sub));
    FindInFilter(list, Of(provider), Shared, SharedAt(provider));
    FindSpec(list, Of(provider));
    FindSpec(list, OwnAt(provider, sub));
    FindSpec(list, SharedAt(provider));
  }

  // ----- What may be returned -----

  /** Whatever is asked, nobody is ever handed another user's connection, nor a credential of another provider. */
  lemma NeverAnotherUsersConnection(
    list: seq<Record>, provider: string, sub: string, id: Option<string>, profile: Option<string>)
    ensures var out := Resolve(list, provider, sub, id, profile);
            out.Ok? && out.value.Some? ==>
              && (exists r :: r in list && r.provider == provider && !Foreign(r, sub)
                              && out.value.value == ToResolved(r))
              && (out.value.value.owner.Some? ==> out.value.value.owner == Some(sub))
  {
    if id.Some? && id.value != "" {
      FindSpec(list, WithId(id.value));
    } else {
      UnpinnedByFind(list, provider, sub);
      FindSpec(list, OwnAt(provider, sub));
      FindSpec(list, SharedAt(provider));
    }
  }

  predicate DistinctIds(list: seq<Record>) {
    forall i, j :: 0 <= i < j < |list| ==> list[i].id != list[j].id
  }

  /** The credential of a record, as it is handed out: with an owner exactly if it is a user connection. */
  lemma HandedOut(r: Record)
    ensures ToResolved(r) == Resolved(r.id, r.level, if r.level.UserOauth? then r.createdBy else None, r.payload)
  {
  }

  /**
   * A pin is honoured exactly: the record with that id is answered if it is of the provider and
   * not another user's connection, even when other credentials would do, and otherwise nothing is.
   */
  lemma PinIsHonoured(list: seq<Record>, provider: string, sub: string, id: string, r: Record)
    requires DistinctIds(list) && id != "" && r in list && r.id == id
    ensures var out := Resolve(list, provider, sub, Some(id), None);
            var foreign := r.level == UserOauth && r.createdBy != Some(sub);
            && (out.Ok? <==> r.provider == provider && !foreign)
            && (out.Ok? ==>
                 && out.value.Some? && out.value.value.id == id && out.value.value.level == r.level
                 && out.value.value.payload == r.payload
                 && out.value.value.owner == if r.level == UserOauth then Some(sub) else None)
            && (out == Err(WrongProvider) <==> r.provider != provider)
            && (out == Err(NotConnected) <==> r.provider == provider && foreign)
  {
    FindSpec(list, WithId(id));
    var found := Find(list, WithId(id)).value;
    var i, j :| 0 <= i < |list| && list[i] == r && 0 <= j < |list| && list[j] == found;
    assert i == j;
  }

  /** A pin on a record that is not there is refused, and so is every bare profile name. */
  lemma MissingPinIsRefused(list: seq<Record>, provider: string, sub: string, id: Option<string>)
    ensures id.Some? && id.value != "" ==>
              var out := Resolve(list, provider, sub, id, None);
              (out == Err(NoSuchCredential) <==> forall r :: r in list ==> r.id != id.value)
    ensures forall profile :: Resolve(list, provider, sub, id, Some(profile)) == Err(ProfileUnresolved)
  {
    if id.Some? && id.value != "" {
      FindSpec(list, WithId(id.value));
      assert forall i :: 0 <= i < |list| ==> list[i] in list;
    }
  }

  /** Position `i` holds the user's own connection for the provider. */
  predicate OwnRow(list: seq<Record>, provider: string, sub: string, i: int) {
    && 0 <= i < |list| && list[i].provider == provider
    && list[i].level.UserOauth? && list[i].createdBy == Some(sub)
  }

  /** Position `i` holds a workspace credential for the provider. */
  predicate SharedRow(list: seq<Record>, provider: string, i: int) {
    0 <= i < |list| && list[i].provider == provider && !list[i].level.UserOauth?
  }

  /**
   * Without a pin: the user's own connection, the first listed; else the first workspace
   * credential; else an error if the provider has any record, and nothing if it has none.
   */
  lemma UnpinnedExact(list: seq<Record>, provider: string, sub: string, id: Option<string>, i: int)
    requires id == None || id == Some("")
    ensures var out := Resolve(list, provider, sub, id, None);
            var owns := exists k :: OwnRow(list, provider, sub, k);
            var shares := exists k :: SharedRow(list, provider, k);
            && (OwnRow(list, provider, sub, i) && (forall k :: k < i ==> !OwnRow(list, provider, sub, k)) ==>
                 out == Ok(Some(Resolved(list[i].id, UserOauth, Some(sub), list[i].payload))))
            && (!owns && SharedRow(list, provider, i) && (forall k :: k < i ==> !SharedRow(list, provider, k)) ==>
                 out == Ok(Some(Resolved(list[i].id, list[i].level, None, list[i].payload))))
            && (out == Err(NotConnected) <==> !owns && !shares && exists r :: r in list && r.provider == provider)
            && (out == Ok(None) <==> forall r :: r in list ==> r.provider != provider)
  {
    UnpinnedByFind(list, provider, sub);
    OwnSearch(list, provider, sub);
    SharedSearch(list, provider);
    FindSpec(list, Of(provider));
    assert forall k :: 0 <= k < |list| ==> list[k] in list;
  }

  lemma OwnSearch(list: seq<Record>, provider: string, sub: string)
    ensures var found := Find(list, OwnAt(provider, sub));
            && (found.None? <==> forall k :: !OwnRow(list, provider, sub, k))
            && (found.Some? ==> exists k :: OwnRow(list, provider, sub, k) && list[k] == found.value)
            && forall i :: OwnRow(list, provider, sub, i) && (forall k :: k < i ==> !OwnRow(list, provider, sub, k)) ==>
                 found == Some(list[i])
  {
    FindSpec(list, OwnAt(provider, sub));
    if Find(list, OwnAt(provider, sub)).Some? {
      var j := FindIsFirst(list, OwnAt(provider, sub));
      assert OwnRow(list, provider, sub, j);
    }
  }

  lemma SharedSearch(list: seq<Record>, provider: string)
    ensures var found := Find(list, SharedAt(provider));
            && (found.None? <==> forall k :: !SharedRow(list, provider, k))
            && (found.Some? ==> exists k :: SharedRow(list, provider, k) && list[k] == found.value)
            && forall i :: SharedRow(list, provider, i) && (forall k :: k < i ==> !SharedRow(list, provider, k)) ==>
                 found == Some(list[i])
  {
    FindSpec(list, SharedAt(provider));
    if Find(list, SharedAt(provider)).Some? {
      var j := FindIsFirst(list, SharedAt(provider));
      assert SharedRow(list, provider, j);
    }
  }

  /** The workspace-only resolver answers the first workspace credential, and never an owner. */
  lemma WorkspaceOnlyExact(list: seq<Record>, provider: string, i: int)
    ensures var out := WorkspaceOnly(list, provider);
            && (out.None? <==> forall k :: !SharedRow(list, provider, k))
            && (SharedRow(list, provider, i) && (forall k :: k < i ==> !SharedRow(list, provider, k)) ==>
                 out == Some(Resolved(list[i].id, list[i].level, None, list[i].payload)))
  {
    SharedSearch(list, provider);
    FilterSpec(list, SharedAt(provider));
  }

  /**
   * Other users' connections are invisible: removing them all changes an unpinned
   * answer only in telling "not connected" from "nothing there", and that exactly
   * when they are all the provider has.
   */
  lemma ForeignRowsInvisible(list: seq<Record>, provider: string, sub: string)
    ensures var all, seen := Unpinned(list, provider, sub), Unpinned(Filter(list, VisibleTo(sub)), provider, sub);
            if && (exists i :: 0 <= i < |list| && list[i].provider == provider)
               && (forall i :: 0 <= i < |list| && list[i].provider == provider ==> Foreign(list[i], sub))
            then all == Err(NotConnected) && seen == Ok(None)
            else all == seen && all.Ok?
  {
    var visible := Filter(list, VisibleTo(sub));
    UnpinnedByFind(list, provider, sub);
    UnpinnedByFind(visible, provider, sub);
    VisibleSearches(list, provider, sub);
    if Find(list, OwnAt(provider, sub)).None? && Find(list, SharedAt(provider)).None? {
      OnlyForeign(list, provider, sub);
      FindSpec(list, Of(provider));
    } else {
      SomeUsable(list, provider, sub);
    }
  }

  /** Hiding foreign rows hides nothing a user may be given. */
  lemma VisibleSearches(list: seq<Record>, provider: string, sub: string)
    ensures var visible := Filter(list, VisibleTo(sub));
            && Find(visible, OwnAt(provider, sub)) == Find(list, OwnAt(provider, sub))
            && Find(visible, SharedAt(provider)) == Find(list, SharedAt(provider))
  {
    FindInFilter(list, VisibleTo(sub), OwnAt(provider, sub), OwnAt(provider, sub));
    FindInFilter(list, VisibleTo(sub), SharedAt(provider), SharedAt(provider));
  }

  lemma OnlyForeign(list: seq<Record>, provider: string, sub: string)
    requires Find(list, OwnAt(provider, sub)).None? && Find(list, SharedAt(provider)).None?
    ensures forall i :: 0 <= i < |list| && list[i].provider == provider ==> Foreign(list[i], sub)
    ensures Find(Filter(list, VisibleTo(sub)), Of(provider)).None?
  {
    FindSpec(list, OwnAt(provider, sub));
    FindSpec(list, SharedAt(provider));
    var visible := Filter(list, VisibleTo(sub));
    forall i | 0 <= i < |list| && list[i].provider == provider ensures Foreign(list[i], sub)
    {
      assert !Matches(OwnAt(provider, sub), list[i]) && !Matches(SharedAt(provider), list[i]);
    }
    forall i | 0 <= i < |visible| ensures !Matches(Of(provider), visible[i])
    {
      FilterMembers(list, VisibleTo(sub), visible[i]);
    }
    FindSpec(visible, Of(provider));
  }

  lemma SomeUsable(list: seq<Record>, provider: string, sub: string)
    requires Find(list, OwnAt(provider, sub)).Some? || Find(list, SharedAt(provider)).Some?
    ensures exists i :: 0 <= i < |list| && list[i].provider == provider && !Foreign(list[i], sub)
  {
    FindSpec(list, OwnAt(provider, sub));
    FindSpec(list, SharedAt(provider));
    var r := if Find(list, OwnAt(provider, sub)).Some? then Find(list, OwnAt(provider, sub)).value
             else Find(list, SharedAt(provider)).value;
    var i :| 0 <= i < |list| && list[i] == r;
  }

  lemma {:induction false} FilterMembers(rows: seq<Record>, q: Query, r: Record)
    ensures r in Filter(rows, q) <==> r in rows && Matches(q, r)
    decreases |rows|
  {
    if rows != [] {
      FilterMembers(rows[1..], q, r);
    }
  }

  /**
   * The invoker-less resolver answers as for a user without a connection, except that it never
   * reports "not connected".
   */
  lemma WorkspaceResolverIsStranger(list: seq<Record>, provider: string, sub: string)
    requires forall i :: 0 <= i < |list| && list[i].provider == provider ==> !Own(list[i], sub)
    ensures var out := WorkspaceOnly(list, provider);
            && (out.Some? ==> out.value.owner.None? && Unpinned(list, provider, sub) == Ok(out))
            && (out.None? ==>
                 Unpinned(list, provider, sub) == Ok(None) || Unpinned(list, provider, sub) == Err(NotConnected))
  {
    UnpinnedByFind(list, provider, sub);
    FilterSpec(list, SharedAt(provider));
    FindSpec(list, SharedAt(provider));
    FindSpec(list, OwnAt(provider, sub));
  }

  // ----- Which workspace credential comes first -----

  /** The found record precedes every other match. */
  lemma {:induction false} FindIsFirst(rows: seq<Record>, q: Query) returns (i: nat)
    requires Find(rows, q).Some?
    ensures i < |rows| && rows[i] == Find(rows, q).value
    ensures forall j :: 0 <= j < i ==> !Matches(q, rows[j])
    decreases |rows|
  {
    if Matches(q, rows[0]) {
      i := 0;
    } else {
      var k := FindIsFirst(rows[1..], q);
      i := k + 1;
      assert forall j :: 0 < j < i ==> rows[j] == rows[1..][j - 1];
    }
  }

  /** Within each provider, earlier rows were not created later. */
  predicate ByCreation(list: seq<Record>) {
    forall i, j :: 0 <= i < j < |list| && list[i].provider == list[j].provider ==>
      !Less(list[j].createdAt, list[i].createdAt)
  }

  /** Over a listing in creation order the workspace credential picked is one of the oldest. */
  lemma CreationOrderPicksOldest(list: seq<Record>, provider: string, other: Record)
    requires ByCreation(list) && other in list && Matches(SharedAt(provider), other)
    ensures var r := Find(list, SharedAt(provider)); r.Some? && !Less(other.createdAt, r.value.createdAt)
  {
    FindSpec(list, SharedAt(provider));
    var i := FindIsFirst(list, SharedAt(provider));
    var j :| 0 <= j < |list| && list[j] == other;
    LessIrreflexive(other.createdAt);
  }

  function RecordKeys(t: Table): set<string> {
    set sk | sk in t && "CRED#" <= sk && t[sk].RecordItem?
  }

  /** What the query of the single table returns: its records in the order of their keys. */
  ghost function Listing(t: Table): seq<Record> {
    var keys := Sorted(RecordKeys(t));
    seq(|keys|, i requires 0 <= i < |keys| => assert keys[i] in RecordKeys(t); t[keys[i]].record)
  }

  lemma {:induction false} LessAfter(head: string, a: string, b: string)
    ensures Less(head + a, head + b) <==> Less(a, b)
    decreases |head|
  {
    if head == "" {
      assert head + a == a && head + b == b;
    } else {
      LessAfter(head[1..], a, b);
      assert (head + a)[1..] == head[1..] + a && (head + b)[1..] == head[1..] + b;
    }
  }

  /** The table lists exactly the records, and those of one provider by ascending id. */
  lemma TableListsById(t: Table, m: Flat)
    requires Represents(t, m)
    ensures var list := Listing(t);
            && (forall r :: r in list <==> r in m.Values)
            && (forall i, j :: 0 <= i < j < |list| && list[i].provider == list[j].provider ==>
                 Less(list[i].id, list[j].id))
  {
    var list, keys := Listing(t), Sorted(RecordKeys(t));
    SortedAscends(RecordKeys(t));
    ListIsFlat(t, m);
    forall r ensures r in list <==> r in List(t)
    {
      if r in List(t) {
        var sk :| sk in t && "CRED#" <= sk && t[sk].RecordItem? && t[sk].record == r;
        assert sk in keys;
        var i :| 0 <= i < |keys| && keys[i] == sk;
        assert list[i] == r;
      }
      if r in list {
        var i :| 0 <= i < |list| && list[i] == r;
        assert keys[i] in RecordKeys(t);
      }
    }
    forall i, j | 0 <= i < j < |list| && list[i].provider == list[j].provider ensures Less(list[i].id, list[j].id)
    {
      assert keys[i] in RecordKeys(t) && keys[j] in RecordKeys(t);
      assert RowOwned(t, m, keys[i]) && RowOwned(t, m, keys[j]);
      LessAfter("CRED#" + list[i].provider + "#", list[i].id, list[j].id);
    }
  }

  /** Within each provider, records with later ids were not created earlier. */
  predicate IdsFollowTimes(m: Flat) {
    forall a, b :: a in m && b in m && m[a].provider == m[b].provider && Less(a, b) ==>
      !Less(m[b].createdAt, m[a].createdAt)
  }

  /**
   * Such a listing is in creation order exactly when, within each provider, the drawn ids
   * ascend with the times of creation.
   */
  lemma TableOrderIsCreation(t: Table, m: Flat)
    requires Represents(t, m)
    ensures ByCreation(Listing(t)) <==> IdsFollowTimes(m)
  {
    if ByCreation(Listing(t)) {
      forall a, b | a in m && b in m && m[a].provider == m[b].provider && Less(a, b)
        ensures !Less(m[b].createdAt, m[a].createdAt)
      {
        ListedInOrder(t, m, a, b);
      }
    }
    if IdsFollowTimes(m) {
      ListedByTime(t, m);
    }
  }

  lemma ListedByTime(t: Table, m: Flat)
    requires Represents(t, m) && IdsFollowTimes(m)
    ensures ByCreation(Listing(t))
  {
    var list := Listing(t);
    TableListsById(t, m);
    forall i, j | 0 <= i < j < |list| && list[i].provider == list[j].provider
      ensures !Less(list[j].createdAt, list[i].createdAt)
    {
      assert list[i] in m.Values && list[j] in m.Values;
      assert m[list[i].id] == list[i] && m[list[j].id] == list[j];
    }
  }

  lemma ListedInOrder(t: Table, m: Flat, a: string, b: string)
    requires Represents(t, m) && ByCreation(Listing(t)) && a in m && b in m
    requires m[a].provider == m[b].provider && Less(a, b)
    ensures !Less(m[b].createdAt, m[a].createdAt)
  {
    var i := PositionOf(t, m, a);
    var j := PositionOf(t, m, b);
    if j < i {
      IdsAscend(t, m, j, i);
      LessTransitive(a, b, a);
    }
    LessIrreflexive(a);
  }

  lemma IdsAscend(t: Table, m: Flat, i: nat, j: nat)
    requires Represents(t, m) && i < j < |Listing(t)| && Listing(t)[i].provider == Listing(t)[j].provider
    ensures Less(Listing(t)[i].id, Listing(t)[j].id)
  {
    TableListsById(t, m);
  }

  lemma PositionOf(t: Table, m: Flat, id: string) returns (i: nat)
    requires Represents(t, m) && id in m
    ensures i < |Listing(t)| && Listing(t)[i] == m[id] && m[id].id == id
  {
    TableListsById(t, m);
    assert m[id] in Listing(t);
    i :| i < |Listing(t)| && Listing(t)[i] == m[id];
  }

  function Storing(provider: string, id: string, now: string): Op {
    Creating(Input(provider, None, BearerToken, "", None, Some("workspace-token")), WorkspaceToken, id, now)
  }

  /** Two creates after which the newer credential is listed, and picked, before the older. */
  lemma NewerListedFirst(provider: string)
    ensures var ops := [Storing(provider, "1", "1"), Storing(provider, "0", "2")];
            var t := TableRun(map[], ops);
            && AllLegal(ops) && !ByCreation(Listing(t))
            && var found := Find(Listing(t), SharedAt(provider)); found.Some? && found.value.createdAt == "2"
  {
    var a, b := Storing(provider, "1", "1"), Storing(provider, "0", "2");
    StoringIsLegal(provider, "1", "1");
    StoringIsLegal(provider, "0", "2");
    RunRefines(map[], map[], [a, b], {provider});
    var older, newer := NewRecord(a.input, WorkspaceToken, "1", "1"), NewRecord(b.input, WorkspaceToken, "0", "2");
    TwoStored(a, b, older, newer);
    NewerComesFirst(TableRun(map[], [a, b]), provider, older, newer);
  }

  lemma NewerComesFirst(t: Table, provider: string, older: Record, newer: Record)
    requires Represents(t, map[older.id := older, newer.id := newer]) && older.id != newer.id
    requires Matches(SharedAt(provider), older) && Matches(SharedAt(provider), newer)
    requires Less(newer.id, older.id) && Less(older.createdAt, newer.createdAt)
    ensures !ByCreation(Listing(t)) && Find(Listing(t), SharedAt(provider)) == Some(newer)
  {
    var m := map[older.id := older, newer.id := newer];
    assert m[older.id] == older && m[newer.id] == newer;
    assert forall s :: s in m.Values <==> s == older || s == newer;
    TableOrderIsCreation(t, m);
    TablePicksLeastId(t, m, provider, newer);
  }

  lemma StoringIsLegal(provider: string, id: string, now: string)
    requires Plain(id)
    ensures Legal(Storing(provider, id, now))
  {
    var d := (kind: CredentialType) => WorkspaceToken;
    assert CreateLevel(Storing(provider, id, now).input, d) == Ok(WorkspaceToken);
  }

  lemma TwoStored(a: Op, b: Op, older: Record, newer: Record)
    requires a.Creating? && b.Creating? && a.level == WorkspaceToken && b.level == WorkspaceToken && a.id != b.id
    requires older == NewRecord(a.input, a.level, a.id, a.now) && newer == NewRecord(b.input, b.level, b.id, b.now)
    ensures FlatRun(map[], [a, b]) == map[a.id := older, b.id := newer]
  {
    assert [a, b][1..] == [b] && [b][1..] == [];
    var m1 := FlatStep(map[], a);
    assert FlatRun(m1, [b]) == FlatRun(FlatStep(m1, b), []);
  }

  /** The workspace credential picked over the single table is the one with the least id, and no other. */
  lemma TablePicksLeastId(t: Table, m: Flat, provider: string, r: Record)
    requires Represents(t, m)
    ensures Find(Listing(t), SharedAt(provider)) == Some(r) <==>
              && r in m.Values && Matches(SharedAt(provider), r)
              && forall s :: s in m.Values && Matches(SharedAt(provider), s) ==> s == r || Less(r.id, s.id)
  {
    var list, q := Listing(t), SharedAt(provider);
    TableListsById(t, m);
    FindSpec(list, q);
    var found := Find(list, q);
    if found.Some? {
      FoundIsLeast(t, m, provider);
      if r in m.Values && Matches(q, r) && r != found.value && Less(r.id, found.value.id) {
        LessTransitive(r.id, found.value.id, r.id);
        LessIrreflexive(r.id);
      }
    }
  }

  lemma FoundIsLeast(t: Table, m: Flat, provider: string)
    requires Represents(t, m) && Find(Listing(t), SharedAt(provider)).Some?
    ensures var r := Find(Listing(t), SharedAt(provider)).value;
            forall s :: s in m.Values && Matches(SharedAt(provider), s) ==> s == r || Less(r.id, s.id)
  {
    var list, q := Listing(t), SharedAt(provider);
    TableListsById(t, m);
    FindSpec(list, q);
    var i := FindIsFirst(list, q);
    forall s | s in m.Values && Matches(q, s) ensures s == list[i] || Less(list[i].id, s.id)
    {
      var j :| 0 <= j < |list| && list[j] == s;
    }
  }
}
