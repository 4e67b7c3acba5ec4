/**
 * The single-table credential store (server/workspace/src/credentials.ts,
 * CredentialStoreDynamodb): a record row and up to two pointer rows per credential,
 * against a flat map from credential id to record.  One workspace's partition; a
 * transaction applies completely or not at all.
 */
module Credentials {
  import opened Common

  datatype CredentialType = BearerToken | ApiKey | OAuth2Client | OAuth2AuthCode
  datatype Level = WorkspaceToken | WorkspaceOauth | UserOauth

  datatype Record = Record(
    id: string, provider: string, title: Option<string>, kind: CredentialType, level: Level,
    createdBy: Option<string>, payload: string, createdAt: string, updatedAt: string)

  datatype Input = Input(
    provider: string, title: Option<string>, kind: CredentialType, payload: string,
    createdBy: Option<string>, level: Option<string>)

  datatype Error = InvalidLevel | Incompatible | OwnerRequired | AlreadyConnected | IdCollision

  // ----- Levels -----

  function ParseLevel(s: string): Option<Level> {
    if s == "workspace-token" then Some(WorkspaceToken)
    else if s == "workspace-oauth" then Some(WorkspaceOauth)
    else if s == "user-oauth" then Some(UserOauth)
    else None
  }

  predicate Compatible(level: Level, kind: CredentialType) {
    match level
    case WorkspaceToken => kind.BearerToken? || kind.ApiKey?
    case WorkspaceOauth => kind.OAuth2Client? || kind.OAuth2AuthCode?
    case UserOauth => kind.OAuth2AuthCode?
  }

  predicate HasOwner(createdBy: Option<string>) {
    createdBy.Some? && createdBy.value != ""
  }

  /** `resolveCreateLevel`; the default level of a payload type is the registry's choice. */
  function CreateLevel(input: Input, defaultLevel: CredentialType -> Level): Result<Level, Error> {
    var level := if input.level.None? then Some(defaultLevel(input.kind)) else ParseLevel(input.level.value);
    if level.None? then Err(InvalidLevel)
    else if !Compatible(level.value, input.kind) then Err(Incompatible)
    else if level.value == UserOauth && !HasOwner(input.createdBy) then Err(OwnerRequired)
    else Ok(level.value)
  }

  // ----- Sort keys -----

  function CredKey(provider: string, id: string): string {
    "CRED#" + provider + "#" + id
  }

  function IdKey(id: string): string {
    "CREDID#" + id
  }

  function OauthKey(provider: string, owner: string): string {
    "USEROAUTH#" + provider + "#" + owner
  }

  /** Record ids are 24 hexadecimal digits; all the store relies on is that they carry no '#'. */
  predicate Plain(id: string) {
    '#' !in id
  }

  /** `q` continues `p` past a '#'. */
  predicate Extends(q: string, p: string) {
    p + "#" <= q
  }

  /** What follows the last '#' is recovered from a joined text, and so is what precedes it. */
  lemma SplitAtLastHash(p: string, x: string, q: string, y: string)
    requires Plain(x) && Plain(y) && p + "#" + x == q + "#" + y
    ensures p == q && x == y
  {
    var l, r := p + "#" + x, q + "#" + y;
    assert l[|p|] == '#' && r[|q|] == '#';
    assert forall i :: |q| < i < |r| ==> r[i] in y;
    assert forall i :: |p| < i < |l| ==> l[i] in x;
    assert p == l[..|p|] && q == r[..|q|] && x == l[|p| + 1..] && y == r[|q| + 1..];
  }

  /** Record keys of different providers or ids are different, whatever the providers contain. */
  lemma CredKeyInjective(p: string, x: string, q: string, y: string)
    requires Plain(x) && Plain(y)
    ensures CredKey(p, x) == CredKey(q, y) <==> p == q && x == y
  {
    if CredKey(p, x) == CredKey(q, y) {
      assert CredKey(p, x)[5..] == p + "#" + x && CredKey(q, y)[5..] == q + "#" + y;
      SplitAtLastHash(p, x, q, y);
    }
  }

  lemma OauthKeysMeet(p: string, x: string, q: string, y: string)
    requires OauthKey(p, x) == OauthKey(q, y)
    ensures (p == q && x == y) || Extends(p, q) || Extends(q, p)
  {
    var l, r := OauthKey(p, x)[10..], OauthKey(q, y)[10..];
    assert l == p + "#" + x && r == q + "#" + y;
    assert p + "#" == l[..|p| + 1] && q + "#" == r[..|q| + 1];
    assert x == l[|p| + 1..] && y == r[|q| + 1..];
    if |p| < |q| {
      assert q == r[..|q|];
    } else if |q| < |p| {
      assert p == l[..|p|];
    } else {
      assert p == l[..|p|] && q == r[..|q|];
    }
  }

  lemma ExtensionMeets(p: string, q: string, y: string) returns (x: string)
    requires Extends(q, p)
    ensures x != "" && OauthKey(p, x) == OauthKey(q, y)
  {
    x := q[|p| + 1..] + "#" + y;
    assert q == p + "#" + q[|p| + 1..];
    assert OauthKey(q, y) == "USEROAUTH#" + (p + "#" + q[|p| + 1..]) + "#" + y;
    assert OauthKey(p, x) == "USEROAUTH#" + p + "#" + (q[|p| + 1..] + "#" + y);
  }

  /**
   * Pointer keys of user connections: one provider keeps its owners apart, and two
   * providers can meet exactly when one extends the other.
   */
  lemma OauthKeysExact(p: string, q: string)
    ensures p != q ==> ((exists x, y :: OauthKey(p, x) == OauthKey(q, y)) <==> Extends(p, q) || Extends(q, p))
    ensures forall x, y :: OauthKey(p, x) == OauthKey(p, y) <==> x == y
  {
    forall x, y | OauthKey(p, x) == OauthKey(q, y) ensures (p == q && x == y) || Extends(p, q) || Extends(q, p)
    {
      OauthKeysMeet(p, x, q, y);
    }
    forall x, y | OauthKey(p, x) == OauthKey(p, y) ensures x == y
    {
      OauthKeysMeet(p, x, p, y);
    }
    if Extends(q, p) {
      var x := ExtensionMeets(p, q, "");
    }
    if Extends(p, q) {
      var y := ExtensionMeets(q, p, "");
      assert OauthKey(p, "") == OauthKey(q, y);
    }
  }

  lemma KindsDiffer(p: string, x: string, id: string, q: string, y: string)
    ensures CredKey(p, x) != IdKey(id) && CredKey(p, x) != OauthKey(q, y) && IdKey(id) != OauthKey(q, y)
  {
    assert CredKey(p, x)[4] == '#' && IdKey(id)[4] == 'I' && OauthKey(q, y)[4] == 'O';
  }

  lemma IdKeyInjective(a: string, b: string)
    requires IdKey(a) == IdKey(b)
    ensures a == b
  {
    assert IdKey(a)[7..] == a && IdKey(b)[7..] == b;
  }

  // ----- The table -----

  datatype Item = RecordItem(record: Record) | IdPointer(provider: string) | OauthPointer(credentialId: string)
  type Table = map<string, Item>

  function NewRecord(input: Input, level: Level, id: string, now: string): Record {
    Record(id, input.provider, input.title, input.kind, level, input.createdBy, input.payload, now, now)
  }

  function Create(t: Table, input: Input, level: Level, id: string, now: string): (Table, Result<Record, Error>) {
    var r := NewRecord(input, level, id, now);
    var owner := input.createdBy.GetOr("undefined");
    if level == UserOauth && OauthKey(input.provider, owner) in t then (t, Err(AlreadyConnected))
    else if CredKey(input.provider, id) in t || IdKey(id) in t then (t, Err(IdCollision))
    else
      var two := t[CredKey(input.provider, id) := RecordItem(r)][IdKey(id) := IdPointer(input.provider)];
      (if level == UserOauth then two[OauthKey(input.provider, owner) := OauthPointer(id)] else two, Ok(r))
  }

  function ProviderOf(t: Table, id: string): Option<string> {
    if IdKey(id) in t && t[IdKey(id)].IdPointer? then Some(t[IdKey(id)].provider) else None
  }

  /** `get`, `getPayload` and `resolveRecordById` all read the pointer and then the record. */
  function Lookup(t: Table, id: string): Option<Record> {
    var p := ProviderOf(t, id);
    if p.None? then None
    else if CredKey(p.value, id) in t && t[CredKey(p.value, id)].RecordItem? then Some(t[CredKey(p.value, id)].record)
    else None
  }

  function List(t: Table): set<Record> {
    set sk | sk in t && "CRED#" <= sk && t[sk].RecordItem? :: t[sk].record
  }

  function ForProvider(t: Table, provider: string): set<Record> {
    set sk | sk in t && "CRED#" + provider + "#" <= sk && t[sk].RecordItem? :: t[sk].record
  }

  function Delete(t: Table, id: string): (Table, bool) {
    var p := ProviderOf(t, id);
    if p.None? then (t, false)
    else
      var r := Lookup(t, id);
      var two := t - {CredKey(p.value, id), IdKey(id)};
      (if r.Some? && r.value.level == UserOauth && r.value.createdBy.Some?
       then two - {OauthKey(p.value, r.value.createdBy.value)} else two, true)
  }

  function UpdatePayload(t: Table, id: string, payload: string, now: string): Table {
    var p, r := ProviderOf(t, id), Lookup(t, id);
    if p.None? || r.None? then t
    else t[CredKey(p.value, id) := RecordItem(r.value.(payload := payload, updatedAt := now))]
  }

  // ----- The flat map -----

  type Flat = map<string, Record>

  predicate Connected(m: Flat, provider: string, owner: string) {
    exists id :: id in m && m[id].level == UserOauth && m[id].provider == provider && m[id].createdBy == Some(owner)
  }

  /** Some connection already has the pointer key of this one. */
  predicate Claimed(m: Flat, provider: string, owner: string) {
    exists id :: id in m && m[id].level == UserOauth && m[id].createdBy.Some?
                 && OauthKey(m[id].provider, m[id].createdBy.value) == OauthKey(provider, owner)
  }

  /** A connection of another provider and owner has the pointer key this one needs. */
  predicate Clash(m: Flat, input: Input, level: Level) {
    var owner := input.createdBy.GetOr("undefined");
    level == UserOauth && Claimed(m, input.provider, owner) && !Connected(m, input.provider, owner)
  }

  function FlatCreate(m: Flat, input: Input, level: Level, id: string, now: string): (Flat, Result<Record, Error>) {
    var r := NewRecord(input, level, id, now);
    var owner := input.createdBy.GetOr("undefined");
    if level == UserOauth && Connected(m, input.provider, owner) then (m, Err(AlreadyConnected))
    else if id in m then (m, Err(IdCollision))
    else (m[id := r], Ok(r))
  }

  function FlatDelete(m: Flat, id: string): (Flat, bool) {
    (m - {id}, id in m)
  }

  function FlatUpdate(m: Flat, id: string, payload: string, now: string): Flat {
    if id in m then m[id := m[id].(payload := payload, updatedAt := now)] else m
  }

  // ----- The table represents the map -----

  /** The rows of one record. */
  predicate RowsPresent(t: Table, r: Record) {
    && Plain(r.id)
    && (r.level == UserOauth ==> r.createdBy.Some?)
    && CredKey(r.provider, r.id) in t && t[CredKey(r.provider, r.id)] == RecordItem(r)
    && IdKey(r.id) in t && t[IdKey(r.id)] == IdPointer(r.provider)
    && (r.level == UserOauth ==>
          && OauthKey(r.provider, r.createdBy.value) in t
          && t[OauthKey(r.provider, r.createdBy.value)] == OauthPointer(r.id))
  }

  /** A row belongs to a record of the map and points at it. */
  predicate RowOwned(t: Table, m: Flat, sk: string)
    requires sk in t
  {
    match t[sk]
    case RecordItem(r) => r.id in m && m[r.id] == r && sk == CredKey(r.provider, r.id)
    case IdPointer(p) => "CREDID#" <= sk && sk[7..] in m && m[sk[7..]].provider == p
    case OauthPointer(id) =>
      && id in m && m[id].level == UserOauth && m[id].createdBy.Some?
      && sk == OauthKey(m[id].provider, m[id].createdBy.value)
  }

  predicate Represents(t: Table, m: Flat) {
    && (forall id :: id in m ==> m[id].id == id && RowsPresent(t, m[id]))
    && (forall sk :: sk in t ==> RowOwned(t, m, sk))
  }

  /** No dangling rows: every key of the table is one of the keys its records call for. */
  lemma NoDanglingRows(t: Table, m: Flat, sk: string)
    requires Represents(t, m) && sk in t
    ensures exists id :: id in m && (
                           || sk == CredKey(m[id].provider, id)
                           || sk == IdKey(id)
                           || (m[id].level == UserOauth && sk == OauthKey(m[id].provider, m[id].createdBy.GetOr(""))))
  {
    assert RowOwned(t, m, sk);
    match t[sk]
    case RecordItem(r) => assert r.id in m;
    case IdPointer(p) =>
      assert sk == "CREDID#" + sk[7..];
      assert sk == IdKey(sk[7..]);
    case OauthPointer(id) => assert id in m;
  }

  /** At most one user connection per provider and owner. */
  lemma OneConnectionPerOwner(t: Table, m: Flat, a: string, b: string)
    requires Represents(t, m) && a in m && b in m
    requires m[a].level == UserOauth && m[b].level == UserOauth
    requires m[a].provider == m[b].provider && m[a].createdBy == m[b].createdBy
    ensures a == b
  {
    assert RowsPresent(t, m[a]) && RowsPresent(t, m[b]);
  }

  lemma LookupIsFlat(t: Table, m: Flat, id: string)
    requires Represents(t, m)
    ensures Lookup(t, id) == Get(m, id) && (ProviderOf(t, id).Some? <==> id in m)
  {
    assert IdKey(id)[7..] == id;
    if id in m {
      assert RowsPresent(t, m[id]);
    } else if IdKey(id) in t {
      assert RowOwned(t, m, IdKey(id));
    }
  }

  lemma ListIsFlat(t: Table, m: Flat)
    requires Represents(t, m)
    ensures List(t) == m.Values
  {
    forall r ensures r in List(t) <==> r in m.Values
    {
      if r in List(t) {
        var sk :| sk in t && "CRED#" <= sk && t[sk].RecordItem? && t[sk].record == r;
        assert RowOwned(t, m, sk);
      }
      if r in m.Values {
        var id :| id in m && m[id] == r;
        assert RowsPresent(t, m[id]);
        assert "CRED#" <= CredKey(r.provider, r.id);
      }
    }
  }

  /** The provider query returns the records of that provider and of those that extend it. */
  lemma ForProviderFinds(t: Table, m: Flat, provider: string)
    requires Represents(t, m)
    ensures forall r :: r in ForProvider(t, provider) <==>
                        r.id in m && m[r.id] == r && (r.provider == provider || Extends(r.provider, provider))
  {
    forall r | r in ForProvider(t, provider)
      ensures r.id in m && m[r.id] == r && (r.provider == provider || Extends(r.provider, provider))
    {
      var sk :| sk in t && "CRED#" + provider + "#" <= sk && t[sk].RecordItem? && t[sk].record == r;
      assert RowOwned(t, m, sk) && RowsPresent(t, m[r.id]);
      MatchExact(r, provider);
    }
    forall id | id in m && (m[id].provider == provider || Extends(m[id].provider, provider))
      ensures m[id] in ForProvider(t, provider)
    {
      assert RowsPresent(t, m[id]);
      MatchExact(m[id], provider);
    }
  }

  lemma MatchExact(r: Record, provider: string)
    requires Plain(r.id)
    ensures "CRED#" + provider + "#" <= CredKey(r.provider, r.id)
        <==> r.provider == provider || Extends(r.provider, provider)
  {
    var head, sk := "CRED#" + provider + "#", CredKey(r.provider, r.id);
    assert head[5..] == provider + "#" && sk[5..] == r.provider + "#" + r.id;
    assert sk == "CRED#" + sk[5..] && head == "CRED#" + head[5..];
    if head <= sk {
      assert head[5..] <= sk[5..];
      ProviderCut(r.provider, r.id, provider);
    }
    if Extends(r.provider, provider) {
      assert provider + "#" == r.provider[..|provider| + 1] == sk[5..][..|provider| + 1];
    }
  }

  lemma ProviderCut(p: string, id: string, provider: string)
    requires Plain(id) && provider + "#" <= p + "#" + id
    ensures p == provider || Extends(p, provider)
  {
    var l, r := provider + "#", p + "#" + id;
    assert l == r[..|provider| + 1] && l[|provider|] == '#';
    assert forall i :: |p| < i < |r| ==> r[i] in id;
    if |provider| < |p| {
      assert l == p[..|provider| + 1];
    } else {
      assert |provider| == |p|;
      assert provider == r[..|provider|] == p;
    }
  }

  /** It answers for the provider alone exactly when no stored provider extends it. */
  lemma ForProviderExact(t: Table, m: Flat, provider: string)
    requires Represents(t, m)
    ensures ForProvider(t, provider) == (set id | id in m && m[id].provider == provider :: m[id])
            <==> forall id :: id in m ==> !Extends(m[id].provider, provider)
  {
    ForProviderFinds(t, m, provider);
    var flat := set id | id in m && m[id].provider == provider :: m[id];
    if forall id :: id in m ==> !Extends(m[id].provider, provider) {
      forall r ensures r in ForProvider(t, provider) <==> r in flat
      {
        assert r in ForProvider(t, provider) <==> r.id in m && m[r.id] == r && r.provider == provider;
      }
    } else {
      var id :| id in m && Extends(m[id].provider, provider);
      assert RowsPresent(t, m[id]) && m[id].id == id;
      assert m[id] in ForProvider(t, provider) && m[id] !in flat;
    }
  }

  // ----- Every operation refines its flat counterpart -----

  /** Keys of different records never meet. */
  lemma KeysApart(r: Record, s: Record)
    requires Plain(r.id) && Plain(s.id) && r.id != s.id
    ensures CredKey(r.provider, r.id) != CredKey(s.provider, s.id) && IdKey(r.id) != IdKey(s.id)
    ensures forall p, o :: CredKey(r.provider, r.id) != OauthKey(p, o) && IdKey(r.id) != OauthKey(p, o)
    ensures CredKey(r.provider, r.id) != IdKey(s.id) && CredKey(s.provider, s.id) != IdKey(r.id)
  {
    CredKeyInjective(r.provider, r.id, s.provider, s.id);
    if IdKey(r.id) == IdKey(s.id) {
      IdKeyInjective(r.id, s.id);
    }
    forall p, o ensures CredKey(r.provider, r.id) != OauthKey(p, o) && IdKey(r.id) != OauthKey(p, o)
    {
      KindsDiffer(r.provider, r.id, r.id, p, o);
    }
    KindsDiffer(r.provider, r.id, s.id, "", "");
    KindsDiffer(s.provider, s.id, r.id, "", "");
  }

  lemma PointerMeansClaimed(t: Table, m: Flat, provider: string, owner: string)
    requires Represents(t, m)
    ensures OauthKey(provider, owner) in t <==> Claimed(m, provider, owner)
    ensures Connected(m, provider, owner) ==> Claimed(m, provider, owner)
  {
    if OauthKey(provider, owner) in t {
      PointerIsOwned(t, m, provider, owner);
    }
    if Claimed(m, provider, owner) {
      ClaimHasPointer(t, m, provider, owner);
    }
  }

  lemma PointerIsOwned(t: Table, m: Flat, provider: string, owner: string)
    requires Represents(t, m) && OauthKey(provider, owner) in t
    ensures t[OauthKey(provider, owner)].OauthPointer? && Claimed(m, provider, owner)
  {
    var sk := OauthKey(provider, owner);
    assert RowOwned(t, m, sk);
    match t[sk]
    case RecordItem(r) => KindsDiffer(r.provider, r.id, "", provider, owner);
    case IdPointer(_) =>
      assert sk == IdKey(sk[7..]);
      KindsDiffer("", "", sk[7..], provider, owner);
    case OauthPointer(id) => assert id in m;
  }

  lemma ClaimHasPointer(t: Table, m: Flat, provider: string, owner: string)
    requires Represents(t, m) && Claimed(m, provider, owner)
    ensures OauthKey(provider, owner) in t
  {
    var id :| id in m && m[id].level == UserOauth && m[id].createdBy.Some?
              && OauthKey(m[id].provider, m[id].createdBy.value) == OauthKey(provider, owner);
    assert RowsPresent(t, m[id]);
  }

  /** A record row or an id pointer stands in the way of a new id exactly when the id is taken. */
  lemma CollisionMeansTaken(t: Table, m: Flat, provider: string, id: string)
    requires Represents(t, m) && Plain(id)
    ensures CredKey(provider, id) in t || IdKey(id) in t <==> id in m
  {
    LookupIsFlat(t, m, id);
    if id in m {
      assert RowsPresent(t, m[id]);
    }
    if CredKey(provider, id) in t {
      RecordRowIsTaken(t, m, provider, id);
    }
    if IdKey(id) in t {
      IdRowIsTaken(t, m, id);
    }
  }

  lemma RecordRowIsTaken(t: Table, m: Flat, provider: string, id: string)
    requires Represents(t, m) && Plain(id) && CredKey(provider, id) in t
    ensures id in m
  {
    var sk := CredKey(provider, id);
    assert RowOwned(t, m, sk);
    match t[sk]
    case RecordItem(r) =>
      assert RowsPresent(t, m[r.id]);
      CredKeyInjective(provider, id, r.provider, r.id);
    case IdPointer(_) =>
      assert sk == IdKey(sk[7..]);
      KindsDiffer(provider, id, sk[7..], "", "");
    case OauthPointer(c) =>
      KindsDiffer(provider, id, "", m[c].provider, m[c].createdBy.value);
  }

  lemma IdRowIsTaken(t: Table, m: Flat, id: string)
    requires Represents(t, m) && IdKey(id) in t
    ensures id in m
  {
    var sk := IdKey(id);
    assert RowOwned(t, m, sk);
    match t[sk]
    case RecordItem(r) => KindsDiffer(r.provider, r.id, id, "", "");
    case IdPointer(_) => assert sk[7..] == id;
    case OauthPointer(c) => KindsDiffer("", "", id, m[c].provider, m[c].createdBy.value);
  }

  /** `create` adds the record with all its rows, or changes nothing and says why, whatever the provider. */
  lemma CreateKeeps(t: Table, m: Flat, input: Input, level: Level, id: string, now: string)
    requires Represents(t, m) && Plain(id) && (level == UserOauth ==> input.createdBy.Some?)
    ensures var (t', out) := Create(t, input, level, id, now);
            var r := NewRecord(input, level, id, now);
            && Represents(t', if out.Ok? then m[id := r] else m)
            && out == if level == UserOauth && Claimed(m, input.provider, input.createdBy.GetOr("undefined"))
                      then Err(AlreadyConnected)
                      else if id in m then Err(IdCollision) else Ok(r)
  {
    PointerMeansClaimed(t, m, input.provider, input.createdBy.GetOr("undefined"));
    CollisionMeansTaken(t, m, input.provider, id);
    if Create(t, input, level, id, now).1.Ok? {
      CreateKeepsRows(t, m, NewRecord(input, level, id, now));
    }
  }

  /** `create` does to the table what it does to the map, with the same outcome, exactly when it meets no clash. */
  lemma CreateRefines(t: Table, m: Flat, input: Input, level: Level, id: string, now: string)
    requires Represents(t, m) && Plain(id) && (level == UserOauth ==> input.createdBy.Some?)
    ensures var (t', out) := Create(t, input, level, id, now);
            var (m', flatOut) := FlatCreate(m, input, level, id, now);
            Represents(t', m') && out == flatOut <==> !Clash(m, input, level)
  {
    CreateKeeps(t, m, input, level, id, now);
    PointerMeansClaimed(t, m, input.provider, input.createdBy.GetOr("undefined"));
  }

  function WithRows(t: Table, r: Record): Table {
    var two := t[CredKey(r.provider, r.id) := RecordItem(r)][IdKey(r.id) := IdPointer(r.provider)];
    if r.level == UserOauth then two[OauthKey(r.provider, r.createdBy.GetOr("undefined")) := OauthPointer(r.id)]
      else two
  }

  lemma CreateKeepsRows(t: Table, m: Flat, r: Record)
    requires Represents(t, m) && Plain(r.id) && (r.level == UserOauth ==> r.createdBy.Some?)
    requires r.id !in m && CredKey(r.provider, r.id) !in t && IdKey(r.id) !in t
    requires r.level == UserOauth ==> OauthKey(r.provider, r.createdBy.value) !in t
    ensures Represents(WithRows(t, r), m[r.id := r])
  {
    var t', m' := WithRows(t, r), m[r.id := r];
    KindsDiffer(r.provider, r.id, r.id, r.provider, r.createdBy.GetOr("undefined"));
    assert forall sk :: sk in t ==> sk in t' && t'[sk] == t[sk];
    forall id | id in m' ensures m'[id].id == id && RowsPresent(t', m'[id])
    {
      assert id != r.id ==> RowsPresent(t, m[id]);
    }
    forall sk | sk in t' ensures RowOwned(t', m', sk)
    {
      NewRowsOwned(t, m, r, sk);
    }
  }

  lemma NewRowsOwned(t: Table, m: Flat, r: Record, sk: string)
    requires Represents(t, m) && r.id !in m && sk in WithRows(t, r) && (r.level == UserOauth ==> r.createdBy.Some?)
    requires CredKey(r.provider, r.id) !in t && IdKey(r.id) !in t
    requires r.level == UserOauth ==> OauthKey(r.provider, r.createdBy.value) !in t
    ensures RowOwned(WithRows(t, r), m[r.id := r], sk)
  {
    assert IdKey(r.id)[7..] == r.id;
    KindsDiffer(r.provider, r.id, r.id, r.provider, r.createdBy.GetOr("undefined"));
    if sk in t {
      assert RowOwned(t, m, sk);
    }
  }

  /** `delete` removes a record with all its rows, and nothing else. */
  lemma DeleteRefines(t: Table, m: Flat, id: string)
    requires Represents(t, m)
    ensures var (t', gone) := Delete(t, id);
            var (m', flatGone) := FlatDelete(m, id);
            Represents(t', m') && gone == flatGone
  {
    LookupIsFlat(t, m, id);
    if id in m {
      var t' := Delete(t, id).0;
      assert RowsPresent(t, m[id]);
      assert t' == WithoutRows(t, m[id]);
      forall k | k in m - {id} ensures m[k].id == k && RowsPresent(t', m[k])
      {
        OthersKeepRows(t, m, id, k);
      }
      forall sk | sk in t' ensures RowOwned(t', m - {id}, sk)
      {
        LeftRowsOwned(t, m, id, sk);
      }
    } else {
      assert m - {id} == m;
    }
  }

  function WithoutRows(t: Table, r: Record): Table {
    var two := t - {CredKey(r.provider, r.id), IdKey(r.id)};
    if r.level == UserOauth && r.createdBy.Some? then two - {OauthKey(r.provider, r.createdBy.value)} else two
  }

  lemma OthersKeepRows(t: Table, m: Flat, id: string, k: string)
    requires Represents(t, m) && id in m && k in m && k != id
    ensures m[k].id == k && RowsPresent(WithoutRows(t, m[id]), m[k])
  {
    var r, other := m[id], m[k];
    assert RowsPresent(t, r) && RowsPresent(t, other);
    KeysApart(r, other);
    KeysApart(other, r);
  }

  lemma LeftRowsOwned(t: Table, m: Flat, id: string, sk: string)
    requires Represents(t, m) && id in m && sk in WithoutRows(t, m[id])
    ensures RowOwned(WithoutRows(t, m[id]), m - {id}, sk)
  {
    assert RowsPresent(t, m[id]) && RowOwned(t, m, sk);
    assert t[sk].IdPointer? ==> sk == IdKey(sk[7..]);
  }

  /** What no operation changes of a record. */
  predicate SameIdentity(a: Record, b: Record) {
    a.id == b.id && a.provider == b.provider && a.level == b.level && a.createdBy == b.createdBy
  }

  /** Putting a record row over one of the same identity changes that record alone. */
  lemma PutKeeps(t: Table, m: Flat, r: Record)
    requires Represents(t, m) && r.id in m && SameIdentity(m[r.id], r)
    ensures Represents(t[CredKey(r.provider, r.id) := RecordItem(r)], m[r.id := r])
  {
    var t', m' := t[CredKey(r.provider, r.id) := RecordItem(r)], m[r.id := r];
    assert RowsPresent(t, m[r.id]);
    forall k | k in m' ensures m'[k].id == k && RowsPresent(t', m'[k])
    {
      assert RowsPresent(t, m[k]);
      if k != r.id {
        KeysApart(r, m[k]);
      } else {
        KindsDiffer(r.provider, k, k, r.provider, r.createdBy.GetOr(""));
      }
    }
    forall sk | sk in t' && sk != CredKey(r.provider, r.id) ensures RowOwned(t', m', sk)
    {
      assert RowOwned(t, m, sk);
    }
  }

  /** `updatePayload` changes the payload and time of one record. */
  lemma UpdateRefines(t: Table, m: Flat, id: string, payload: string, now: string)
    requires Represents(t, m)
    ensures Represents(UpdatePayload(t, id, payload, now), FlatUpdate(m, id, payload, now))
  {
    LookupIsFlat(t, m, id);
    if id in m {
      PutKeeps(t, m, m[id].(payload := payload, updatedAt := now));
    }
  }

  // ----- Runs -----

  datatype Op =
    | Creating(input: Input, level: Level, id: string, now: string)
    | Deleting(target: string)
    | Updating(updated: string, payload: string, at: string)

  /** Levels come out of `CreateLevel`, and ids are drawn. */
  ghost predicate Legal(op: Op) {
    op.Creating? ==> Plain(op.id) && exists d: CredentialType -> Level :: CreateLevel(op.input, d) == Ok(op.level)
  }

  ghost predicate AllLegal(ops: seq<Op>) {
    forall i :: 0 <= i < |ops| ==> Legal(ops[i])
  }

  predicate OnlyFrom(ops: seq<Op>, providers: set<string>) {
    forall i :: 0 <= i < |ops| && ops[i].Creating? ==> ops[i].input.provider in providers
  }

  /** None of the providers extends another. */
  predicate AllApart(providers: set<string>) {
    forall p, q :: p in providers && q in providers ==> !Extends(p, q)
  }

  function TableStep(t: Table, op: Op): Table {
    match op
    case Creating(i, l, id, now) => Create(t, i, l, id, now).0
    case Deleting(id) => Delete(t, id).0
    case Updating(id, p, now) => UpdatePayload(t, id, p, now)
  }

  function FlatStep(m: Flat, op: Op): Flat {
    match op
    case Creating(i, l, id, now) => FlatCreate(m, i, l, id, now).0
    case Deleting(id) => FlatDelete(m, id).0
    case Updating(id, p, now) => FlatUpdate(m, id, p, now)
  }

  function TableRun(t: Table, ops: seq<Op>): Table
    decreases |ops|
  {
    if ops == [] then t else TableRun(TableStep(t, ops[0]), ops[1..])
  }

  function FlatRun(m: Flat, ops: seq<Op>): Flat
    decreases |ops|
  {
    if ops == [] then m else FlatRun(FlatStep(m, ops[0]), ops[1..])
  }

  /** What create-time validation promises of a record. */
  predicate ValidRecord(r: Record) {
    Compatible(r.level, r.kind) && (r.level == UserOauth ==> HasOwner(r.createdBy))
  }

  predicate AllValid(m: Flat) {
    forall id :: id in m ==> ValidRecord(m[id])
  }

  lemma StepKeeps(t: Table, m: Flat, op: Op) returns (m': Flat)
    requires Represents(t, m) && AllValid(m) && Legal(op)
    ensures Represents(TableStep(t, op), m') && AllValid(m')
  {
    match op {
      case Creating(i, l, id, now) =>
        LegalOwner(op);
        CreateKeeps(t, m, i, l, id, now);
        m' := if Create(t, i, l, id, now).1.Ok? then m[id := NewRecord(i, l, id, now)] else m;
      case Deleting(id) =>
        DeleteRefines(t, m, id);
        m' := FlatDelete(m, id).0;
      case Updating(id, p, now) =>
        UpdateRefines(t, m, id, p, now);
        m' := FlatUpdate(m, id, p, now);
    }
  }

  lemma {:induction false} RunKeeps(t: Table, m: Flat, ops: seq<Op>) returns (m': Flat)
    requires Represents(t, m) && AllValid(m) && AllLegal(ops)
    ensures Represents(TableRun(t, ops), m') && AllValid(m')
    decreases |ops|
  {
    if ops == [] {
      m' := m;
    } else {
      assert Legal(ops[0]);
      m' := StepKeeps(t, m, ops[0]);
      assert forall i :: 0 <= i < |ops[1..]| ==> ops[1..][i] == ops[i + 1];
      m' := RunKeeps(TableStep(t, ops[0]), m', ops[1..]);
    }
  }

  /**
   * After any run, whatever the providers: the table holds exactly the rows of some set of
   * records, every record listed has a level that fits its payload, and a user connection
   * an owner.
   */
  lemma RecordsAreConsistent(ops: seq<Op>) returns (m: Flat)
    requires AllLegal(ops)
    ensures var t := TableRun(map[], ops);
            && Represents(t, m)
            && List(t) == m.Values
            && (forall r :: r in List(t) && r.level.WorkspaceToken? ==> r.kind.BearerToken? || r.kind.ApiKey?)
            && (forall r :: r in List(t) && r.level.WorkspaceOauth? ==> r.kind.OAuth2Client? || r.kind.OAuth2AuthCode?)
            && (forall r :: r in List(t) && r.level.UserOauth? ==>
                  r.kind.OAuth2AuthCode? && r.createdBy.Some? && r.createdBy.value != "")
  {
    m := RunKeeps(map[], map[], ops);
    ListIsFlat(TableRun(map[], ops), m);
    assert forall r :: r in m.Values ==> ValidRecord(r);
  }

  predicate ProvidersIn(m: Flat, providers: set<string>) {
    forall id :: id in m ==> m[id].provider in providers
  }

  lemma ApartMeansNoClash(m: Flat, input: Input, level: Level, providers: set<string>)
    requires AllApart(providers) && input.provider in providers
    requires ProvidersIn(m, providers)
    ensures !Clash(m, input, level)
  {
    var owner := input.createdBy.GetOr("undefined");
    if Claimed(m, input.provider, owner) {
      var id :| id in m && m[id].level == UserOauth && m[id].createdBy.Some?
                && OauthKey(m[id].provider, m[id].createdBy.value) == OauthKey(input.provider, owner);
      OauthKeysMeet(m[id].provider, m[id].createdBy.value, input.provider, owner);
    }
  }

  lemma LegalOwner(op: Op)
    requires op.Creating? && Legal(op)
    ensures ValidRecord(NewRecord(op.input, op.level, op.id, op.now))
  {
    var d :| CreateLevel(op.input, d) == Ok(op.level);
    CreateLevelExact(op.input, d, op.level);
  }

  lemma StepRefines(t: Table, m: Flat, op: Op, providers: set<string>)
    requires Represents(t, m) && Legal(op) && ProvidersIn(m, providers) && AllApart(providers)
    requires op.Creating? ==> op.input.provider in providers
    ensures Represents(TableStep(t, op), FlatStep(m, op)) && ProvidersIn(FlatStep(m, op), providers)
  {
    match op {
      case Creating(i, l, id, now) => CreatingRefines(t, m, op, providers);
      case Deleting(id) => DeleteRefines(t, m, id);
      case Updating(id, p, now) => UpdateRefines(t, m, id, p, now);
    }
    ProvidersStay(m, op, providers);
  }

  lemma ProvidersStay(m: Flat, op: Op, providers: set<string>)
    requires ProvidersIn(m, providers) && (op.Creating? ==> op.input.provider in providers)
    ensures ProvidersIn(FlatStep(m, op), providers)
  {
  }

  lemma CreatingRefines(t: Table, m: Flat, op: Op, providers: set<string>)
    requires Represents(t, m) && Legal(op) && ProvidersIn(m, providers) && AllApart(providers)
    requires op.Creating? && op.input.provider in providers
    ensures Represents(TableStep(t, op), FlatStep(m, op))
  {
    ApartMeansNoClash(m, op.input, op.level, providers);
    LegalOwner(op);
    CreateRefines(t, m, op.input, op.level, op.id, op.now);
  }

  lemma {:induction false} RunRefines(t: Table, m: Flat, ops: seq<Op>, providers: set<string>)
    requires Represents(t, m) && AllLegal(ops) && OnlyFrom(ops, providers)
    requires ProvidersIn(m, providers) && AllApart(providers)
    ensures Represents(TableRun(t, ops), FlatRun(m, ops)) && ProvidersIn(FlatRun(m, ops), providers)
    decreases |ops|
  {
    if ops != [] {
      StepRefines(t, m, ops[0], providers);
      assert forall i :: 0 <= i < |ops[1..]| ==> ops[1..][i] == ops[i + 1];
      RunRefines(TableStep(t, ops[0]), FlatStep(m, ops[0]), ops[1..], providers);
    }
  }

  /**
   * Single-table refinement: after any run over providers none of which extends another,
   * every query of the table is a lookup in the flat map.
   */
  lemma TableAnswersLikeMap(ops: seq<Op>, id: string, provider: string, providers: set<string>)
    requires AllLegal(ops) && OnlyFrom(ops, providers) && AllApart(providers) && provider in providers
    ensures var t, m := TableRun(map[], ops), FlatRun(map[], ops);
            && Represents(t, m)
            && Lookup(t, id) == Get(m, id)
            && List(t) == m.Values
            && ForProvider(t, provider) == set k | k in m && m[k].provider == provider :: m[k]
  {
    RunRefines(map[], map[], ops, providers);
    var t, m := TableRun(map[], ops), FlatRun(map[], ops);
    LookupIsFlat(t, m, id);
    ListIsFlat(t, m);
    ForProviderExact(t, m, provider);
  }

  function Connecting(provider: string, owner: string, id: string): Op {
    Creating(Input(provider, None, OAuth2AuthCode, "", Some(owner), Some("user-oauth")), UserOauth, id, "")
  }

  /**
   * The failing run: when one provider extends another, a connection of the shorter one
   * keeps some user of the longer one, who has none, from connecting.
   */
  lemma ExtendedProviderIsBlocked(p: string, q: string) returns (first: Op, second: Op)
    requires Extends(q, p)
    ensures first.Creating? && first.input.provider == p
    ensures second.Creating? && second.input.provider == q && second.level == UserOauth
    ensures AllLegal([first, second])
    ensures var (t, m) := (TableStep(map[], first), FlatStep(map[], first));
            && Represents(t, m)
            && Create(t, second.input, UserOauth, second.id, second.now) == (t, Err(AlreadyConnected))
            && FlatCreate(m, second.input, UserOauth, second.id, second.now).1.Ok?
  {
    var x := ExtensionMeets(p, q, "c");
    first, second := Connecting(p, x, "0"), Connecting(q, "c", "1");
    ConnectingIsLegal(p, x, "0");
    ConnectingIsLegal(q, "c", "1");
    var t, m := TableStep(map[], first), FlatStep(map[], first);
    var r := NewRecord(first.input, UserOauth, "0", "");
    FirstConnection(first);
    assert m == map["0" := r] && Represents(t, m);
    assert OauthKey(q, "c") in t;
    assert !Connected(m, q, "c") by {
      assert m["0"].provider == p && p != q;
    }
  }

  lemma ConnectingIsLegal(provider: string, owner: string, id: string)
    requires owner != "" && Plain(id)
    ensures Legal(Connecting(provider, owner, id))
  {
    var input := Connecting(provider, owner, id).input;
    var d := (kind: CredentialType) => UserOauth;
    assert CreateLevel(input, d) == Ok(UserOauth);
  }

  /** The first connection of an empty table. */
  lemma FirstConnection(op: Op)
    requires op.Creating? && op.level == UserOauth && op.input.createdBy.Some? && Plain(op.id)
    ensures var t, m := TableStep(map[], op), FlatStep(map[], op);
            && m == map[op.id := NewRecord(op.input, UserOauth, op.id, op.now)]
            && Represents(t, m) && OauthKey(op.input.provider, op.input.createdBy.value) in t
  {
    CreateKeeps(map[], map[], op.input, UserOauth, op.id, op.now);
  }

  /** Every run over a set of providers refines the flat map if and only if none of them extends another. */
  lemma RefinesIffApart(providers: set<string>)
    ensures (forall ops :: AllLegal(ops) && OnlyFrom(ops, providers) ==>
        Represents(TableRun(map[], ops), FlatRun(map[], ops)))
            <==> AllApart(providers)
  {
    if AllApart(providers) {
      forall ops | AllLegal(ops) && OnlyFrom(ops, providers)
        ensures Represents(TableRun(map[], ops), FlatRun(map[], ops))
      {
        RunRefines(map[], map[], ops, providers);
      }
    } else {
      var q, p :| p in providers && q in providers && Extends(q, p);
      var first, second := ExtendedProviderIsBlocked(p, q);
      BlockedRun(first, second);
    }
  }

  lemma BlockedRun(first: Op, second: Op)
    requires first.Creating? && second.Creating? && second.level == UserOauth
    requires var (t, m) := (TableStep(map[], first), FlatStep(map[], first));
             && Represents(t, m)
             && Create(t, second.input, UserOauth, second.id, second.now) == (t, Err(AlreadyConnected))
             && FlatCreate(m, second.input, UserOauth, second.id, second.now).1.Ok?
    ensures !Represents(TableRun(map[], [first, second]), FlatRun(map[], [first, second]))
  {
    var ops := [first, second];
    var t, m := TableStep(map[], first), FlatStep(map[], first);
    assert ops[1..] == [second] && [second][1..] == [];
    assert TableRun(t, [second]) == TableRun(t, []) && TableRun(map[], ops) == t;
    var m' := FlatStep(m, second);
    assert FlatRun(m, [second]) == FlatRun(m', []) && FlatRun(map[], ops) == m';
    LookupIsFlat(t, m, second.id);
    if Represents(t, m') {
      LookupIsFlat(t, m', second.id);
      assert false;
    }
  }

  // ----- What a caller finds afterwards -----

  /** A created credential is found under its id with everything it was created with; no other changes. */
  lemma CreatedIsFound(t: Table, m: Flat, input: Input, level: Level, id: string, now: string, other: string)
    requires Represents(t, m) && Plain(id) && (level == UserOauth ==> input.createdBy.Some?)
    requires Create(t, input, level, id, now).1.Ok?
    ensures var (t', out) := Create(t, input, level, id, now);
            && Lookup(t', id) == Some(Record(
                 id, input.provider, input.title, input.kind, level, input.createdBy, input.payload, now, now))
            && out.value == Lookup(t', id).value && Lookup(t, id) == None
            && (other != id ==> Lookup(t', other) == Lookup(t, other))
  {
    CreateKeeps(t, m, input, level, id, now);
    var t' := Create(t, input, level, id, now).0;
    var m' := m[id := NewRecord(input, level, id, now)];
    LookupIsFlat(t, m, id);
    LookupIsFlat(t', m', id);
    LookupIsFlat(t, m, other);
    LookupIsFlat(t', m', other);
  }

  /** An update is found under its id with the new payload and time, and with all else as before. */
  lemma UpdatedIsFound(t: Table, m: Flat, id: string, payload: string, now: string, other: string)
    requires Represents(t, m)
    ensures var t' := UpdatePayload(t, id, payload, now);
            && (Lookup(t, id).None? ==> t' == t)
            && (Lookup(t, id).Some? ==>
                 var r := Lookup(t, id).value;
                 Lookup(t', id) == Some(Record(
                   r.id, r.provider, r.title, r.kind, r.level, r.createdBy, payload, r.createdAt, now)))
            && (other != id ==> Lookup(t', other) == Lookup(t, other))
  {
    UpdateRefines(t, m, id, payload, now);
    var t', m' := UpdatePayload(t, id, payload, now), FlatUpdate(m, id, payload, now);
    LookupIsFlat(t, m, id);
    LookupIsFlat(t', m', id);
    LookupIsFlat(t, m, other);
    LookupIsFlat(t', m', other);
  }

  /** A deleted credential is not found any more, and the answer says whether it was; no other changes. */
  lemma DeletedIsGone(t: Table, m: Flat, id: string, other: string)
    requires Represents(t, m)
    ensures var (t', gone) := Delete(t, id);
            && Lookup(t', id) == None && (gone <==> Lookup(t, id).Some?)
            && (other != id ==> Lookup(t', other) == Lookup(t, other))
  {
    DeleteRefines(t, m, id);
    LookupIsFlat(t, m, id);
    LookupIsFlat(Delete(t, id).0, m - {id}, id);
    LookupIsFlat(t, m, other);
    LookupIsFlat(Delete(t, id).0, m - {id}, other);
  }

  /** Which level names a create accepts for each payload type, and which error it gives otherwise. */
  lemma AcceptedLevels(input: Input, d: CredentialType -> Level, name: string)
    requires input.level == Some(name)
    ensures var out := CreateLevel(input, d);
            var fixed := input.kind == BearerToken || input.kind == ApiKey;
            var owned := exists owner :: owner != "" && input.createdBy == Some(owner);
            && (out == Ok(WorkspaceToken) <==> name == "workspace-token" && fixed)
            && (out == Ok(WorkspaceOauth) <==> name == "workspace-oauth" && !fixed)
            && (out == Ok(UserOauth) <==> name == "user-oauth" && input.kind == OAuth2AuthCode && owned)
            && (out == Err(OwnerRequired) <==> name == "user-oauth" && input.kind == OAuth2AuthCode && !owned)
            && (out == Err(InvalidLevel) <==> name !in {"workspace-token", "workspace-oauth", "user-oauth"})
  {
  }

  /** After disconnecting, the same user can connect again under any unused id. */
  lemma ReconnectAfterDelete(t: Table, m: Flat, id: string, input: Input, fresh': string, now: string)
    requires Represents(t, m) && id in m && m[id].level == UserOauth && m[id].createdBy == input.createdBy
    requires m[id].provider == input.provider && fresh' !in m && Plain(fresh')
    ensures var after := Delete(t, id).0;
            Create(after, input, UserOauth, fresh', now).1 == Ok(NewRecord(input, UserOauth, fresh', now))
  {
    assert RowsPresent(t, m[id]);
    DeleteRefines(t, m, id);
    var after, m' := Delete(t, id).0, m - {id};
    var owner := input.createdBy.value;
    forall k | k in m' && m[k].level == UserOauth && m[k].createdBy.Some?
      ensures OauthKey(m[k].provider, m[k].createdBy.value) != OauthKey(input.provider, owner)
    {
      assert RowsPresent(t, m[k]);
    }
    CreateKeeps(after, m', input, UserOauth, fresh', now);
  }

  /**
   * Create-time rules: a level is accepted exactly when it fits the payload type and a user
   * connection has an owner.
   */
  lemma CreateLevelExact(input: Input, d: CredentialType -> Level, level: Level)
    ensures CreateLevel(input, d) == Ok(level) <==>
              && (if input.level.None? then level == d(input.kind) else ParseLevel(input.level.value) == Some(level))
              && Compatible(level, input.kind)
              && (level == UserOauth ==> HasOwner(input.createdBy))
  {
  }

  // ----- The object -----

  class CredentialStoreDynamodb {
    var table: Table

    constructor ()
      ensures table == map[]
    {
      table := map[];
    }

    /** One transaction of conditional puts: all rows are written, or none and the first matching error is raised. */
    method CreateCredential(input: Input, defaultLevel: CredentialType -> Level, id: string, now: string)
      returns (r: Result<Record, Error>)
      modifies this
      ensures match CreateLevel(input, defaultLevel)
              case Err(e) => table == old(table) && r == Err(e)
              case Ok(level) => (table, r) == Create(old(table), input, level, id, now)
    {
      var level := CreateLevel(input, defaultLevel);
      if level.Err? {
        return Err(level.error);
      }
      var record := NewRecord(input, level.value, id, now);
      var puts := [(CredKey(input.provider, id), RecordItem(record)), (IdKey(id), IdPointer(input.provider))];
      if level.value == UserOauth {
        puts := puts + [(OauthKey(input.provider, input.createdBy.GetOr("undefined")), OauthPointer(id))];
      }
      if level.value == UserOauth && puts[2].0 in table {
        return Err(AlreadyConnected);
      }
      if puts[0].0 in table || puts[1].0 in table {
        return Err(IdCollision);
      }
      table := table[puts[0].0 := puts[0].1][puts[1].0 := puts[1].1];
      if |puts| == 3 {
        table := table[puts[2].0 := puts[2].1];
      }
      return Ok(record);
    }

    method ReadPointer(id: string) returns (provider: Option<string>)
      ensures provider == ProviderOf(table, id)
    {
      if IdKey(id) !in table || !table[IdKey(id)].IdPointer? {
        return None;
      }
      return Some(table[IdKey(id)].provider);
    }

    method GetCredential(id: string) returns (r: Option<Record>)
      ensures r == Lookup(table, id)
    {
      var provider := ReadPointer(id);
      if provider.None? {
        return None;
      }
      var sk := CredKey(provider.value, id);
      if sk !in table || !table[sk].RecordItem? {
        return None;
      }
      return Some(table[sk].record);
    }

    method DeleteCredential(id: string) returns (deleted: bool)
      modifies this
      ensures (table, deleted) == Delete(old(table), id)
    {
      var provider := ReadPointer(id);
      if provider.None? {
        return false;
      }
      var record := GetCredential(id);
      var keys := {CredKey(provider.value, id), IdKey(id)};
      if record.Some? && record.value.level == UserOauth && record.value.createdBy.Some? {
        var owner := OauthKey(provider.value, record.value.createdBy.value);
        assert table - (keys + {owner}) == table - keys - {owner};
        keys := keys + {owner};
      }
      table := table - keys;
      return true;
    }

    method ReplacePayload(id: string, payload: string, now: string)
      modifies this
      ensures table == UpdatePayload(old(table), id, payload, now)
    {
      var provider := ReadPointer(id);
      if provider.None? {
        return;
      }
      var sk := CredKey(provider.value, id);
      if sk !in table || !table[sk].RecordItem? {
        return;
      }
      table := table[sk := RecordItem(table[sk].record.(payload := payload, updatedAt := now))];
    }
  }
}
