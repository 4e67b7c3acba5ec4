/**
 * The per-token cache of resolved principals (server/workspace/src/auth-cache.ts), against
 * the resolution it stands in for and against the history of what happened to it.
 */
module AuthCache {
  import opened Common

  datatype Principal = Principal(sub: string, workspaceId: string, role: string)

  datatype Entry = Entry(principal: Principal, expiresAt: int)

  type Cache = map<string, Entry>

  const DEFAULT_TTL_MS: nat := 60000

  /** The configured lifetime, when it is a positive number. */
  function TtlMs(raw: Option<int>): (r: int)
    ensures r > 0
    ensures raw.Some? && raw.value > 0 ==> r == raw.value
    ensures raw == None ==> r == 60000
  {
    if raw.Some? && raw.value > 0 then raw.value else DEFAULT_TTL_MS
  }

  // ----- Keys -----

  /** A token is stored by its hash, written in hexadecimal. */
  predicate IsHash(h: string) {
    forall i :: 0 <= i < |h| ==> h[i] in "0123456789abcdef"
  }

  function CacheKey(tokenHash: string, hint: string): string {
    tokenHash + ":" + hint
  }

  lemma ColonSplits(h: string, h': string, hint: string, hint': string)
    requires IsHash(h) && IsHash(h') && |h| <= |h'| && CacheKey(h, hint) == CacheKey(h', hint')
    ensures h == h' && hint == hint'
  {
    var key := CacheKey(h, hint);
    assert key[|h|] == ':';
    forall i | 0 <= i < |h'| ensures key[i] in "0123456789abcdef" {
      assert key[i] == h'[i];
    }
    assert h == key[..|h|] && h' == key[..|h'|];
    assert hint == key[|h| + 1..] && hint' == key[|h'| + 1..];
  }

  /** Distinct pairs of token hash and workspace hint never share a key, whatever the hint contains. */
  lemma CacheKeyInjective(h: string, h': string, hint: string, hint': string)
    requires IsHash(h) && IsHash(h')
    ensures CacheKey(h, hint) == CacheKey(h', hint') <==> h == h' && hint == hint'
  {
    if CacheKey(h, hint) == CacheKey(h', hint') {
      if |h| <= |h'| {
        ColonSplits(h, h', hint, hint');
      } else {
        ColonSplits(h', h, hint', hint);
      }
    }
  }

  // ----- Operations -----

  predicate Carries(p: Principal, id: string) {
    p.sub == id || p.workspaceId == id
  }

  function Read(cache: Cache, key: string, now: int): Cache {
    if key in cache && cache[key].expiresAt <= now then cache - {key} else cache
  }

  function Hit(cache: Cache, key: string, now: int): Option<Principal> {
    if key in cache && cache[key].expiresAt > now then Some(cache[key].principal) else None
  }

  function Filled(cache: Cache, key: string, p: Principal, now: int, ttl: int): Cache {
    cache[key := Entry(p, now + ttl)]
  }

  function Invalidated(cache: Cache, id: string): Cache {
    map key | key in cache && !Carries(cache[key].principal, id) :: cache[key]
  }

  /** Invalidating an id keeps exactly the entries whose principal has it neither as user nor as workspace. */
  lemma InvalidatedExact(cache: Cache, id: string, key: string)
    ensures key in Invalidated(cache, id) <==>
              key in cache && cache[key].principal.sub != id && cache[key].principal.workspaceId != id
    ensures key in Invalidated(cache, id) ==> Invalidated(cache, id)[key] == cache[key]
  {
  }

  class PrincipalCache {
    var cache: Cache

    constructor ()
      ensures cache == map[]
    {
      cache := map[];
    }

    method GetCachedPrincipal(tokenHash: string, hint: string, now: int) returns (p: Option<Principal>)
      modifies this
      ensures p == Hit(old(cache), CacheKey(tokenHash, hint), now)
      ensures cache == Read(old(cache), CacheKey(tokenHash, hint), now)
    {
      var key := CacheKey(tokenHash, hint);
      if key !in cache {
        return None;
      }
      var entry := cache[key];
      if entry.expiresAt <= now {
        cache := cache - {key};
        return None;
      }
      return Some(entry.principal);
    }

    method SetCachedPrincipal(tokenHash: string, hint: string, p: Principal, now: int, rawTtl: Option<int>)
      modifies this
      ensures cache == Filled(old(cache), CacheKey(tokenHash, hint), p, now, TtlMs(rawTtl))
    {
      cache := cache[CacheKey(tokenHash, hint) := Entry(p, now + TtlMs(rawTtl))];
    }

    /** Entries are deleted while they are iterated over. */
    method InvalidatePrincipal(id: string)
      modifies this
      ensures cache == Invalidated(old(cache), id)
      ensures forall key :: key in cache <==>
                key in old(cache) && old(cache)[key].principal.sub != id && old(cache)[key].principal.workspaceId != id
      ensures forall key :: key in cache ==> cache[key] == old(cache)[key]
    {
      var rest := cache.Keys;
      while rest != {}
        invariant rest <= old(cache).Keys
        invariant cache == map key | key in old(cache) && (key in rest || !Carries(old(cache)[key].principal, id)) ::
            old(cache)[key]
        decreases |rest|
      {
        var key :| key in rest;
        rest := rest - {key};
        if Carries(cache[key].principal, id) {
          cache := cache - {key};
        }
      }
    }
  }

  // ----- Runs -----

  datatype Key = Key(tokenHash: string, hint: string)

  /** What every token and hint resolves to at present; a pair that resolves to nobody is absent. */
  type World = map<Key, Principal>

  datatype Event =
    | Reading(key: Key, now: int)
    /** A resolution put into the cache. */
    | Filling(key: Key, principal: Principal, now: int, ttl: int)
    /** What resolutions say changes. */
    | Mutating(world: World)
    | Invalidating(id: string)

  function StoreKey(k: Key): string {
    CacheKey(k.tokenHash, k.hint)
  }

  datatype State = State(cache: Cache, world: World)

  function Step(s: State, e: Event): State {
    match e
    case Reading(k, now) => s.(cache := Read(s.cache, StoreKey(k), now))
    case Filling(k, p, now, ttl) => s.(cache := Filled(s.cache, StoreKey(k), p, now, ttl))
    case Mutating(world) => s.(world := world)
    case Invalidating(id) => s.(cache := Invalidated(s.cache, id))
  }

  function Run(s: State, events: seq<Event>): State {
    if events == [] then s else Step(Run(s, events[..|events| - 1]), events[|events| - 1])
  }

  predicate HashedKey(e: Event) {
    (e.Reading? || e.Filling?) ==> IsHash(e.key.tokenHash)
  }

  predicate Hashed(events: seq<Event>) {
    forall i :: 0 <= i < |events| ==> HashedKey(events[i])
  }

  // ----- The cache as its history -----

  /**
   * The last resolution put in for the pair, unless something it carries was invalidated
   * or it was found expired since.  The key text, and every other pair, play no part.
   */
  function Latest(events: seq<Event>, k: Key): Option<Entry> {
    if events == [] then None
    else
      var before := Latest(events[..|events| - 1], k);
      match events[|events| - 1]
      case Reading(other, now) => if other == k && before.Some? && before.value.expiresAt <= now then None else before
      case Filling(other, p, now, ttl) => if other == k then Some(Entry(p, now + ttl)) else before
      case Mutating(_) => before
      case Invalidating(id) => if before.Some? && Carries(before.value.principal, id) then None else before
  }

  /** After any run, what is stored under a pair's key is the latest live resolution of that very pair. */
  lemma {:induction false} CacheIsHistory(world: World, events: seq<Event>, k: Key)
    requires Hashed(events) && IsHash(k.tokenHash)
    ensures Get(Run(State(map[], world), events).cache, StoreKey(k)) == Latest(events, k)
    decreases |events|
  {
    if events != [] {
      var e := events[|events| - 1];
      CacheIsHistory(world, events[..|events| - 1], k);
      assert HashedKey(e);
      if e.Reading? || e.Filling? {
        CacheKeyInjective(e.key.tokenHash, k.tokenHash, e.key.hint, k.hint);
      }
    }
  }

  /**
   * The event at `i` put `p` in for the pair, fresh at `now`, and neither a later fill nor an
   * invalidation undid it.
   */
  ghost predicate Supports(events: seq<Event>, k: Key, p: Principal, now: int, i: int) {
    && 0 <= i < |events| && events[i].Filling? && events[i].key == k && events[i].principal == p
    && now < events[i].now + events[i].ttl
    && forall j :: i < j < |events| ==> Undisturbed(events[j], k, p)
  }

  predicate Undisturbed(e: Event, k: Key, p: Principal) {
    && !(e.Filling? && e.key == k)
    && !(e.Invalidating? && (p.sub == e.id || p.workspaceId == e.id))
  }

  predicate StampedBy(e: Event, now: int) {
    e.Reading? || e.Filling? ==> e.now <= now
  }

  lemma {:induction false} LatestIsSupported(events: seq<Event>, k: Key, now: int)
    requires Latest(events, k).Some? && Latest(events, k).value.expiresAt > now
    ensures exists i :: Supports(events, k, Latest(events, k).value.principal, now, i)
    decreases |events|
  {
    var last := |events| - 1;
    var e, init := events[last], events[..last];
    var p := Latest(events, k).value.principal;
    if e.Filling? && e.key == k {
      assert Supports(events, k, p, now, last);
    } else {
      LatestIsSupported(init, k, now);
      var i :| Supports(init, k, p, now, i);
      assert Supports(events, k, p, now, i);
    }
  }

  lemma {:induction false} SupportIsLatest(events: seq<Event>, k: Key, p: Principal, now: int, i: int)
    requires Supports(events, k, p, now, i) && forall j :: 0 <= j < |events| ==> StampedBy(events[j], now)
    ensures Latest(events, k) == Some(Entry(p, events[i].now + events[i].ttl))
    decreases |events|
  {
    var last := |events| - 1;
    var e, init := events[last], events[..last];
    if i < last {
      assert Undisturbed(e, k, p) && StampedBy(e, now);
      assert forall j :: 0 <= j < |init| ==> init[j] == events[j];
      SupportIsLatest(init, k, p, now, i);
    }
  }

  predicate LatestIs(events: seq<Event>, k: Key, p: Principal, now: int) {
    Latest(events, k).Some? && Latest(events, k).value.expiresAt > now && Latest(events, k).value.principal == p
  }

  lemma LatestIffSupported(events: seq<Event>, k: Key, p: Principal, now: int)
    requires forall j :: 0 <= j < |events| ==> StampedBy(events[j], now)
    ensures LatestIs(events, k, p, now) <==> exists i :: Supports(events, k, p, now, i)
  {
    if LatestIs(events, k, p, now) {
      LatestIsSupported(events, k, now);
    }
    if i :| Supports(events, k, p, now, i) {
      SupportIsLatest(events, k, p, now, i);
    }
  }

  /**
   * A read hits exactly when some earlier fill of the very same token and hint is not yet
   * `ttl` old and has neither been replaced nor had an id it carries invalidated, and it
   * then gives that fill's principal.  Nothing is asked of mutations, so this bounds how
   * stale an answer can be when an invalidation is missed.
   */
  lemma HitIffFreshFill(world: World, events: seq<Event>, k: Key, p: Principal, now: int)
    requires Hashed(events) && IsHash(k.tokenHash)
    requires forall j :: 0 <= j < |events| ==> StampedBy(events[j], now)
    ensures Hit(Run(State(map[], world), events).cache, StoreKey(k), now) == Some(p)
        <==> exists i :: Supports(events, k, p, now, i)
  {
    CacheIsHistory(world, events, k);
    var hit := Hit(Run(State(map[], world), events).cache, StoreKey(k), now);
    assert hit == Some(p) <==> LatestIs(events, k, p, now);
    LatestIffSupported(events, k, p, now);
  }

  // ----- Coherence -----

  /** Only resolutions whose old principal carries the id change; a pair that resolved to nobody may start to. */
  ghost predicate ChangesOnly(before: World, after: World, id: string) {
    forall k :: k in before && before[k].sub != id && before[k].workspaceId != id ==>
      k in after && after[k] == before[k]
  }

  /** A fill puts in what the pair resolves to, and a mutation is followed at once by its invalidation. */
  datatype Action =
    | Look(key: Key, now: int)
    | Fill(key: Key, now: int, ttl: int)
    | Change(id: string, world: World)
    | Drop(id: string)

  function EventsOf(world: World, a: Action): seq<Event> {
    match a
    case Look(k, now) => [Reading(k, now)]
    case Fill(k, now, ttl) => if k in world then [Filling(k, world[k], now, ttl)] else []
    case Change(id, after) => [Mutating(after), Invalidating(id)]
    case Drop(id) => [Invalidating(id)]
  }

  function Act(s: State, a: Action): State {
    Run(s, EventsOf(s.world, a))
  }

  function ActAll(s: State, actions: seq<Action>): State
    decreases |actions|
  {
    if actions == [] then s else ActAll(Act(s, actions[0]), actions[1..])
  }

  ghost predicate Disciplined(s: State, actions: seq<Action>)
    decreases |actions|
  {
    actions != [] ==>
      var a := actions[0];
      && ((a.Look? || a.Fill?) ==> IsHash(a.key.tokenHash))
      && (a.Change? ==> ChangesOnly(s.world, a.world, a.id))
      && Disciplined(Act(s, a), actions[1..])
  }

  /** Whatever is stored for a pair is what the pair resolves to. */
  ghost predicate Coherent(s: State) {
    forall k: Key :: IsHash(k.tokenHash) && StoreKey(k) in s.cache ==>
      k in s.world && s.cache[StoreKey(k)].principal == s.world[k]
  }

  lemma ChangeTakesEffect(s: State, id: string, after: World)
    ensures Act(s, Change(id, after)) == State(Invalidated(s.cache, id), after)
  {
    var mutation := [Mutating(after)];
    assert [Mutating(after), Invalidating(id)][..1] == mutation;
    assert mutation[..0] == [];
    assert Run(s, mutation) == Step(Run(s, []), Mutating(after));
  }

  lemma ActKeeps(s: State, a: Action)
    requires Coherent(s) && Disciplined(s, [a])
    ensures Coherent(Act(s, a))
  {
    var t := Act(s, a);
    match a
    case Look(key, now) =>
      assert t == Step(Run(s, []), Reading(key, now));
    case Fill(key, now, ttl) =>
      if key in s.world {
        assert t == Step(Run(s, []), Filling(key, s.world[key], now, ttl));
        forall k: Key | IsHash(k.tokenHash) && StoreKey(k) in t.cache
          ensures k in t.world && t.cache[StoreKey(k)].principal == t.world[k]
        {
          CacheKeyInjective(key.tokenHash, k.tokenHash, key.hint, k.hint);
        }
      }
    case Change(id, after) =>
      ChangeTakesEffect(s, id, after);
    case Drop(id) =>
      assert t == Step(Run(s, []), Invalidating(id));
  }

  /**
   * Over any run in which every mutation invalidates an id carried by whatever it changes, every hit
   * is the current resolution.
   */
  lemma {:induction false} HitsAreCurrent(s: State, actions: seq<Action>, k: Key, now: int)
    requires Coherent(s) && Disciplined(s, actions) && IsHash(k.tokenHash)
    ensures var t := ActAll(s, actions);
            Coherent(t) && var hit := Hit(t.cache, StoreKey(k), now); hit.Some? ==> hit == Get(t.world, k)
    decreases |actions|
  {
    if actions != [] {
      ActKeeps(s, actions[0]);
      HitsAreCurrent(Act(s, actions[0]), actions[1..], k, now);
    }
  }

  /**
   * The discipline is needed, and nothing more: after a mutation and its invalidation a
   * stored pair is answered wrongly exactly when its principal does not carry the
   * invalidated id although it changed.  An invalidated pair misses, and is resolved anew.
   */
  lemma UnannouncedChangeIsServed(s: State, k: Key, id: string, after: World, now: int)
    requires Coherent(s) && IsHash(k.tokenHash) && Hit(s.cache, StoreKey(k), now).Some?
    ensures var hit := Hit(Act(s, Change(id, after)).cache, StoreKey(k), now);
            var apart := s.world[k].sub != id && s.world[k].workspaceId != id;
            && (hit.Some? <==> apart)
            && (hit.Some? && hit != Get(after, k) <==> apart && Get(after, k) != Some(s.world[k]))
  {
    ChangeTakesEffect(s, id, after);
  }
}
