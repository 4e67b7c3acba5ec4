/**
 * Capability and path grants and the dispatch decision (server/workspace/src/grants.ts).
 * How a resource pattern matches a resource is a parameter of the model.
 */
module Grants {
  import opened Common
  import opened Segments
  import opened Credentials
  import ActionQueue

  // ----- Capability patterns -----

  /** `base.*` for some base. */
  predicate IsWildcard(pattern: string) {
    |pattern| >= 2 && pattern[|pattern| - 2..] == ".*"
  }

  function Base(pattern: string): string
    requires IsWildcard(pattern)
  {
    pattern[..|pattern| - 2]
  }

  predicate PatternMatches(pattern: string, call: string) {
    if pattern == "*" then true
    else if IsWildcard(pattern) then Under(Base(pattern), call, '.')
    else call == pattern
  }

  predicate MatchesCapability(patterns: seq<string>, call: string) {
    exists i :: 0 <= i < |patterns| && PatternMatches(patterns[i], call)
  }

  /** A wildcard covers the calls that start with the segments of its base, the base included. */
  lemma WildcardMatchesSegments(pattern: string, call: string)
    requires IsWildcard(pattern)
    ensures PatternMatches(pattern, call) <==> Split(Base(pattern), '.') <= Split(call, '.')
  {
    assert pattern != "*";
    UnderIsSegmentPrefix(Base(pattern), call, '.');
  }

  /** Any call is covered by itself read as a pattern, even one that ends in `.*`. */
  lemma CallMatchesItself(call: string)
    ensures PatternMatches(call, call)
  {
    if IsWildcard(call) {
      assert call == Base(call) + ".*";
    }
  }

  /** Which calls a pattern covers: all, those under a base by whole segments, or one. */
  lemma PatternExact(pattern: string, call: string)
    ensures PatternMatches(pattern, call) <==>
              || pattern == "*"
              || (|pattern| >= 2 && pattern[|pattern| - 2..] == ".*"
                  && Split(pattern[..|pattern| - 2], '.') <= Split(call, '.'))
              || ((|pattern| < 2 || pattern[|pattern| - 2..] != ".*") && call == pattern)
  {
    if IsWildcard(pattern) {
      WildcardMatchesSegments(pattern, call);
    }
  }

  /** A check on the texts alone that every call one pattern covers is covered by another. */
  predicate AtLeastAsWide(wide: string, narrow: string) {
    if narrow == "*" then wide == "*"
    else if IsWildcard(narrow) then wide == "*" || (IsWildcard(wide) && PatternMatches(wide, Base(narrow)))
    else PatternMatches(wide, narrow)
  }

  lemma WiderCoversMore(wide: string, narrow: string, call: string)
    requires AtLeastAsWide(wide, narrow) && PatternMatches(narrow, call)
    ensures PatternMatches(wide, call)
  {
    if wide != "*" && IsWildcard(narrow) {
      WildcardMatchesSegments(narrow, call);
      WildcardMatchesSegments(wide, Base(narrow));
      WildcardMatchesSegments(wide, call);
    }
  }

  lemma NotWiderMissesACall(wide: string, narrow: string) returns (call: string)
    requires !AtLeastAsWide(wide, narrow)
    ensures PatternMatches(narrow, call) && !PatternMatches(wide, call)
  {
    CallMatchesItself(wide);
    CallMatchesItself(narrow);
    if narrow == "*" {
      call := if !IsWildcard(wide) then wide + "x" else if Base(wide) == "" then "x" else "";
      if IsWildcard(wide) {
        var below := Base(wide) + ".";
        assert below[|below| - 1] == '.';
        assert |below| == 1 || |call| < |below|;
      }
    } else if IsWildcard(narrow) {
      call := if wide == Base(narrow) then Base(narrow) + "." else Base(narrow);
      assert wide == Base(narrow) ==> |call| != |wide| && !IsWildcard(wide);
    } else {
      call := narrow;
    }
  }

  /** One pattern grants no more than another exactly when the text check says so. */
  lemma WidthIsInclusion(wide: string, narrow: string)
    ensures AtLeastAsWide(wide, narrow) <==> forall call :: PatternMatches(narrow, call) ==> PatternMatches(wide, call)
  {
    if AtLeastAsWide(wide, narrow) {
      forall call | PatternMatches(narrow, call) ensures PatternMatches(wide, call) {
        WiderCoversMore(wide, narrow, call);
      }
    } else {
      var call := NotWiderMissesACall(wide, narrow);
    }
  }

  // ----- Path grants -----

  datatype Access = ReadOnly | ReadWrite

  datatype PathGrant = PathGrant(prefix: string, access: Access)

  function Trim(prefix: string): string {
    if prefix != "" && prefix[|prefix| - 1] == '/' then Trim(prefix[..|prefix| - 1]) else prefix
  }

  predicate GrantCovers(g: PathGrant, path: string) {
    Trim(g.prefix) == "" || Covers(Trim(g.prefix), path)
  }

  /** Trimming removes the slashes at the end, all of them and nothing else. */
  lemma {:induction false} TrimExact(prefix: string)
    ensures Trim(prefix) <= prefix
    ensures forall i :: |Trim(prefix)| <= i < |prefix| ==> prefix[i] == '/'
    ensures Trim(prefix) != "" ==> Trim(prefix)[|Trim(prefix)| - 1] != '/'
    decreases |prefix|
  {
    if prefix != "" && prefix[|prefix| - 1] == '/' {
      TrimExact(prefix[..|prefix| - 1]);
    }
  }

  /** A grant covers a path if its trimmed prefix is empty or begins the path by whole segments. */
  lemma GrantCoversExact(g: PathGrant, path: string)
    ensures GrantCovers(g, path) <==> Trim(g.prefix) == "" || Split(Trim(g.prefix), '/') <= Split(path, '/')
  {
    UnderIsSegmentPrefix(Trim(g.prefix), path, '/');
  }

  /** Grant `i` covers the path, and every other one that does is shorter, or as long and later. */
  predicate Deciding(grants: seq<PathGrant>, path: string, i: int) {
    && 0 <= i < |grants| && GrantCovers(grants[i], path)
    && forall j :: 0 <= j < |grants| && GrantCovers(grants[j], path) ==>
         || |Trim(grants[j].prefix)| < |Trim(grants[i].prefix)|
         || (|Trim(grants[j].prefix)| == |Trim(grants[i].prefix)| && i <= j)
  }

  /** What the grants say of a path: nothing covers it, or the first of the longest that do decides. */
  ghost predicate Says(grants: seq<PathGrant>, path: string, answer: Option<Access>) {
    match answer
    case None => forall j :: 0 <= j < |grants| ==> !GrantCovers(grants[j], path)
    case Some(access) => exists i :: Deciding(grants, path, i) && grants[i].access == access
  }

  method PathAccess(grants: seq<PathGrant>, path: string) returns (answer: Option<Access>)
    ensures Says(grants, path, answer)
  {
    var best: Option<(nat, Access)> := None;
    ghost var at := 0;
    for k := 0 to |grants|
      invariant best.None? ==> forall j :: 0 <= j < k ==> !GrantCovers(grants[j], path)
      invariant best.Some? ==> at < k && Deciding(grants[..k], path, at)
                               && best.value == (|Trim(grants[at].prefix)|, grants[at].access)
    {
      var prefix := Trim(grants[k].prefix);
      if prefix == "" || Covers(prefix, path) {
        if best.None? || |prefix| > best.value.0 {
          best := Some((|prefix|, grants[k].access));
          at := k;
        }
      }
    }
    assert grants[..|grants|] == grants;
    answer := if best.Some? then Some(best.value.1) else None;
    assert best.Some? ==> Deciding(grants, path, at);
  }

  /** Climbing from any covering grant to longer or earlier ones ends at a deciding one. */
  lemma {:induction false} SomeGrantDecides(grants: seq<PathGrant>, path: string, j: nat) returns (i: nat)
    requires j < |grants| && GrantCovers(grants[j], path)
    ensures Deciding(grants, path, i)
    decreases |path| - |Trim(grants[j].prefix)|, j
  {
    if Deciding(grants, path, j) {
      i := j;
    } else {
      var k :| 0 <= k < |grants| && GrantCovers(grants[k], path)
               && (|Trim(grants[k].prefix)| > |Trim(grants[j].prefix)|
                   || (|Trim(grants[k].prefix)| == |Trim(grants[j].prefix)| && k < j));
      i := SomeGrantDecides(grants, path, k);
    }
  }

  lemma SaysSomething(grants: seq<PathGrant>, path: string) returns (answer: Option<Access>)
    ensures Says(grants, path, answer)
  {
    answer := None;
    if j :| 0 <= j < |grants| && GrantCovers(grants[j], path) {
      var i := SomeGrantDecides(grants, path, j);
      answer := Some(grants[i].access);
    }
  }

  /** The grants say one thing only. */
  lemma SaysOneThing(grants: seq<PathGrant>, path: string, a: Option<Access>, b: Option<Access>)
    requires Says(grants, path, a) && Says(grants, path, b)
    ensures a == b
  {
    if a.Some? && b.Some? {
      var i :| Deciding(grants, path, i) && grants[i].access == a.value;
      var j :| Deciding(grants, path, j) && grants[j].access == b.value;
      assert i == j;
    }
  }

  /** Two grants that cover a path with prefixes of equal length have the same prefix. */
  lemma EqualLengthSamePrefix(g: PathGrant, h: PathGrant, path: string)
    requires GrantCovers(g, path) && GrantCovers(h, path) && |Trim(g.prefix)| == |Trim(h.prefix)|
    ensures Trim(g.prefix) == Trim(h.prefix)
  {
    if Trim(g.prefix) != "" {
      UnderIsChain(Trim(g.prefix), Trim(h.prefix), path, '/');
    }
  }

  /** The deciding grant is the innermost: every other grant that covers the path covers its prefix too. */
  lemma DecidingIsInnermost(grants: seq<PathGrant>, path: string, i: int, j: int)
    requires Deciding(grants, path, i) && 0 <= j < |grants| && GrantCovers(grants[j], path)
    ensures GrantCovers(grants[j], Trim(grants[i].prefix))
  {
    if Trim(grants[j].prefix) != "" {
      UnderIsChain(Trim(grants[j].prefix), Trim(grants[i].prefix), path, '/');
    }
  }

  /** Grants with the same trimmed prefix agree on the access. */
  predicate Unambiguous(grants: seq<PathGrant>) {
    forall i, j :: 0 <= i < |grants| && 0 <= j < |grants| && Trim(grants[i].prefix) == Trim(grants[j].prefix)
      ==> grants[i].access == grants[j].access
  }

  /** Every list of the same grants gives the same answers. */
  ghost predicate OrderFree(grants: seq<PathGrant>) {
    forall other, path, a, b ::
      multiset(other) == multiset(grants) && Says(grants, path, a) && Says(other, path, b) ==> a == b
  }

  lemma SameElements(grants: seq<PathGrant>, other: seq<PathGrant>, i: nat)
    requires multiset(other) == multiset(grants) && i < |grants|
    ensures exists j :: 0 <= j < |other| && other[j] == grants[i]
  {
    assert grants[i] in multiset(other);
  }

  lemma CoveredToo(grants: seq<PathGrant>, other: seq<PathGrant>, path: string)
    requires multiset(other) == multiset(grants) && exists j :: 0 <= j < |other| && GrantCovers(other[j], path)
    ensures exists i :: 0 <= i < |grants| && GrantCovers(grants[i], path)
  {
    var j :| 0 <= j < |other| && GrantCovers(other[j], path);
    SameElements(other, grants, j);
  }

  lemma SameAnswer(grants: seq<PathGrant>, other: seq<PathGrant>, path: string, a: Option<Access>, b: Option<Access>)
    requires multiset(other) == multiset(grants) && Unambiguous(grants)
    requires Says(grants, path, a) && Says(other, path, b)
    ensures a == b
  {
    if b.Some? {
      CoveredToo(grants, other, path);
    }
    if a.Some? {
      CoveredToo(other, grants, path);
      var i :| Deciding(grants, path, i) && grants[i].access == a.value;
      var j :| Deciding(other, path, j) && other[j].access == b.value;
      SameElements(grants, other, i);
      SameElements(other, grants, j);
      EqualLengthSamePrefix(grants[i], other[j], path);
    }
  }

  /** The same grants with the one at `i` moved to the front, which then decides its own prefix. */
  lemma FrontDecides(grants: seq<PathGrant>, i: nat) returns (other: seq<PathGrant>)
    requires i < |grants|
    ensures multiset(other) == multiset(grants)
    ensures Says(other, Trim(grants[i].prefix), Some(grants[i].access))
  {
    other := [grants[i]] + grants[..i] + grants[i + 1..];
    assert grants == grants[..i] + [grants[i]] + grants[i + 1..];
    assert Deciding(other, Trim(grants[i].prefix), 0);
  }

  /** The order of the grants never matters exactly when no two share a trimmed prefix and differ in access. */
  lemma OrderFreeIffUnambiguous(grants: seq<PathGrant>)
    ensures OrderFree(grants) <==> Unambiguous(grants)
  {
    if Unambiguous(grants) {
      forall other, path, a, b | multiset(other) == multiset(grants) && Says(grants, path, a) && Says(other, path, b)
        ensures a == b
      {
        SameAnswer(grants, other, path, a, b);
      }
    } else {
      var i, j :| 0 <= i < |grants| && 0 <= j < |grants| && Trim(grants[i].prefix) == Trim(grants[j].prefix)
                  && grants[i].access != grants[j].access;
      var path := Trim(grants[i].prefix);
      var first := FrontDecides(grants, i);
      var second := FrontDecides(grants, j);
      var a := SaysSomething(grants, path);
    }
  }

  // ----- Dispatch -----

  datatype Effect = Observation | Action

  datatype CredentialRef = CredentialRef(level: Level, id: string)

  datatype Call = Call(
    user: string, namespace: string, operation: string, effect: Effect, resource: Option<string>,
    credential: Option<CredentialRef>, runId: Option<string>)

  function Name(c: Call): string {
    c.namespace + "." + c.operation
  }

  datatype Lookup<T> = Unavailable | Found(value: T)

  /** What the pinned profile, if any, says: whether a profile grant allows the namespace, and its own target. */
  datatype Profile = NotPinned | Pinned(granted: bool, target: Lookup<Option<string>>)

  datatype Layers = Layers(invoker: seq<string>, app: Option<seq<string>>, profile: Profile, run: Option<seq<string>>)

  datatype Row = Row(capability: string, resourcePattern: Option<string>, level: Option<Level>)

  datatype Connection = Connection(level: Level, createdBy: string, provider: string)

  datatype Reason = Capability | CredentialUnconnected

  datatype Decision = Allow | Deny(reason: Reason) | Queue(queuedActionId: string) | Ask(cardId: string)

  predicate CapabilityCovered(patterns: seq<string>, call: string) {
    patterns != [] && MatchesCapability(patterns, call)
  }

  predicate ProfileOk(p: Profile, namespace: string) {
    match p
    case NotPinned => true
    case Pinned(granted, Unavailable) => false
    case Pinned(granted, Found(None)) => granted
    case Pinned(granted, Found(Some(target))) => granted && (target == namespace || target == "*")
  }

  predicate LayersOk(l: Layers, c: Call) {
    && CapabilityCovered(l.invoker, Name(c))
    && (l.app.Some? ==> CapabilityCovered(l.app.value, Name(c)))
    && ProfileOk(l.profile, c.namespace)
    && (l.run.Some? ==> CapabilityCovered(l.run.value, Name(c)))
  }

  predicate Connects(k: Connection, c: Call) {
    k.level == UserOauth && k.createdBy == c.user && (k.provider == c.namespace || c.namespace == "")
  }

  predicate Connected(c: Call, stored: Lookup<seq<Connection>>) {
    || (c.credential.Some? && c.credential.value.id != "")
    || (stored.Found? && exists i :: 0 <= i < |stored.value| && Connects(stored.value[i], c))
  }

  /** A user-oauth call goes no further unless its user is connected. */
  predicate MustConnect(c: Call, stored: Lookup<seq<Connection>>) {
    c.credential.Some? && c.credential.value.level == UserOauth && !Connected(c, stored)
  }

  function ForCapability(rows: seq<Row>, call: string): seq<Row> {
    if rows == [] then []
    else (if PatternMatches(rows[0].capability, call) then [rows[0]] else []) + ForCapability(rows[1..], call)
  }

  predicate ResourceMatches(row: Row, resource: Option<string>, matches: (string, string) -> bool) {
    row.resourcePattern.None? || (resource.Some? && matches(row.resourcePattern.value, resource.value))
  }

  function Matched(rows: seq<Row>, resource: Option<string>, matches: (string, string) -> bool): seq<Row> {
    if rows == [] then []
    else (if ResourceMatches(rows[0], resource, matches) then [rows[0]] else []) + Matched(rows[1..], resource, matches)
  }

  predicate HasLevel(rows: seq<Row>, level: Level) {
    exists i :: 0 <= i < |rows| && rows[i].level == Some(level)
  }

  /** `id` is the fresh identifier a card or a queued action would get. */
  function Evaluate(
    c: Call, l: Layers, stored: Lookup<seq<Connection>>, rows: Lookup<seq<Row>>, matches: (string, string) -> bool,
    id: string): Decision
  {
    if MustConnect(c, stored) then Deny(CredentialUnconnected)
    else if !LayersOk(l, c) then if c.runId.Some? then Ask(id) else Deny(Capability)
    else if c.effect == Observation then Allow
    else
      var forCap := ForCapability(if rows.Found? then rows.value else [], Name(c));
      var matched := Matched(forCap, c.resource, matches);
      if forCap == [] then Allow
      else if matched == [] then Queue(id)
      else if c.credential.Some? && !HasLevel(matched, c.credential.value.level) && HasLevel(matched, UserOauth)
      then Deny(CredentialUnconnected)
      else Allow
  }

  /** The decision with its one effect: a queued call is stored in the action queue. */
  method EvaluateDispatch(
    c: Call, l: Layers, stored: Lookup<seq<Connection>>, rows: Lookup<seq<Row>>, matches: (string, string) -> bool,
    queue: ActionQueue.Store, id: string, now: int) returns (d: Decision)
    modifies queue
    ensures d == Evaluate(c, l, stored, rows, matches, id)
    ensures queue.Value() ==
            if d.Queue? then ActionQueue.Enqueue(old(queue.Value()), ActionQueue.Request(c.user, c.runId), id, now)
            else old(queue.Value())
  {
    if MustConnect(c, stored) {
      return Deny(CredentialUnconnected);
    }
    if !LayersOk(l, c) {
      if c.runId.Some? {
        return Ask(id);
      }
      return Deny(Capability);
    }
    if c.effect == Observation {
      return Allow;
    }
    var forCap := ForCapability(if rows.Found? then rows.value else [], Name(c));
    if forCap == [] {
      return Allow;
    }
    var matched := Matched(forCap, c.resource, matches);
    if matched == [] {
      queue.EnqueueQueuedAction(ActionQueue.Request(c.user, c.runId), id, now);
      return Queue(id);
    }
    if c.credential.Some? {
      if !HasLevel(matched, c.credential.value.level) && HasLevel(matched, UserOauth) {
        return Deny(CredentialUnconnected);
      }
    }
    return Allow;
  }

  // ----- What the decision means, row by row -----

  /** A row names the call's capability. */
  predicate Names(row: Row, c: Call) {
    PatternMatches(row.capability, Name(c))
  }

  /** A row opens the call: it names the capability and matches the resource. */
  predicate OpensCall(row: Row, c: Call, matches: (string, string) -> bool) {
    Names(row, c) && ResourceMatches(row, c.resource, matches)
  }

  lemma {:induction false} ForCapabilityHas(rows: seq<Row>, call: string, row: Row)
    ensures row in ForCapability(rows, call) <==> row in rows && PatternMatches(row.capability, call)
  {
    if rows != [] {
      ForCapabilityHas(rows[1..], call, row);
      assert rows == [rows[0]] + rows[1..];
    }
  }

  lemma {:induction false} MatchedHas(
    rows: seq<Row>, resource: Option<string>, matches: (string, string) -> bool, row: Row)
    ensures row in Matched(rows, resource, matches) <==> row in rows && ResourceMatches(row, resource, matches)
  {
    if rows != [] {
      MatchedHas(rows[1..], resource, matches, row);
      assert rows == [rows[0]] + rows[1..];
    }
  }

  lemma LevelHas(rows: seq<Row>, level: Level)
    ensures HasLevel(rows, level) <==> exists r | r in rows :: r.level == Some(level)
  {
  }

  function Rows(rows: Lookup<seq<Row>>): seq<Row> {
    if rows.Found? then rows.value else []
  }

  /**
   * With every layer passed, the rows that name the capability decide: none, or one that opens the
   * call at a usable level.
   */
  ghost predicate RowsAllow(rows: seq<Row>, c: Call, matches: (string, string) -> bool) {
    || (forall r | r in rows :: !Names(r, c))
    || ((exists r | r in rows :: OpensCall(r, c, matches))
        && (c.credential.None?
            || (exists r | r in rows :: OpensCall(r, c, matches) && r.level == Some(c.credential.value.level))
            || (forall r | r in rows :: OpensCall(r, c, matches) ==> r.level != Some(UserOauth))))
  }

  ghost predicate RowsQueue(rows: seq<Row>, c: Call, matches: (string, string) -> bool) {
    (exists r | r in rows :: Names(r, c)) && forall r | r in rows :: !OpensCall(r, c, matches)
  }

  /**
   * Exactly when a call is allowed, queued, asked about or refused; only which rows there are
   * matters, not their order.
   */
  lemma DecisionExact(
    c: Call, l: Layers, stored: Lookup<seq<Connection>>, rows: Lookup<seq<Row>>, matches: (string, string) -> bool,
    id: string)
    ensures var d := Evaluate(c, l, stored, rows, matches, id);
            var passed := !MustConnect(c, stored) && LayersOk(l, c);
            && (d == Allow <==> passed && (c.effect == Observation || RowsAllow(Rows(rows), c, matches)))
            && (d.Queue? <==> passed && c.effect == Action && RowsQueue(Rows(rows), c, matches))
            && (d.Ask? <==> !MustConnect(c, stored) && !LayersOk(l, c) && c.runId.Some?)
            && (d == Deny(Capability) <==> !MustConnect(c, stored) && !LayersOk(l, c) && c.runId.None?)
            && (d.Queue? ==> d == Queue(id))
  {
    var all := Rows(rows);
    var forCap := ForCapability(all, Name(c));
    var matched := Matched(forCap, c.resource, matches);
    forall row ensures row in forCap <==> row in all && Names(row, c) {
      ForCapabilityHas(all, Name(c), row);
    }
    forall row ensures row in matched <==> row in all && OpensCall(row, c, matches) {
      MatchedHas(forCap, c.resource, matches, row);
    }
    assert forCap != [] ==> forCap[0] in forCap;
    assert matched != [] ==> matched[0] in matched;
    forall level
      ensures HasLevel(matched, level) <==> exists r | r in all :: OpensCall(r, c, matches) && r.level == Some(level)
    {
      LevelHas(matched, level);
    }
  }

  /**
   * The dispatch, decided from what was found in storage: a user-oauth call without a named
   * credential needs a connection of its own user; each of the four layers must cover the call;
   * an action then needs a row that names it and matches its resource, if any row names it.
   */
  lemma DispatchExact(
    c: Call, l: Layers, stored: Lookup<seq<Connection>>, rows: Lookup<seq<Row>>, matches: (string, string) -> bool,
    id: string, unconnected: bool, covered: bool, opening: set<Row>)
    requires unconnected <==>
               && c.credential == Some(CredentialRef(UserOauth, ""))
               && !(stored.Found? && exists k | k in stored.value ::
                      k.level == UserOauth && k.createdBy == c.user && (k.provider == c.namespace || c.namespace == ""))
    requires covered <==>
               var call := c.namespace + "." + c.operation;
               && (exists p | p in l.invoker :: PatternMatches(p, call))
               && (l.app.Some? ==> exists p | p in l.app.value :: PatternMatches(p, call))
               && (l.run.Some? ==> exists p | p in l.run.value :: PatternMatches(p, call))
               && match l.profile
                  case NotPinned => true
                  case Pinned(granted, target) =>
                    granted && target.Found?
                    && (target.value == None || target.value == Some(c.namespace) || target.value == Some("*"))
    requires forall r :: r in opening <==>
               && r in Rows(rows) && PatternMatches(r.capability, c.namespace + "." + c.operation)
               && (r.resourcePattern.None? || (c.resource.Some? && matches(r.resourcePattern.value, c.resource.value)))
    ensures var d := Evaluate(c, l, stored, rows, matches, id);
            var named := exists r | r in Rows(rows) :: PatternMatches(r.capability, c.namespace + "." + c.operation);
            var misrouted :=
              && c.credential.Some? && (exists r | r in opening :: r.level == Some(UserOauth))
              && forall r | r in opening :: r.level != Some(c.credential.value.level);
            && (d == Deny(CredentialUnconnected) <==> unconnected || (covered && c.effect == Action && misrouted))
            && (d == Deny(Capability) <==> !unconnected && !covered && c.runId == None)
            && (d == Ask(id) <==> !unconnected && !covered && c.runId != None)
            && (d == Queue(id) <==> !unconnected && covered && c.effect == Action && opening == {} && named)
            && (d == Allow <==>
                 && !unconnected && covered
                 && (c.effect == Observation || (opening != {} && !misrouted) || !named))
  {
    GateExact(c, stored);
    LayersExact(l, c);
    DecisionExact(c, l, stored, rows, matches, id);
    assert forall r :: r in opening <==> r in Rows(rows) && OpensCall(r, c, matches);
    RowsExact(Rows(rows), c, matches, opening);
  }

  lemma GateExact(c: Call, stored: Lookup<seq<Connection>>)
    ensures MustConnect(c, stored) <==>
              && c.credential == Some(CredentialRef(UserOauth, ""))
              && !(stored.Found? && exists k | k in stored.value ::
                     k.level == UserOauth && k.createdBy == c.user && (k.provider == c.namespace || c.namespace == ""))
  {
  }

  lemma LayersExact(l: Layers, c: Call)
    ensures var call := c.namespace + "." + c.operation;
            LayersOk(l, c) <==>
              && (exists p | p in l.invoker :: PatternMatches(p, call))
              && (l.app.Some? ==> exists p | p in l.app.value :: PatternMatches(p, call))
              && (l.run.Some? ==> exists p | p in l.run.value :: PatternMatches(p, call))
              && match l.profile
                 case NotPinned => true
                 case Pinned(granted, target) =>
                   granted && target.Found?
                   && (target.value == None || target.value == Some(c.namespace) || target.value == Some("*"))
  {
    CoveredBySome(l.invoker, Name(c));
    if l.app.Some? {
      CoveredBySome(l.app.value, Name(c));
    }
    if l.run.Some? {
      CoveredBySome(l.run.value, Name(c));
    }
  }

  lemma CoveredBySome(patterns: seq<string>, call: string)
    ensures CapabilityCovered(patterns, call) <==> exists p | p in patterns :: PatternMatches(p, call)
  {
  }

  lemma RowsExact(all: seq<Row>, c: Call, matches: (string, string) -> bool, opening: set<Row>)
    requires forall r :: r in opening <==> r in all && OpensCall(r, c, matches)
    ensures opening == {} <==> forall r | r in all :: !OpensCall(r, c, matches)
    ensures RowsQueue(all, c, matches) <==> opening == {} && exists r | r in all :: Names(r, c)
    ensures opening != {} ==> exists r | r in all :: Names(r, c)
  {
    if opening == {} {
      assert forall r | r in all :: r !in opening;
    } else {
      var r :| r in opening;
    }
  }

  /** Connections of other users make no difference to a dispatch. */
  lemma OthersConnectionsIgnored(
    c: Call, l: Layers, some: seq<Connection>, others: seq<Connection>, rows: Lookup<seq<Row>>,
    matches: (string, string) -> bool, id: string)
    requires forall k: Connection :: k.createdBy == c.user ==> (k in some <==> k in others)
    ensures Evaluate(c, l, Found(some), rows, matches, id) == Evaluate(c, l, Found(others), rows, matches, id)
  {
    GateExact(c, Found(some));
    GateExact(c, Found(others));
  }

  // ----- Narrowing -----

  /** Every call the first pattern list covers, the second covers. */
  ghost predicate NarrowerList(narrow: seq<string>, wide: seq<string>) {
    forall call :: CapabilityCovered(narrow, call) ==> CapabilityCovered(wide, call)
  }

  ghost predicate NarrowerOption(narrow: Option<seq<string>>, wide: Option<seq<string>>) {
    wide.Some? ==> narrow.Some? && NarrowerList(narrow.value, wide.value)
  }

  ghost predicate Narrower(narrow: Layers, wide: Layers) {
    && NarrowerList(narrow.invoker, wide.invoker)
    && NarrowerOption(narrow.app, wide.app)
    && NarrowerOption(narrow.run, wide.run)
    && forall ns :: ProfileOk(narrow.profile, ns) ==> ProfileOk(wide.profile, ns)
  }

  /**
   * Narrowing any layer leaves the decision as it was or makes it a capability refusal: it never
   * allows or queues anew.
   */
  lemma NarrowingOnlyRefuses(
    c: Call, narrow: Layers, wide: Layers, stored: Lookup<seq<Connection>>, rows: Lookup<seq<Row>>,
    matches: (string, string) -> bool, id: string)
    requires Narrower(narrow, wide)
    ensures var d, was := Evaluate(c, narrow, stored, rows, matches, id), Evaluate(c, wide, stored, rows, matches, id);
            d == was || d == if c.runId.Some? then Ask(id) else Deny(Capability)
  {
    if LayersOk(narrow, c) {
      assert CapabilityCovered(wide.invoker, Name(c));
      assert wide.app.Some? ==> CapabilityCovered(wide.app.value, Name(c));
      assert wide.run.Some? ==> CapabilityCovered(wide.run.value, Name(c));
      assert LayersOk(wide, c);
    }
  }

  /** A list narrows another when each of its patterns is narrower than one of the other's. */
  lemma PatternwiseNarrower(narrow: seq<string>, wide: seq<string>)
    requires forall i :: 0 <= i < |narrow| ==> exists j :: 0 <= j < |wide| && AtLeastAsWide(wide[j], narrow[i])
    ensures NarrowerList(narrow, wide)
  {
    forall call | CapabilityCovered(narrow, call) ensures CapabilityCovered(wide, call) {
      var i :| 0 <= i < |narrow| && PatternMatches(narrow[i], call);
      var j :| 0 <= j < |wide| && AtLeastAsWide(wide[j], narrow[i]);
      WiderCoversMore(wide[j], narrow[i], call);
    }
  }

  /** An observation is decided without the rows, and is never queued. */
  lemma ObservationsIgnoreRows(
    c: Call, l: Layers, stored: Lookup<seq<Connection>>, rows: Lookup<seq<Row>>, others: Lookup<seq<Row>>,
    matches: (string, string) -> bool, id: string)
    requires c.effect == Observation
    ensures Evaluate(c, l, stored, rows, matches, id) == Evaluate(c, l, stored, others, matches, id)
    ensures !Evaluate(c, l, stored, rows, matches, id).Queue?
  {
    DecisionExact(c, l, stored, rows, matches, id);
  }

  /**
   * Adding rows to an allowed call: it is queued afterwards exactly when no row named the
   * capability before and, of the new ones, some do but none opens the call.
   */
  lemma AddingRows(
    c: Call, l: Layers, stored: Lookup<seq<Connection>>, rows: seq<Row>, more: seq<Row>,
    matches: (string, string) -> bool, id: string)
    requires c.effect == Action && Evaluate(c, l, stored, Found(rows), matches, id) == Allow
    ensures var d := Evaluate(c, l, stored, Found(rows + more), matches, id);
            && (d.Queue? <==> (forall r | r in rows :: !Names(r, c)) && RowsQueue(more, c, matches))
            && (c.credential.None? ==> d == Allow || d.Queue?)
            && (d == Allow || d.Queue? || d == Deny(CredentialUnconnected))
  {
    DecisionExact(c, l, stored, Found(rows), matches, id);
    DecisionExact(c, l, stored, Found(rows + more), matches, id);
    assert forall r :: r in rows + more <==> r in rows || r in more;
  }

  // ----- Remembering a pattern -----

  /** The row that releasing a queued call with a remembered pattern stores. */
  function RememberedRow(c: Call, pattern: string): Row {
    Row(Name(c), Some(pattern), Some(if c.credential.Some? then c.credential.value.level else WorkspaceToken))
  }

  /** The layers it is then re-evaluated under. */
  function ReleaseLayers(c: Call, viaApp: bool, profile: Profile): Layers {
    Layers([Name(c)], if viaApp then Some([Name(c)]) else None, profile, None)
  }

  /**
   * A call that was queued for its resource and is released with a remembered pattern is
   * allowed exactly when it has a resource, the pattern matches it, the profile still
   * allows it and a user-oauth caller is connected; when only the pattern fails, it is
   * queued once more.
   */
  lemma RememberedPatternOpens(
    c: Call, l: Layers, then_: Lookup<seq<Connection>>, rows: seq<Row>, matches: (string, string) -> bool, id: string,
    pattern: string, viaApp: bool, profile: Profile, stored: Lookup<seq<Connection>>)
    requires Evaluate(c, l, then_, Found(rows), matches, id).Queue?
    ensures var all := rows + [RememberedRow(c, pattern)];
            var d := Evaluate(c, ReleaseLayers(c, viaApp, profile), stored, Found(all), matches, id);
            var passed := !MustConnect(c, stored) && ProfileOk(profile, c.namespace);
            var fits := c.resource.Some? && matches(pattern, c.resource.value);
            (d == Allow <==> passed && fits) && (d.Queue? <==> passed && !fits)
  {
    var row := RememberedRow(c, pattern);
    var all := rows + [row];
    CallMatchesItself(Name(c));
    DecisionExact(c, l, then_, Found(rows), matches, id);
    DecisionExact(c, ReleaseLayers(c, viaApp, profile), stored, Found(all), matches, id);
    assert row in all && Names(row, c);
    assert forall r :: r in all <==> r in rows || r == row;
    assert PatternMatches([Name(c)][0], Name(c));
    assert LayersOk(ReleaseLayers(c, viaApp, profile), c) <==> ProfileOk(profile, c.namespace);
  }
}
