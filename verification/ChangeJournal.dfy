/**
 * The workspace change journal (server/workspace/src/change-journal.ts): a bounded ring
 * per workspace that answers what an unbounded log would, or says it cannot.
 */
module ChangeJournal {
  import opened Common

  datatype Kind = Update | Delete
  datatype FsChange = FsChange(path: string, kind: Kind)
  /** A recorded mutation; scope "" is the live tree, any other scope one staged session. */
  datatype Change = Change(what: FsChange, scope: string)
  datatype Entry = Entry(change: Change, cursor: nat)
  datatype Journal = Journal(cursor: nat, entries: seq<Entry>)

  const RING_CAPACITY: nat := 1000
  const NEW_JOURNAL := Journal(0, [])

  /** A poll token as it arrives: missing, not a number, or any number. */
  datatype Since = Missing | NotANumber | Number(at: real)
  datatype Answer = Answer(cursor: nat, reset: bool, changes: seq<FsChange>)

  function Recorded(j: Journal, c: Change): Journal {
    var pushed := j.entries + [Entry(c, j.cursor + 1)];
    Journal(j.cursor + 1, if |pushed| > RING_CAPACITY then pushed[|pushed| - RING_CAPACITY..] else pushed)
  }

  predicate Visible(c: Change, scope: string) {
    c.scope == "" || c.scope == scope
  }

  /** The visible changes among retained entries with cursors above `after`. */
  function Delta(entries: seq<Entry>, scope: string, after: int): seq<FsChange> {
    if entries == [] then []
    else
      var last := entries[|entries| - 1];
      Delta(entries[..|entries| - 1], scope, after)
        + if last.cursor > after && Visible(last.change, scope) then [last.change.what] else []
  }

  predicate ValidSince(j: Journal, since: Since) {
    since.Number? && 0.0 <= since.at <= j.cursor as real
  }

  /** Cursors are whole, so a fractional token acts as its floor. */
  function ChangesOf(j: Journal, scope: string, since: Since): Answer {
    if !ValidSince(j, since) then Answer(j.cursor, true, [])
    else if since.at.Floor < Oldest(j) - 1 then Answer(j.cursor, true, [])
    else Answer(j.cursor, false, Delta(j.entries, scope, since.at.Floor))
  }

  lemma FloorDecides(c: int, at: real)
    ensures c as real > at <==> c > at.Floor
    ensures at < c as real - 1.0 <==> at.Floor < c - 1
  {
    assert (c - 1) as real == c as real - 1.0;
  }

  // ----- The object -----

  class Journals {
    var journals: map<string, Journal>

    constructor ()
      ensures journals == map[]
    {
      journals := map[];
    }

    /** The journal of a workspace; one that was never touched is new. */
    ghost function Of(workspace: string): Journal
      reads this
    {
      Get(journals, workspace).GetOr(NEW_JOURNAL)
    }

    method GetJournal(workspace: string) returns (j: Journal)
      modifies this
      ensures j == old(Of(workspace)) && workspace in journals
      ensures forall w :: Of(w) == old(Of(w))
    {
      if workspace !in journals {
        journals := journals[workspace := NEW_JOURNAL];
      }
      j := journals[workspace];
    }

    method RecordChange(workspace: string, scope: string, path: string, kind: Kind)
      modifies this
      ensures Of(workspace) == Recorded(old(Of(workspace)), Change(FsChange(path, kind), scope))
      ensures forall w :: w != workspace ==> Of(w) == old(Of(w))
    {
      var j := GetJournal(workspace);
      var cursor := j.cursor + 1;
      var entries := j.entries + [Entry(Change(FsChange(path, kind), scope), cursor)];
      if |entries| > RING_CAPACITY {
        entries := entries[|entries| - RING_CAPACITY..];
      }
      journals := journals[workspace := Journal(cursor, entries)];
    }

    method CurrentCursor(workspace: string) returns (cursor: nat)
      ensures cursor == Of(workspace).cursor
    {
      cursor := if workspace in journals then journals[workspace].cursor else 0;
    }

    method ChangesSince(workspace: string, scope: string, since: Since) returns (answer: Answer)
      modifies this
      ensures answer == ChangesOf(old(Of(workspace)), scope, since)
      ensures forall w :: Of(w) == old(Of(w))
    {
      var j := GetJournal(workspace);
      if since.Missing? || since.NotANumber? || since.at < 0.0 || since.at > j.cursor as real {
        return Answer(j.cursor, true, []);
      }
      var oldestRetained := if |j.entries| > 0 then j.entries[0].cursor else j.cursor + 1;
      FloorDecides(oldestRetained, since.at);
      if since.at < oldestRetained as real - 1.0 {
        return Answer(j.cursor, true, []);
      }
      var changes: seq<FsChange> := [];
      for i := 0 to |j.entries|
        invariant changes == Delta(j.entries[..i], scope, since.at.Floor)
        invariant forall w :: Of(w) == old(Of(w))
      {
        var entry := j.entries[i];
        assert j.entries[..i + 1][..i] == j.entries[..i];
        FloorDecides(entry.cursor, since.at);
        if entry.cursor as real > since.at && (entry.change.scope == "" || entry.change.scope == scope) {
          changes := changes + [entry.change.what];
        }
      }
      assert j.entries[..|j.entries|] == j.entries;
      return Answer(j.cursor, false, changes);
    }
  }

  // ----- The unbounded log -----

  /** How many entries of the log have been evicted. */
  function Evicted(log: seq<Change>): nat {
    if |log| > RING_CAPACITY then |log| - RING_CAPACITY else 0
  }

  /** The `i`-th retained entry is the log's, with its position plus one as cursor. */
  predicate Retains(j: Journal, log: seq<Change>, i: nat)
    requires i < |j.entries| == |log| - Evicted(log)
  {
    j.entries[i] == Entry(log[Evicted(log) + i], Evicted(log) + i + 1)
  }

  /** The ring holds the end of the log, with contiguous cursors ending at the current one. */
  predicate Represents(j: Journal, log: seq<Change>) {
    && j.cursor == |log|
    && |j.entries| == |log| - Evicted(log)
    && forall i :: 0 <= i < |j.entries| ==> Retains(j, log, i)
  }

  function RecordAll(j: Journal, cs: seq<Change>): Journal {
    if cs == [] then j else Recorded(RecordAll(j, cs[..|cs| - 1]), cs[|cs| - 1])
  }

  lemma RecordRefines(j: Journal, log: seq<Change>, c: Change)
    requires Represents(j, log)
    ensures Represents(Recorded(j, c), log + [c])
  {
    var after, all := Recorded(j, c), log + [c];
    var shift := Evicted(all) - Evicted(log);
    forall i | 0 <= i < |after.entries| ensures Retains(after, all, i)
    {
      if i + shift < |j.entries| {
        assert Retains(j, log, i + shift);
        assert after.entries[i] == j.entries[i + shift] && all[Evicted(all) + i] == log[Evicted(all) + i];
      }
    }
  }

  lemma {:induction false} RecordAllRefines(j: Journal, log: seq<Change>, cs: seq<Change>)
    requires Represents(j, log)
    ensures Represents(RecordAll(j, cs), log + cs)
    decreases |cs|
  {
    if cs == [] {
      assert log + cs == log;
    } else {
      var front := cs[..|cs| - 1];
      RecordAllRefines(j, log, front);
      RecordRefines(RecordAll(j, front), log + front, cs[|cs| - 1]);
      assert log + cs == (log + front) + [cs[|cs| - 1]];
    }
  }

  /** What an unbounded log answers: every visible entry whose cursor (its position plus one) exceeds the token. */
  function LogDelta(log: seq<Change>, scope: string, after: int): seq<FsChange> {
    if log == [] then []
    else
      LogDelta(log[..|log| - 1], scope, after)
        + if |log| > after && Visible(log[|log| - 1], scope) then [log[|log| - 1].what] else []
  }

  lemma {:induction false} LogDeltaOfOldEntries(log: seq<Change>, scope: string, after: int)
    requires |log| <= after
    ensures LogDelta(log, scope, after) == []
    decreases |log|
  {
    if log != [] {
      LogDeltaOfOldEntries(log[..|log| - 1], scope, after);
    }
  }

  /** The first `n` retained entries give what the log gives up to the same point. */
  lemma {:induction false} DeltaIsLogDelta(j: Journal, log: seq<Change>, scope: string, after: int, n: nat)
    requires Represents(j, log) && n <= |j.entries| && Evicted(log) <= after
    ensures Delta(j.entries[..n], scope, after) == LogDelta(log[..Evicted(log) + n], scope, after)
    decreases n
  {
    var upTo := log[..Evicted(log) + n];
    if n == 0 {
      LogDeltaOfOldEntries(upTo, scope, after);
    } else {
      DeltaIsLogDelta(j, log, scope, after, n - 1);
      assert j.entries[..n][..n - 1] == j.entries[..n - 1];
      assert upTo[..|upTo| - 1] == log[..Evicted(log) + n - 1];
      assert Retains(j, log, n - 1);
    }
  }

  /** The entry with cursor `c` comes after the token and is no longer retained. */
  predicate LostAfter(log: seq<Change>, after: int, c: nat) {
    after < c && c <= Evicted(log)
  }

  /** The cursor of the oldest retained entry, or of the next one while there is none. */
  function Oldest(j: Journal): nat {
    if j.entries == [] then j.cursor + 1 else j.entries[0].cursor
  }

  /** The ring answers from the log whenever nothing after the token has been evicted. */
  lemma AnswerFromLog(j: Journal, log: seq<Change>, scope: string, since: Since)
    requires Represents(j, log)
    ensures var answer := ChangesOf(j, scope, since);
            if ValidSince(j, since) && Evicted(log) <= since.at.Floor
            then answer == Answer(|log|, false, LogDelta(log, scope, since.at.Floor))
            else answer == Answer(|log|, true, [])
  {
    assert j.entries != [] ==> Retains(j, log, 0);
    assert Oldest(j) == Evicted(log) + 1;
    if ValidSince(j, since) && Evicted(log) <= since.at.Floor {
      DeltaIsLogDelta(j, log, scope, since.at.Floor, |j.entries|);
      assert j.entries[..|j.entries|] == j.entries;
      assert log[..Evicted(log) + |j.entries|] == log;
    }
  }

  /**
   * The ring refines the log: for every token and scope it answers exactly what the
   * unbounded log answers, and refuses exactly when the token is invalid or some entry
   * after it has been evicted.
   */
  lemma RingRefinesLog(cs: seq<Change>, scope: string, since: Since)
    ensures var j := RecordAll(NEW_JOURNAL, cs);
            var answer := ChangesOf(j, scope, since);
            && Represents(j, cs)
            && answer.cursor == |cs|
            && (answer.reset <==>
                 || since == Missing || since == NotANumber || since.at < 0.0 || since.at > |cs| as real
                 || exists c: nat :: LostAfter(cs, since.at.Floor, c))
            && (answer.reset ==> answer.changes == [])
            && (!answer.reset ==> answer.changes == LogDelta(cs, scope, since.at.Floor))
  {
    var j := RecordAll(NEW_JOURNAL, cs);
    RecordAllRefines(NEW_JOURNAL, [], cs);
    assert [] + cs == cs;
    AnswerFromLog(j, cs, scope, since);
    if since.Number? {
      assert since.at.Floor < Evicted(cs) ==> LostAfter(cs, since.at.Floor, Evicted(cs));
    }
  }

  // ----- A polling client -----

  function ApplyChanges(paths: set<string>, changes: seq<FsChange>): set<string> {
    if changes == [] then paths
    else
      var before, last := ApplyChanges(paths, changes[..|changes| - 1]), changes[|changes| - 1];
      if last.kind.Update? then before + {last.path} else before - {last.path}
  }

  /** The last thing that happened to a path in a list of changes. */
  function LastKind(changes: seq<FsChange>, p: string): Option<Kind> {
    if changes == [] then None
    else if changes[|changes| - 1].path == p then Some(changes[|changes| - 1].kind)
    else LastKind(changes[..|changes| - 1], p)
  }

  lemma {:induction false} AppliedByLast(paths: set<string>, changes: seq<FsChange>, p: string)
    ensures p in ApplyChanges(paths, changes) <==>
              match LastKind(changes, p)
              case None => p in paths
              case Some(kind) => kind.Update?
    decreases |changes|
  {
    if changes != [] {
      AppliedByLast(paths, changes[..|changes| - 1], p);
    }
  }

  lemma ApplyOne(paths: set<string>, changes: seq<FsChange>, c: FsChange)
    ensures ApplyChanges(paths, changes + [c])
         == if c.kind.Update? then ApplyChanges(paths, changes) + {c.path} else ApplyChanges(paths, changes) - {c.path}
  {
    assert (changes + [c])[..|changes|] == changes;
  }

  lemma {:induction false} ApplyConcat(paths: set<string>, a: seq<FsChange>, b: seq<FsChange>)
    ensures ApplyChanges(paths, a + b) == ApplyChanges(ApplyChanges(paths, a), b)
    decreases |b|
  {
    if b == [] {
      assert a + b == a;
    } else {
      assert (a + b)[..|a + b| - 1] == a + b[..|b| - 1];
      ApplyConcat(paths, a, b[..|b| - 1]);
    }
  }

  /** Applying the same changes again changes nothing. */
  lemma ApplyTwice(paths: set<string>, changes: seq<FsChange>)
    ensures ApplyChanges(ApplyChanges(paths, changes), changes) == ApplyChanges(paths, changes)
  {
    forall p ensures p in ApplyChanges(ApplyChanges(paths, changes), changes) <==> p in ApplyChanges(paths, changes)
    {
      AppliedByLast(paths, changes, p);
      AppliedByLast(ApplyChanges(paths, changes), changes, p);
    }
  }

  /** Every visible mutation so far, in order, applied to what was there before. */
  function Seen(base: set<string>, log: seq<Change>, scope: string): set<string> {
    ApplyChanges(base, LogDelta(log, scope, 0))
  }

  /** The visible log splits at any token. */
  lemma {:induction false} LogDeltaSplitsAt(log: seq<Change>, scope: string, n: nat, m: nat)
    requires n <= m <= |log|
    ensures LogDelta(log, scope, n) == LogDelta(log[..m], scope, n) + LogDelta(log, scope, m)
    decreases |log|
  {
    if m == |log| {
      LogDeltaOfOldEntries(log, scope, m);
      assert log[..m] == log;
    } else {
      var front := log[..|log| - 1];
      LogDeltaSplitsAt(front, scope, n, m);
      assert front[..m] == log[..m];
    }
  }

  /**
   * A client that has seen everything up to `asOf` but holds an older token catches up
   * exactly, although it is handed changes it already has.
   */
  lemma CatchUp(base: set<string>, log: seq<Change>, scope: string, token: nat, asOf: nat)
    requires token <= asOf <= |log|
    ensures ApplyChanges(Seen(base, log[..asOf], scope), LogDelta(log, scope, token)) == Seen(base, log, scope)
  {
    var held := log[..asOf];
    var known := LogDelta(held, scope, token);
    var early := LogDelta(held[..token], scope, 0);
    var news := LogDelta(log, scope, asOf);
    LogDeltaSplitsAt(held, scope, 0, token);
    ApplyConcat(base, early, known);
    ApplyTwice(ApplyChanges(base, early), known);
    assert ApplyChanges(Seen(base, held, scope), known) == Seen(base, held, scope);
    LogDeltaSplitsAt(log, scope, token, asOf);
    ApplyConcat(Seen(base, held, scope), known, news);
    LogDeltaSplitsAt(log, scope, 0, asOf);
    ApplyConcat(base, LogDelta(held, scope, 0), news);
  }

  // ----- Full listings -----

  /** The mutations recorded for exactly this scope. */
  function Own(log: seq<Change>, scope: string): seq<FsChange> {
    if log == [] then []
    else
      var last := log[|log| - 1];
      Own(log[..|log| - 1], scope) + if last.scope == scope then [last.what] else []
  }

  /** A staged session's overlay: for each path it touched, whether it wrote or deleted it last. */
  function Overlay(changes: seq<FsChange>): map<string, Kind> {
    if changes == [] then map[]
    else Overlay(changes[..|changes| - 1])[changes[|changes| - 1].path := changes[|changes| - 1].kind]
  }

  /** `sessionList`: the snapshot without the deleted paths, and the staged ones. */
  function SessionList(snapshot: set<string>, overlay: map<string, Kind>): set<string> {
    (set p | p in snapshot && Get(overlay, p) != Some(Delete)) + (set p | p in overlay && overlay[p] == Update)
  }

  /**
   * What a reset is answered with.  `base` is, for the live tree, what was stored when the
   * journal began, and for a staged session the snapshot of the commit it is based on:
   * later mutations of the live tree do not enter a session's listing.
   */
  function Listing(base: set<string>, log: seq<Change>, scope: string): set<string> {
    if scope == "" then ApplyChanges(base, Own(log, scope)) else SessionList(base, Overlay(Own(log, scope)))
  }

  lemma {:induction false} OverlayIsFold(snapshot: set<string>, changes: seq<FsChange>)
    ensures SessionList(snapshot, Overlay(changes)) == ApplyChanges(snapshot, changes)
    decreases |changes|
  {
    if changes == [] {
      assert SessionList(snapshot, map[]) == snapshot;
    } else {
      var front, last := changes[..|changes| - 1], changes[|changes| - 1];
      OverlayIsFold(snapshot, front);
      var overlay := Overlay(front);
      forall p ensures p in SessionList(snapshot, overlay[last.path := last.kind])
                       <==> if p == last.path then last.kind.Update? else p in SessionList(snapshot, overlay)
      {
        assert Get(overlay[last.path := last.kind], p) == if p == last.path then Some(last.kind) else Get(overlay, p);
      }
    }
  }

  /** Base plus overlay is the base with the scope's own mutations applied. */
  lemma ListingIsFold(base: set<string>, log: seq<Change>, scope: string)
    ensures Listing(base, log, scope) == ApplyChanges(base, Own(log, scope))
  {
    OverlayIsFold(base, Own(log, scope));
  }

  /** The position of the last visible mutation of `p` from position `from` on. */
  function LastSeen(log: seq<Change>, scope: string, from: nat, p: string): (i: Option<nat>)
    ensures i.Some? ==> from <= i.value < |log| && log[i.value].what.path == p && Visible(log[i.value], scope)
  {
    if |log| <= from then None
    else
      var last := |log| - 1;
      if Visible(log[last], scope) && log[last].what.path == p then Some(last)
      else LastSeen(log[..last], scope, from, p)
  }

  lemma {:induction false} HeldAt(held: set<string>, log: seq<Change>, scope: string, from: nat, p: string)
    ensures var i := LastSeen(log, scope, from, p);
            p in ApplyChanges(held, LogDelta(log, scope, from))
            <==> if i.Some? then log[i.value].what.kind.Update? else p in held
    decreases |log|
  {
    if |log| <= from {
      LogDeltaOfOldEntries(log, scope, from);
    } else {
      var front, last := log[..|log| - 1], log[|log| - 1];
      HeldAt(held, front, scope, from, p);
      var before := LogDelta(front, scope, from);
      ApplyOne(held, before, last.what);
      assert LogDelta(log, scope, from) == if Visible(last, scope) then before + [last.what] else before;
    }
  }

  lemma ListingStep(base: set<string>, log: seq<Change>, c: Change, scope: string, p: string)
    ensures p in Listing(base, log + [c], scope)
            <==> if c.scope == scope && c.what.path == p then c.what.kind.Update? else p in Listing(base, log, scope)
  {
    assert (log + [c])[..|log|] == log;
    ListingIsFold(base, log, scope);
    ListingIsFold(base, log + [c], scope);
    var before := Own(log, scope);
    ApplyOne(base, before, c.what);
    assert Own(log + [c], scope) == if c.scope == scope then before + [c.what] else before;
  }

  /** Mutations a scope does not see, or of other paths, leave its listing of `p` alone; its own last one decides. */
  lemma {:induction false} ListedAt(base: set<string>, log: seq<Change>, scope: string, from: nat, p: string)
    requires from <= |log|
    ensures var i := LastSeen(log, scope, from, p);
            && (i.None? ==> (p in Listing(base, log, scope) <==> p in Listing(base, log[..from], scope)))
            && (i.Some? && log[i.value].scope == scope ==>
                  (p in Listing(base, log, scope) <==> log[i.value].what.kind.Update?))
    decreases |log|
  {
    if |log| == from {
      assert log[..from] == log;
    } else {
      var front, last := log[..|log| - 1], log[|log| - 1];
      assert log == front + [last] && front[..from] == log[..from];
      ListedAt(base, front, scope, from, p);
      ListingStep(base, front, last, scope, p);
    }
  }

  // ----- Runs of a polling client -----

  /**
   * What the client holds: its token and its paths; for the proof also the token of its
   * last full listing and how much of the log that listing reflected.
   */
  datatype Client = Client(token: nat, paths: set<string>, relisted: nat, asOf: nat)
  datatype World = World(journal: Journal, log: seq<Change>, client: Option<Client>)

  const START := World(NEW_JOURNAL, [], None)

  /** `Poll(during)`: mutations that land after the journal was read and before a full listing was taken. */
  datatype Event = Mutate(change: Change) | Poll(during: seq<Change>)

  function Step(base: set<string>, w: World, scope: string, e: Event): World {
    match e
    case Mutate(c) => World(Recorded(w.journal, c), w.log + [c], w.client)
    case Poll(during) =>
      var since := if w.client.None? then Missing else Number(w.client.value.token as real);
      var answer := ChangesOf(w.journal, scope, since);
      var log := w.log + during;
      var client :=
        if answer.reset || w.client.None? then Client(answer.cursor, Listing(base, log, scope), answer.cursor, |log|)
        else w.client.value.(token := answer.cursor, paths := ApplyChanges(w.client.value.paths, answer.changes));
      World(RecordAll(w.journal, during), log, Some(client))
  }

  function Run(base: set<string>, w: World, scope: string, events: seq<Event>): World {
    if events == [] then w else Step(base, Run(base, w, scope, events[..|events| - 1]), scope, events[|events| - 1])
  }

  /** The client holds its last full listing with everything visible up to its token applied. */
  predicate Holds(base: set<string>, log: seq<Change>, scope: string, c: Client) {
    && c.relisted <= c.token <= |log| && c.relisted <= c.asOf <= |log|
    && c.paths == ApplyChanges(Listing(base, log[..c.asOf], scope), LogDelta(log[..c.token], scope, c.relisted))
  }

  predicate Inv(base: set<string>, w: World, scope: string) {
    Represents(w.journal, w.log) && (w.client.Some? ==> Holds(base, w.log, scope, w.client.value))
  }

  lemma HoldsLater(base: set<string>, log: seq<Change>, more: seq<Change>, scope: string, c: Client)
    requires Holds(base, log, scope, c)
    ensures Holds(base, log + more, scope, c)
  {
    assert (log + more)[..c.asOf] == log[..c.asOf] && (log + more)[..c.token] == log[..c.token];
  }

  /** A delta brings the client up to the end of the log. */
  lemma DeltaHolds(base: set<string>, log: seq<Change>, scope: string, c: Client)
    requires Holds(base, log, scope, c)
    ensures Holds(base, log, scope,
              c.(token := |log|, paths := ApplyChanges(c.paths, LogDelta(log, scope, c.token))))
  {
    LogDeltaSplitsAt(log, scope, c.relisted, c.token);
    ApplyConcat(Listing(base, log[..c.asOf], scope), LogDelta(log[..c.token], scope, c.relisted),
                LogDelta(log, scope, c.token));
    assert log[..|log|] == log;
  }

  lemma RelistHolds(base: set<string>, log: seq<Change>, during: seq<Change>, scope: string)
    ensures var all := log + during;
            Holds(base, all, scope, Client(|log|, Listing(base, all, scope), |log|, |all|))
  {
    var all := log + during;
    assert all[..|all|] == all && all[..|log|] == log;
    LogDeltaOfOldEntries(log, scope, |log|);
  }

  lemma StepKeeps(base: set<string>, w: World, scope: string, e: Event)
    requires Inv(base, w, scope)
    ensures Inv(base, Step(base, w, scope, e), scope)
  {
    match e
    case Mutate(c) =>
      RecordRefines(w.journal, w.log, c);
      if w.client.Some? {
        HoldsLater(base, w.log, [c], scope, w.client.value);
      }
    case Poll(during) =>
      RecordAllRefines(w.journal, w.log, during);
      RelistHolds(base, w.log, during, scope);
      if w.client.Some? {
        var c := w.client.value;
        AnswerFromLog(w.journal, w.log, scope, Number(c.token as real));
        DeltaHolds(base, w.log, scope, c);
        var d := c.(token := |w.log|, paths := ApplyChanges(c.paths, LogDelta(w.log, scope, c.token)));
        HoldsLater(base, w.log, during, scope, d);
      }
  }

  lemma {:induction false} RunKeeps(base: set<string>, scope: string, events: seq<Event>)
    ensures Inv(base, Run(base, START, scope, events), scope)
    decreases |events|
  {
    if events != [] {
      RunKeeps(base, scope, events[..|events| - 1]);
      StepKeeps(base, Run(base, START, scope, events[..|events| - 1]), scope, events[|events| - 1]);
    }
  }

  /** The position of the scope's own last mutation of `p`. */
  function LastOwn(log: seq<Change>, scope: string, p: string): (i: Option<nat>)
    ensures i.Some? ==> i.value < |log| && log[i.value].what.path == p && log[i.value].scope == scope
  {
    if log == [] then None
    else
      var last := |log| - 1;
      if log[last].scope == scope && log[last].what.path == p then Some(last) else LastOwn(log[..last], scope, p)
  }

  /** Going by the scope alone `p` is there: its own last mutation wrote it, or it has none and `p` was there before. */
  predicate Keeps(base: set<string>, log: seq<Change>, scope: string, p: string) {
    var i := LastOwn(log, scope, p);
    if i.Some? then log[i.value].what.kind.Update? else p in base
  }

  /**
   * The last change of `p` the client was handed since its full listing is the scope's
   * own, or it wrote `p` exactly if the scope keeps `p`.
   */
  predicate Agrees(base: set<string>, log: seq<Change>, scope: string, from: nat, p: string) {
    var i := LastSeen(log, scope, from, p);
    i.Some? && log[i.value].scope != scope ==> (log[i.value].what.kind.Update? <==> Keeps(base, log, scope, p))
  }

  lemma {:induction false} KeptIsListed(base: set<string>, log: seq<Change>, scope: string, p: string)
    ensures Keeps(base, log, scope, p) <==> p in Listing(base, log, scope)
    decreases |log|
  {
    if log == [] {
      assert Listing(base, [], scope) == base;
    } else {
      var front, last := log[..|log| - 1], log[|log| - 1];
      assert log == front + [last];
      KeptIsListed(base, front, scope, p);
      ListingStep(base, front, last, scope, p);
    }
  }

  lemma HeldIffAgrees(base: set<string>, log: seq<Change>, scope: string, c: Client, p: string)
    requires Holds(base, log, scope, c) && c.token == |log|
    ensures (p in c.paths <==> p in Listing(base, log, scope)) <==> Agrees(base, log, scope, c.relisted, p)
  {
    assert log[..|log|] == log;
    var start := Listing(base, log[..c.asOf], scope);
    KeptIsListed(base, log, scope, p);
    HeldAt(start, log, scope, c.relisted, p);
    ListedAt(base, log, scope, c.relisted, p);
    if LastSeen(log, scope, c.relisted, p).None? {
      NoneSeenLater(log, scope, c.relisted, c.asOf, p);
      ListedAt(base, log, scope, c.asOf, p);
    }
  }

  lemma {:induction false} NoneSeenLater(log: seq<Change>, scope: string, from: nat, later: nat, p: string)
    requires from <= later && LastSeen(log, scope, from, p).None?
    ensures LastSeen(log, scope, later, p).None?
    decreases |log|
  {
    if later < |log| {
      NoneSeenLater(log[..|log| - 1], scope, from, later, p);
    }
  }

  /**
   * Over any run of mutations and polls, resets and evictions included: after a poll in
   * which nothing else lands, the client's paths are the current listing of its scope if
   * and only if, for every path, the last change it was handed since its last full listing
   * was the scope's own or agrees with that listing.
   */
  lemma ClientExact(base: set<string>, scope: string, events: seq<Event>, w: World, t: World)
    requires w == Run(base, START, scope, events) && t == Step(base, w, scope, Poll([]))
    ensures t.client.Some? && t.log == w.log
    ensures t.client.value.paths == Listing(base, w.log, scope)
            <==> forall p :: Agrees(base, w.log, scope, t.client.value.relisted, p)
  {
    RunKeeps(base, scope, events);
    StepKeeps(base, w, scope, Poll([]));
    var c := t.client.value;
    assert t.log == w.log && c.token == |t.log|;
    forall p
      ensures (p in c.paths <==> p in Listing(base, w.log, scope)) <==> Agrees(base, w.log, scope, c.relisted, p)
    {
      HeldIffAgrees(base, t.log, scope, c, p);
    }
  }

  /**
   * Convergence of the live tree: after each poll the client holds exactly the paths that
   * were stored at some moment of that poll; with nothing landing meanwhile, the current ones.
   */
  lemma LiveClientHoldsCurrentPaths(base: set<string>, events: seq<Event>, during: seq<Change>, w: World, t: World)
    requires w == Run(base, START, "", events) && t == Step(base, w, "", Poll(during))
    ensures exists m: nat :: |w.log| <= m <= |t.log| && t.client.value.paths == Listing(base, t.log[..m], "")
    ensures during == [] ==> t.client.value.paths == Listing(base, w.log, "")
  {
    assert t.log[..|t.log|] == t.log && t.log[..|w.log|] == w.log;
    var quiet := Step(base, w, "", Poll([]));
    ClientExact(base, "", events, w, quiet);
    assert quiet.client.value.paths == Listing(base, w.log, "");
    if t.client != quiet.client {
      assert t.client.value.paths == Listing(base, t.log, "");
    }
  }

  /** After the poll that follows the events, the client's paths are the listing of its scope. */
  predicate ExactAfter(base: set<string>, scope: string, events: seq<Event>) {
    var w := Run(base, START, scope, events);
    var t := Step(base, w, scope, Poll([]));
    t.client.Some? && t.client.value.paths == Listing(base, w.log, scope)
  }

  /** Every run leaves a polling client exact if and only if it watches the live tree. */
  lemma ExactForEveryRun(base: set<string>, scope: string)
    ensures (forall events :: ExactAfter(base, scope, events)) <==> scope == ""
  {
    if scope == "" {
      forall events ensures ExactAfter(base, scope, events)
      {
        var w := Run(base, START, "", events);
        LiveClientHoldsCurrentPaths(base, events, [], w, Step(base, w, "", Poll([])));
        ClientExact(base, "", events, w, Step(base, w, "", Poll([])));
      }
    } else {
      var path := "x";
      var kind := if path in base then Delete else Update;
      StagedClientSeesLiveChanges(base, scope, FsChange(path, kind));
      assert !ExactAfter(base, scope, [Poll([]), Mutate(Change(FsChange(path, kind), ""))]);
    }
  }

  /**
   * The failing run: a staged session's client is handed a change of the live tree, which
   * the session's listing does not show, whatever the session is based on.
   */
  lemma StagedClientSeesLiveChanges(base: set<string>, session: string, what: FsChange)
    requires session != "" && (what.kind.Update? <==> what.path !in base)
    ensures var w := Run(base, START, session, [Poll([]), Mutate(Change(what, ""))]);
            var t := Step(base, w, session, Poll([]));
            && Listing(base, w.log, session) == base
            && t.client.Some?
            && t.client.value.paths == if what.kind.Update? then base + {what.path} else base - {what.path}
  {
    var live := Change(what, "");
    StagedRun(base, session, live);
    var w := Run(base, START, session, [Poll([]), Mutate(live)]);
    DeltaPoll(base, w, session);
    OneLiveChange(base, session, live);
  }

  lemma DeltaPoll(base: set<string>, w: World, scope: string)
    requires Represents(w.journal, w.log) && w.client.Some? && Evicted(w.log) <= w.client.value.token <= |w.log|
    ensures var t := Step(base, w, scope, Poll([]));
            && t.log == w.log && t.client.Some?
            && t.client.value.paths
               == ApplyChanges(w.client.value.paths, LogDelta(w.log, scope, w.client.value.token))
  {
    AnswerFromLog(w.journal, w.log, scope, Number(w.client.value.token as real));
  }

  lemma StagedRun(base: set<string>, session: string, live: Change)
    ensures Run(base, START, session, [Poll([]), Mutate(live)])
         == World(Recorded(NEW_JOURNAL, live), [live], Some(Client(0, base, 0, 0)))
    ensures Represents(Recorded(NEW_JOURNAL, live), [live])
  {
    var events := [Poll([]), Mutate(live)];
    assert events[..1] == [Poll([])] && [Poll([])][..0] == [];
    assert Run(base, START, session, []) == START;
    ListingIsFold(base, [], session);
    assert Run(base, START, session, events[..1]) == World(NEW_JOURNAL, [], Some(Client(0, base, 0, 0)));
    RecordRefines(NEW_JOURNAL, [], live);
    assert [] + [live] == [live];
  }

  lemma OneLiveChange(base: set<string>, session: string, live: Change)
    requires session != "" && live.scope == ""
    ensures Listing(base, [live], session) == base
    ensures ApplyChanges(base, LogDelta([live], session, 0))
         == if live.what.kind.Update? then base + {live.what.path} else base - {live.what.path}
  {
    assert [live][..0] == [];
    ListingIsFold(base, [live], session);
    assert Own([live], session) == [];
    assert LogDelta([live], session, 0) == [live.what];
    ApplyOne(base, [], live.what);
    assert [] + [live.what] == [live.what];
  }
}
