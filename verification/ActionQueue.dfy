/**
 * The action exception queue (server/workspace/src/action-queue.ts): queued actions of one
 * workspace, released, discarded or expired once.  Every operation is atomic and its store
 * writes succeed; `now` is the clock while it runs.
 */
module ActionQueue {
  import opened Common

  const QUEUE_TTL_MS: nat := 7 * 24 * 60 * 60 * 1000

  datatype State = Queued | Released | Discarded | Expired
  datatype Request = Request(user: string, runId: Option<string>)
  datatype Resolution = Resolution(who: string, at: int)
  datatype Action = Action(
    state: State, request: Request, approver: Option<string>, createdAt: int, expiresAt: int,
    resolution: Option<Resolution>)

  datatype AuditEntry = AuditEntry(id: string, transition: State)
  /** A completed call of the release executor. */
  datatype Execution = Execution(id: string, at: int)

  datatype Queue = Queue(
    records: map<string, Action>, audit: seq<AuditEntry>, latestByRun: map<string, string>, executed: seq<Execution>)

  const EMPTY := Queue(map[], [], map[], [])

  datatype Error = NotFound | NotQueued | PatternDidNotOpen | ExecutorFailed

  /** What re-evaluating the dispatch with the remembered pattern gives; a miss queues a further action. */
  datatype Remember = NoPattern | Opens | StillMisses(newId: string) | Refused

  // ----- Operations -----

  function Enqueue(q: Queue, req: Request, id: string, now: int): Queue {
    var action := Action(Queued, req, None, now, now + QUEUE_TTL_MS, None);
    Queue(
      q.records[id := action],
      q.audit + [AuditEntry(id, Queued)],
      if req.runId.Some? && req.runId.value != "" then q.latestByRun[req.runId.value := id] else q.latestByRun,
      q.executed)
  }

  /** Save a record in a terminal state and audit the transition. */
  function Settle(q: Queue, id: string, to: State, approver: Option<string>, who: string, now: int): Queue
    requires id in q.records
  {
    var a := q.records[id];
    q.(
      records := q.records[id := a.(
        state := to,
        approver := if approver.Some? then approver else a.approver,
        resolution := Some(Resolution(who, now)))],
      audit := q.audit + [AuditEntry(id, to)])
  }

  predicate Due(a: Action, now: int) {
    a.state == Queued && a.expiresAt <= now
  }

  /** Reading a record expires it when it is due. */
  function Touch(q: Queue, id: string, now: int): Queue {
    if id in q.records && Due(q.records[id], now) then Settle(q, id, Expired, None, "system", now) else q
  }

  function TouchAll(q: Queue, ids: seq<string>, now: int): Queue {
    if ids == [] then q else Touch(TouchAll(q, ids[..|ids| - 1], now), ids[|ids| - 1], now)
  }

  /** What stands in the way of releasing or discarding. */
  function Blocked(q: Queue, id: string): Option<Error> {
    if id !in q.records then Some(NotFound)
    else if q.records[id].state != Queued then Some(NotQueued)
    else None
  }

  function Release(
    q: Queue, id: string, reviewer: string, remember: Remember, succeeds: bool, now: int)
    : (Queue, Result<Action, Error>)
  {
    var t := Touch(q, id, now);
    var blocked := Blocked(t, id);
    if blocked.Some? then (t, Err(blocked.value))
    else if remember.StillMisses? then (Enqueue(t, t.records[id].request, remember.newId, now), Err(PatternDidNotOpen))
    else if remember.Refused? then (t, Err(PatternDidNotOpen))
    else if !succeeds then (t, Err(ExecutorFailed))
    else
      var ran := t.(executed := t.executed + [Execution(id, now)]);
      var done := Settle(ran, id, Released, Some(reviewer), reviewer, now);
      (done, Ok(done.records[id]))
  }

  function Discard(q: Queue, id: string, reviewer: string, now: int): (Queue, Result<Action, Error>) {
    var t := Touch(q, id, now);
    var blocked := Blocked(t, id);
    if blocked.Some? then (t, Err(blocked.value))
    else
      var done := Settle(t, id, Discarded, Some(reviewer), reviewer, now);
      (done, Ok(done.records[id]))
  }

  /** Force-expiry does not look at the clock. */
  function ForceExpire(q: Queue, id: string, now: int): (Queue, Result<Action, Error>) {
    var blocked := Blocked(q, id);
    if blocked.Some? then (q, Err(blocked.value))
    else
      var done := Settle(q, id, Expired, None, "system", now);
      (done, Ok(done.records[id]))
  }

  // ----- The object -----

  class Store {
    var records: map<string, Action>
    var audit: seq<AuditEntry>
    var latestByRun: map<string, string>
    /** For the proofs: the completed executions. */
    ghost var executed: seq<Execution>

    ghost function Value(): Queue
      reads this
    {
      Queue(records, audit, latestByRun, executed)
    }

    constructor ()
      ensures Value() == EMPTY
    {
      records, audit, latestByRun, executed := map[], [], map[], [];
    }

    method EnqueueQueuedAction(req: Request, id: string, now: int)
      modifies this
      ensures Value() == Enqueue(old(Value()), req, id, now)
    {
      records := records[id := Action(Queued, req, None, now, now + QUEUE_TTL_MS, None)];
      if req.runId.Some? && req.runId.value != "" {
        latestByRun := latestByRun[req.runId.value := id];
      }
      audit := audit + [AuditEntry(id, Queued)];
    }

    method Save(id: string, to: State, approver: Option<string>, who: string, now: int)
      requires id in records
      modifies this
      ensures Value() == Settle(old(Value()), id, to, approver, who, now)
    {
      var a := records[id];
      var next := a.(state := to, resolution := Some(Resolution(who, now)));
      if approver.Some? {
        next := next.(approver := approver);
      }
      records := records[id := next];
      audit := audit + [AuditEntry(id, to)];
    }

    method GetQueuedAction(id: string, now: int) returns (a: Option<Action>)
      modifies this
      ensures Value() == Touch(old(Value()), id, now)
      ensures a == Get(records, id)
    {
      if id !in records {
        return None;
      }
      if records[id].state == Queued && !(records[id].expiresAt > now) {
        Save(id, Expired, None, "system", now);
      }
      return Some(records[id]);
    }

    method ReleaseAction(id: string, reviewer: string, remember: Remember, succeeds: bool, now: int)
      returns (r: Result<Action, Error>)
      modifies this
      ensures (Value(), r) == Release(old(Value()), id, reviewer, remember, succeeds, now)
    {
      var loaded := GetQueuedAction(id, now);
      if loaded.None? {
        return Err(NotFound);
      }
      if loaded.value.state != Queued {
        return Err(NotQueued);
      }
      match remember {
        case StillMisses(newId) =>
          EnqueueQueuedAction(loaded.value.request, newId, now);
          return Err(PatternDidNotOpen);
        case Refused =>
          return Err(PatternDidNotOpen);
        case NoPattern =>
        case Opens =>
      }
      if !succeeds {
        return Err(ExecutorFailed);
      }
      executed := executed + [Execution(id, now)];
      Save(id, Released, Some(reviewer), reviewer, now);
      return Ok(records[id]);
    }

    method DiscardAction(id: string, reviewer: string, now: int) returns (r: Result<Action, Error>)
      modifies this
      ensures (Value(), r) == Discard(old(Value()), id, reviewer, now)
    {
      var loaded := GetQueuedAction(id, now);
      if loaded.None? {
        return Err(NotFound);
      }
      if loaded.value.state != Queued {
        return Err(NotQueued);
      }
      Save(id, Discarded, Some(reviewer), reviewer, now);
      return Ok(records[id]);
    }

    method ExpireQueuedAction(id: string, now: int) returns (r: Result<Action, Error>)
      modifies this
      ensures (Value(), r) == ForceExpire(old(Value()), id, now)
    {
      if id !in records {
        return Err(NotFound);
      }
      if records[id].state != Queued {
        return Err(NotQueued);
      }
      Save(id, Expired, None, "system", now);
      return Ok(records[id]);
    }

    method QueueForChain(runId: string, resultDependent: bool) returns (r: Result<(string, bool), Error>)
      ensures r.Ok? <==> runId in latestByRun
      ensures IndexOk(Value()) ==>
                r == match LastQueued(audit, records, runId)
                     case Some(id) => Ok((id, !resultDependent))
                     case None => Err(NotFound)
    {
      if runId !in latestByRun {
        return Err(NotFound);
      }
      return Ok((latestByRun[runId], !resultDependent));
    }

    /** Counting reads every record, so it also expires the due ones, in listing order. */
    method CountQueuedForRun(runId: string, listing: seq<string>, now: int) returns (n: nat)
      requires forall i, j :: 0 <= i < j < |listing| ==> listing[i] != listing[j]
      requires forall id :: id in listing <==> id in records
      modifies this
      ensures Value() == TouchAll(old(Value()), listing, now)
      ensures n == |CountedIn(old(records), listing, runId, now)|
    {
      n := 0;
      ghost var was := Value();
      for i := 0 to |listing|
        invariant Value() == TouchAll(was, listing[..i], now)
        invariant n == |CountedIn(was.records, listing[..i], runId, now)|
      {
        CountStep(was, listing, i, runId, now);
        var current := GetQueuedAction(listing[i], now);
        if current.Some? && current.value.state == Queued && runId != "" && current.value.request.runId == Some(runId) {
          n := n + 1;
        }
      }
      assert listing[..|listing|] == listing;
    }
  }

  // ----- Counting -----

  predicate Counts(records: map<string, Action>, id: string, runId: string, now: int) {
    && id in records && records[id].state == Queued && !Due(records[id], now)
    && runId != "" && records[id].request.runId == Some(runId)
  }

  /** The listed ids whose action is queued for the run and not yet due. */
  function CountedIn(records: map<string, Action>, listing: seq<string>, runId: string, now: int): set<string> {
    set id | id in listing && Counts(records, id, runId, now)
  }

  lemma {:induction false} TouchAllLeaves(q: Queue, ids: seq<string>, now: int, id: string)
    requires id !in ids
    ensures Get(TouchAll(q, ids, now).records, id) == Get(q.records, id)
    decreases |ids|
  {
    if ids != [] {
      TouchAllLeaves(q, ids[..|ids| - 1], now, id);
    }
  }

  lemma CountedGrows(records: map<string, Action>, ids: seq<string>, id: string, runId: string, now: int)
    requires id !in ids
    ensures |CountedIn(records, ids + [id], runId, now)|
         == |CountedIn(records, ids, runId, now)| + if Counts(records, id, runId, now) then 1 else 0
  {
    var before := CountedIn(records, ids, runId, now);
    if Counts(records, id, runId, now) {
      assert CountedIn(records, ids + [id], runId, now) == before + {id};
    } else {
      assert CountedIn(records, ids + [id], runId, now) == before;
    }
  }

  /** One more listed id: it is read as it was at the start, and adds to the count if it counts. */
  lemma CountStep(q: Queue, listing: seq<string>, i: nat, runId: string, now: int)
    requires i < |listing| && (forall j, k :: 0 <= j < k < |listing| ==> listing[j] != listing[k])
    ensures var t := TouchAll(q, listing[..i], now);
            && TouchAll(q, listing[..i + 1], now) == Touch(t, listing[i], now)
            && Get(t.records, listing[i]) == Get(q.records, listing[i])
    ensures |CountedIn(q.records, listing[..i + 1], runId, now)|
         == |CountedIn(q.records, listing[..i], runId, now)|
            + if Counts(q.records, listing[i], runId, now) then 1 else 0
  {
    assert listing[i] !in listing[..i];
    CountedGrows(q.records, listing[..i], listing[i], runId, now);
    assert listing[..i + 1] == listing[..i] + [listing[i]];
    assert listing[..i + 1][..i] == listing[..i];
    TouchAllLeaves(q, listing[..i], now, listing[i]);
  }

  // ----- Runs -----

  datatype Op =
    | Enqueuing(req: Request, id: string)
    | Reading(read: string)
    | Releasing(released: string, reviewer: string, remember: Remember, succeeds: bool)
    | Discarding(discarded: string, who: string)
    | Expiring(expired: string)

  datatype Event = At(now: int, op: Op)

  /** Ids are random, so a new one is unused. */
  predicate Legal(q: Queue, e: Event) {
    && (e.op.Enqueuing? ==> e.op.id !in q.records)
    && (e.op.Releasing? && e.op.remember.StillMisses? ==> e.op.remember.newId !in q.records)
  }

  function Step(q: Queue, e: Event): Queue {
    match e.op
    case Enqueuing(req, id) => Enqueue(q, req, id, e.now)
    case Reading(id) => Touch(q, id, e.now)
    case Releasing(id, reviewer, remember, ok) => Release(q, id, reviewer, remember, ok, e.now).0
    case Discarding(id, who) => Discard(q, id, who, e.now).0
    case Expiring(id) => ForceExpire(q, id, e.now).0
  }

  function Run(q: Queue, events: seq<Event>): Queue
    decreases |events|
  {
    if events == [] then q else Run(Step(q, events[0]), events[1..])
  }

  predicate LegalRun(q: Queue, events: seq<Event>)
    decreases |events|
  {
    events != [] ==> Legal(q, events[0]) && LegalRun(Step(q, events[0]), events[1..])
  }

  // ----- What each operation comes to -----

  /** The record is stored, queued, and not yet expired. */
  predicate Open(q: Queue, id: string, now: int) {
    id in q.records && q.records[id].state == Queued && now < q.records[id].expiresAt
  }

  /** Only the record of `id` and the one entry of the audit log differ. */
  predicate Settles(q: Queue, t: Queue, id: string, after: Action) {
    && t.records == q.records[id := after]
    && t.audit == q.audit + [AuditEntry(id, after.state)]
    && t.latestByRun == q.latestByRun
  }

  /** What reading a record that is stored queued but no longer open does to the queue, and nothing else does. */
  predicate ExpiresOnly(q: Queue, t: Queue, id: string, now: int) {
    if id in q.records && q.records[id].state == Queued && !Open(q, id, now) then
      && Settles(q, t, id, q.records[id].(state := Expired, resolution := Some(Resolution("system", now))))
      && t.executed == q.executed
    else t == q
  }

  lemma TouchExact(q: Queue, id: string, now: int)
    ensures ExpiresOnly(q, Touch(q, id, now), id, now)
  {
  }

  /** A queued call is stored as it came, and open for exactly seven days. */
  lemma EnqueueExact(q: Queue, req: Request, id: string, now: int, later: int)
    ensures var t := Enqueue(q, req, id, now);
            && Settles(q.(latestByRun := t.latestByRun), t, id, Action(Queued, req, None, now, now + 604800000, None))
            && t.executed == q.executed
            && (Open(t, id, later) <==> later < now + 604800000)
            && t.latestByRun == match req.runId
                 case None => q.latestByRun
                 case Some(run) => if run == "" then q.latestByRun else q.latestByRun[run := id]
  {
  }

  /**
   * A release succeeds exactly when the record is open, no remembered pattern misses, and the
   * executor succeeds; the call is then executed once, now, and the record released.  In every
   * other case nothing is executed, and the error says what was missing.
   */
  lemma ReleaseExact(q: Queue, id: string, reviewer: string, remember: Remember, succeeds: bool, now: int)
    ensures var (t, r) := Release(q, id, reviewer, remember, succeeds, now);
            var fits := remember == NoPattern || remember == Opens;
            && (r.Ok? <==> Open(q, id, now) && fits && succeeds)
            && (r.Ok? ==>
                 && Settles(q, t, id, q.records[id].(
                      state := Released, approver := Some(reviewer), resolution := Some(Resolution(reviewer, now))))
                 && r.value == t.records[id] && t.executed == q.executed + [Execution(id, now)])
            && (r.Err? ==> t.executed == q.executed)
            && (r.Err? && !(Open(q, id, now) && remember.StillMisses?) ==> ExpiresOnly(q, t, id, now))
            && (Open(q, id, now) && remember.StillMisses? ==>
                 t == Enqueue(q, q.records[id].request, remember.newId, now))
            && (r == Err(NotFound) <==> id !in q.records)
            && (r == Err(NotQueued) <==> id in q.records && !Open(q, id, now))
            && (r == Err(PatternDidNotOpen) <==> Open(q, id, now) && !fits)
            && (r == Err(ExecutorFailed) <==> Open(q, id, now) && fits && !succeeds)
  {
    TouchExact(q, id, now);
  }

  /** A discard settles an open record, and executes nothing. */
  lemma DiscardExact(q: Queue, id: string, reviewer: string, now: int)
    ensures var (t, r) := Discard(q, id, reviewer, now);
            && t.executed == q.executed
            && (r.Ok? <==> Open(q, id, now))
            && (r.Ok? ==>
                 && Settles(q, t, id, q.records[id].(
                      state := Discarded, approver := Some(reviewer), resolution := Some(Resolution(reviewer, now))))
                 && r.value == t.records[id])
            && (r.Err? ==> ExpiresOnly(q, t, id, now))
            && (r == Err(NotFound) <==> id !in q.records)
            && (r == Err(NotQueued) <==> id in q.records && !Open(q, id, now))
  {
    TouchExact(q, id, now);
  }

  /** A forced expiry settles any queued record, whatever the time, and executes nothing. */
  lemma ForceExpireExact(q: Queue, id: string, now: int)
    ensures var (t, r) := ForceExpire(q, id, now);
            && t.executed == q.executed
            && (r.Ok? <==> id in q.records && q.records[id].state == Queued)
            && (r.Ok? ==>
                 && Settles(q, t, id, q.records[id].(state := Expired, resolution := Some(Resolution("system", now))))
                 && r.value == t.records[id])
            && (r.Err? ==> t == q)
            && (r == Err(NotFound) <==> id !in q.records)
            && (r == Err(NotQueued) <==> id in q.records && q.records[id].state != Queued)
  {
  }

  /** Which actions are counted. */
  lemma CountedExact(records: map<string, Action>, listing: seq<string>, runId: string, now: int, id: string)
    ensures id in CountedIn(records, listing, runId, now) <==>
              && id in listing && id in records && records[id].state == Queued && now < records[id].expiresAt
              && runId != "" && records[id].request.runId == Some(runId)
  {
  }

  /** The event concerns the record of `id`; reading it while it is open does not. */
  predicate Concerns(e: Event, id: string, until: int) {
    match e.op
    case Enqueuing(_, queued) => queued == id
    case Reading(read) => read == id && until <= e.now
    case Releasing(released, _, remember, _) => released == id || (remember.StillMisses? && remember.newId == id)
    case Discarding(discarded, _) => discarded == id
    case Expiring(expired) => expired == id
  }

  lemma StepLeaves(q: Queue, e: Event, id: string)
    requires id in q.records && !Concerns(e, id, q.records[id].expiresAt)
    ensures id in Step(q, e).records && Step(q, e).records[id] == q.records[id]
  {
  }

  lemma {:induction false} RunLeaves(q: Queue, events: seq<Event>, id: string)
    requires id in q.records && forall i :: 0 <= i < |events| ==> !Concerns(events[i], id, q.records[id].expiresAt)
    ensures id in Run(q, events).records && Run(q, events).records[id] == q.records[id]
    decreases |events|
  {
    if events != [] {
      StepLeaves(q, events[0], id);
      assert forall i :: 0 <= i < |events[1..]| ==> events[1..][i] == events[i + 1];
      RunLeaves(Step(q, events[0]), events[1..], id);
    }
  }

  /**
   * A call queued at `queued` can be released, whatever happens to other calls in between and
   * however often it is read, exactly until seven days later.
   */
  lemma ReleasableForSevenDays(
    q: Queue, req: Request, id: string, queued: int, events: seq<Event>, reviewer: string, now: int)
    requires forall i :: 0 <= i < |events| ==> !Concerns(events[i], id, queued + 604800000)
    ensures var t := Run(Enqueue(q, req, id, queued), events);
            Release(t, id, reviewer, NoPattern, true, now).1.Ok? <==> now < queued + 604800000
  {
    var stored := Enqueue(q, req, id, queued);
    EnqueueExact(q, req, id, queued, now);
    RunLeaves(stored, events, id);
    ReleaseExact(Run(stored, events), id, reviewer, NoPattern, true, now);
  }

  // ----- The life of one action -----

  function AuditOf(audit: seq<AuditEntry>, id: string): seq<State> {
    if audit == [] then []
    else AuditOf(audit[..|audit| - 1], id) + if audit[|audit| - 1].id == id then [audit[|audit| - 1].transition] else []
  }

  function ExecutionsOf(executed: seq<Execution>, id: string): seq<int> {
    if executed == [] then []
    else
      ExecutionsOf(executed[..|executed| - 1], id)
        + if executed[|executed| - 1].id == id then [executed[|executed| - 1].at] else []
  }

  lemma AuditAppend(audit: seq<AuditEntry>, e: AuditEntry, id: string)
    ensures AuditOf(audit + [e], id) == AuditOf(audit, id) + if e.id == id then [e.transition] else []
  {
    assert (audit + [e])[..|audit|] == audit;
  }

  lemma ExecutionAppend(executed: seq<Execution>, e: Execution, id: string)
    ensures ExecutionsOf(executed + [e], id) == ExecutionsOf(executed, id) + if e.id == id then [e.at] else []
  {
    assert (executed + [e])[..|executed|] == executed;
  }

  /**
   * The audit trail of an id is its queueing and, once settled, the transition to its
   * stored state; it was executed once, strictly before it expired, if released, and
   * otherwise never.
   */
  predicate Fits(a: Option<Action>, trail: seq<State>, runs: seq<int>) {
    if a.None? then trail == [] && runs == []
    else
      var state := a.value.state;
      && trail == (if state == Queued then [Queued] else [Queued, state])
      && (if state == Released then |runs| == 1 && runs[0] < a.value.expiresAt else runs == [])
  }

  predicate LifeOk(q: Queue, id: string) {
    Fits(Get(q.records, id), AuditOf(q.audit, id), ExecutionsOf(q.executed, id))
  }

  /** Only the state, the approver and the resolution of a record may change, and only while it is queued. */
  predicate Follows(before: Action, after: Action) {
    if before.state != Queued then after == before
    else after == before.(state := after.state, approver := after.approver, resolution := after.resolution)
  }

  lemma SettleKeeps(q: Queue, id: string, to: State, approver: Option<string>, who: string, now: int, other: string)
    requires id in q.records && q.records[id].state == Queued && to != Queued && to != Released && LifeOk(q, other)
    ensures var t := Settle(q, id, to, approver, who, now);
            && LifeOk(t, other)
            && (other in q.records ==> other in t.records && Follows(q.records[other], t.records[other]))
  {
    AuditAppend(q.audit, AuditEntry(id, to), other);
  }

  lemma TouchKeeps(q: Queue, id: string, now: int, other: string)
    requires LifeOk(q, other)
    ensures var t := Touch(q, id, now);
            && LifeOk(t, other)
            && (other in q.records ==> other in t.records && Follows(q.records[other], t.records[other]))
    ensures id in q.records ==> !Due(Touch(q, id, now).records[id], now)
    ensures Touch(q, id, now).records.Keys == q.records.Keys
  {
    if id in q.records && Due(q.records[id], now) {
      SettleKeeps(q, id, Expired, None, "system", now, other);
    }
  }

  lemma EnqueueKeeps(q: Queue, req: Request, id: string, now: int, other: string)
    requires LifeOk(q, other) && id !in q.records
    ensures var t := Enqueue(q, req, id, now);
            && LifeOk(t, other)
            && (other in q.records ==> other in t.records && Follows(q.records[other], t.records[other]))
  {
    AuditAppend(q.audit, AuditEntry(id, Queued), other);
  }

  lemma ReleaseKeeps(
    q: Queue, id: string, reviewer: string, remember: Remember, succeeds: bool, now: int, other: string)
    requires LifeOk(q, other) && (remember.StillMisses? ==> remember.newId !in q.records)
    ensures var t := Release(q, id, reviewer, remember, succeeds, now).0;
            && LifeOk(t, other)
            && (other in q.records ==> other in t.records && Follows(q.records[other], t.records[other]))
  {
    TouchKeeps(q, id, now, other);
    var t := Touch(q, id, now);
    if Blocked(t, id).None? {
      if remember.StillMisses? {
        EnqueueKeeps(t, t.records[id].request, remember.newId, now, other);
      } else if !remember.Refused? && succeeds {
        ExecutedKeeps(t, id, reviewer, now, other);
      }
    }
  }

  lemma ExecutedKeeps(q: Queue, id: string, reviewer: string, now: int, other: string)
    requires LifeOk(q, other) && id in q.records && q.records[id].state == Queued && !Due(q.records[id], now)
    ensures var ran := q.(executed := q.executed + [Execution(id, now)]);
            var t := Settle(ran, id, Released, Some(reviewer), reviewer, now);
            && LifeOk(t, other)
            && (other in q.records ==> other in t.records && Follows(q.records[other], t.records[other]))
  {
    AuditAppend(q.audit, AuditEntry(id, Released), other);
    ExecutionAppend(q.executed, Execution(id, now), other);
  }

  lemma DiscardKeeps(q: Queue, id: string, who: string, now: int, other: string)
    requires LifeOk(q, other)
    ensures var t := Discard(q, id, who, now).0;
            && LifeOk(t, other)
            && (other in q.records ==> other in t.records && Follows(q.records[other], t.records[other]))
  {
    TouchKeeps(q, id, now, other);
    var t := Touch(q, id, now);
    if Blocked(t, id).None? {
      SettleKeeps(t, id, Discarded, Some(who), who, now, other);
    }
  }

  lemma StepKeeps(q: Queue, e: Event, other: string)
    requires LifeOk(q, other) && Legal(q, e)
    ensures var t := Step(q, e);
            && LifeOk(t, other)
            && (other in q.records ==> other in t.records && Follows(q.records[other], t.records[other]))
  {
    match e.op
    case Enqueuing(req, id) => EnqueueKeeps(q, req, id, e.now, other);
    case Reading(id) => TouchKeeps(q, id, e.now, other);
    case Releasing(id, reviewer, remember, ok) => ReleaseKeeps(q, id, reviewer, remember, ok, e.now, other);
    case Discarding(id, who) => DiscardKeeps(q, id, who, e.now, other);
    case Expiring(id) =>
      if Blocked(q, id).None? {
        SettleKeeps(q, id, Expired, None, "system", e.now, other);
      }
  }

  lemma {:induction false} RunKeeps(q: Queue, events: seq<Event>, id: string)
    requires LifeOk(q, id) && LegalRun(q, events)
    ensures var t := Run(q, events);
            LifeOk(t, id) && (id in q.records ==> id in t.records && Follows(q.records[id], t.records[id]))
    decreases |events|
  {
    if events != [] {
      StepKeeps(q, events[0], id);
      RunKeeps(Step(q, events[0]), events[1..], id);
    }
  }

  /**
   * Queue lifecycle: after any legal run every action's audit trail and executions match
   * its state, and whatever happens next leaves a settled action exactly as it is.
   */
  lemma QueueLifecycle(before: seq<Event>, after: seq<Event>, id: string)
    requires LegalRun(EMPTY, before) && LegalRun(Run(EMPTY, before), after)
    ensures var q := Run(EMPTY, before);
            var t := Run(q, after);
            && LifeOk(q, id)
            && (id in q.records ==> id in t.records && Follows(q.records[id], t.records[id]))
            && LifeOk(t, id)
  {
    RunKeeps(EMPTY, before, id);
    RunKeeps(Run(EMPTY, before), after, id);
  }

  // ----- The run index -----

  /** The action most recently queued for a run, by the audit log. */
  function LastQueued(audit: seq<AuditEntry>, records: map<string, Action>, runId: string): Option<string> {
    if audit == [] then None
    else
      var last := audit[|audit| - 1];
      if runId != "" && last.transition == Queued && last.id in records && records[last.id].request.runId == Some(runId)
      then Some(last.id)
      else LastQueued(audit[..|audit| - 1], records, runId)
  }

  predicate Audited(q: Queue) {
    forall i :: 0 <= i < |q.audit| ==> q.audit[i].id in q.records
  }

  /** The index gives, for every run, the action most recently queued for it, or nothing. */
  ghost predicate IndexOk(q: Queue) {
    Audited(q) && forall r :: Get(q.latestByRun, r) == LastQueued(q.audit, q.records, r)
  }

  lemma {:induction false} SameRequestsSameLast(
    audit: seq<AuditEntry>, old': map<string, Action>, new': map<string, Action>, r: string)
    requires forall i :: 0 <= i < |audit| ==> audit[i].id in old'
    requires forall id :: id in old' ==> id in new' && new'[id].request == old'[id].request
    ensures LastQueued(audit, old', r) == LastQueued(audit, new', r)
    decreases |audit|
  {
    if audit != [] {
      SameRequestsSameLast(audit[..|audit| - 1], old', new', r);
    }
  }

  /** Settling a record, or leaving everything, keeps the index right. */
  lemma IndexSettle(q: Queue, t: Queue)
    requires IndexOk(q) && t.records.Keys == q.records.Keys && t.latestByRun == q.latestByRun
    requires forall id :: id in q.records ==> t.records[id].request == q.records[id].request
    requires t.audit == q.audit || (exists e :: t.audit == q.audit + [e] && e.transition != Queued && e.id in q.records)
    ensures IndexOk(t)
  {
    forall r ensures Get(t.latestByRun, r) == LastQueued(t.audit, t.records, r)
    {
      SameRequestsSameLast(q.audit, q.records, t.records, r);
      if t.audit != q.audit {
        var e :| t.audit == q.audit + [e] && e.transition != Queued && e.id in q.records;
        assert t.audit[..|t.audit| - 1] == q.audit;
      }
    }
  }

  lemma IndexEnqueue(q: Queue, req: Request, id: string, now: int)
    requires IndexOk(q) && id !in q.records
    ensures IndexOk(Enqueue(q, req, id, now))
  {
    var t := Enqueue(q, req, id, now);
    assert t.audit[..|t.audit| - 1] == q.audit;
    forall r ensures Get(t.latestByRun, r) == LastQueued(t.audit, t.records, r)
    {
      SameRequestsSameLast(q.audit, q.records, t.records, r);
    }
  }

  lemma IndexTouch(q: Queue, id: string, now: int)
    requires IndexOk(q)
    ensures IndexOk(Touch(q, id, now))
  {
    var t := Touch(q, id, now);
    if t != q {
      assert t.audit == q.audit + [AuditEntry(id, Expired)];
    }
    IndexSettle(q, t);
  }

  lemma IndexStep(q: Queue, e: Event)
    requires IndexOk(q) && Legal(q, e)
    ensures IndexOk(Step(q, e))
  {
    match e.op
    case Enqueuing(req, id) => IndexEnqueue(q, req, id, e.now);
    case Reading(id) => IndexTouch(q, id, e.now);
    case Releasing(id, reviewer, remember, ok) =>
      var t, u := Touch(q, id, e.now), Step(q, e);
      IndexTouch(q, id, e.now);
      if Blocked(t, id).None? && remember.StillMisses? {
        IndexEnqueue(t, t.records[id].request, remember.newId, e.now);
      } else {
        assert u.audit == t.audit || u.audit == t.audit + [AuditEntry(id, Released)];
        IndexSettle(t, u);
      }
    case Discarding(id, who) =>
      var t, u := Touch(q, id, e.now), Step(q, e);
      IndexTouch(q, id, e.now);
      assert u.audit == t.audit || u.audit == t.audit + [AuditEntry(id, Discarded)];
      IndexSettle(t, u);
    case Expiring(id) =>
      var u := Step(q, e);
      assert u.audit == q.audit || u.audit == q.audit + [AuditEntry(id, Expired)];
      IndexSettle(q, u);
  }

  /**
   * After any legal run `queueForChain` names the action most recently queued for the run, and fails
   * if there is none.
   */
  lemma {:induction false} IndexRun(q: Queue, events: seq<Event>)
    requires IndexOk(q) && LegalRun(q, events)
    ensures IndexOk(Run(q, events))
    decreases |events|
  {
    if events != [] {
      IndexStep(q, events[0]);
      IndexRun(Step(q, events[0]), events[1..]);
    }
  }
}
