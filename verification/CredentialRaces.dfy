/**
 * Two credential operations that read before they write (server/workspace/src/credentials.ts,
 * updatePayload and delete), with other operations in between: when the late write still
 * leaves a consistent table.
 */
module CredentialRaces {
  import opened Common
  import opened Credentials

  /** The table holds exactly the rows of some records. */
  ghost predicate Consistent(t: Table) {
    exists m: Flat :: Represents(t, m)
  }

  /** What an earlier read may have returned of a record: if it is still there, its identity is the same. */
  predicate MayHaveRead(m: Flat, r: Record) {
    && Plain(r.id) && (r.level == UserOauth ==> r.createdBy.Some?)
    && (r.id in m ==> SameIdentity(m[r.id], r))
  }

  // ----- A late update -----

  /** The put of an update that read `r`: it is not conditional. */
  function LatePut(t: Table, r: Record, payload: string, now: string): Table {
    t[CredKey(r.provider, r.id) := RecordItem(r.(payload := payload, updatedAt := now))]
  }

  /** A late update leaves a consistent table if and only if its record has not been deleted. */
  lemma LatePutExact(t: Table, m: Flat, r: Record, payload: string, now: string)
    requires Represents(t, m) && MayHaveRead(m, r)
    ensures Consistent(LatePut(t, r, payload, now)) <==> r.id in m
    ensures r.id in m ==>
              Represents(LatePut(t, r, payload, now), m[r.id := r.(payload := payload, updatedAt := now)])
  {
    var put := r.(payload := payload, updatedAt := now);
    if r.id in m {
      PutKeeps(t, m, put);
    } else {
      forall m' ensures !Represents(LatePut(t, r, payload, now), m')
      {
        OrphanRow(t, m, put, m');
      }
    }
  }

  /** A record row calls for the pointers that lead to it. */
  lemma RecordCallsForRows(t: Table, m: Flat, sk: string)
    requires Represents(t, m) && sk in t && t[sk].RecordItem?
    ensures var r := t[sk].record;
            && IdKey(r.id) in t
            && (r.level == UserOauth ==> r.createdBy.Some? && OauthKey(r.provider, r.createdBy.value) in t)
  {
    assert RowOwned(t, m, sk);
    assert RowsPresent(t, m[t[sk].record.id]);
  }

  /** A record row without its id pointer belongs to no consistent table. */
  lemma OrphanRow(t: Table, m: Flat, r: Record, m': Flat)
    requires Represents(t, m) && Plain(r.id) && r.id !in m
    ensures !Represents(t[CredKey(r.provider, r.id) := RecordItem(r)], m')
  {
    var t' := t[CredKey(r.provider, r.id) := RecordItem(r)];
    KindsDiffer(r.provider, r.id, r.id, "", "");
    CollisionMeansTaken(t, m, r.provider, r.id);
    assert IdKey(r.id) !in t';
    if Represents(t', m') {
      RecordCallsForRows(t', m', CredKey(r.provider, r.id));
      assert false;
    }
  }

  // ----- A late delete -----

  /** The transaction of a delete that read `r`: it removes the rows `r` called for. */
  function LateDelete(t: Table, r: Record): Table {
    WithoutRows(t, r)
  }

  /** The delete takes away the connection pointer of another record. */
  predicate Robs(t: Table, m: Flat, r: Record) {
    r.id !in m && r.level == UserOauth && r.createdBy.Some? && OauthKey(r.provider, r.createdBy.value) in t
  }

  /**
   * A late delete leaves a consistent table if and only if its record is still there, or
   * no connection has its pointer key by now: a user who disconnected and connected again
   * in between loses the pointer of the new connection.
   */
  lemma LateDeleteExact(t: Table, m: Flat, r: Record)
    requires Represents(t, m) && MayHaveRead(m, r)
    ensures Consistent(LateDelete(t, r)) <==> !Robs(t, m, r)
    ensures !Robs(t, m, r) ==> Represents(LateDelete(t, r), m - {r.id})
  {
    if r.id in m {
      DeleteInTime(t, m, r);
    } else {
      CollisionMeansTaken(t, m, r.provider, r.id);
      assert m - {r.id} == m;
      if Robs(t, m, r) {
        forall m' ensures !Represents(LateDelete(t, r), m')
        {
          RobbedRow(t, m, r, m');
        }
      } else {
        assert LateDelete(t, r) == t;
      }
    }
  }

  lemma DeleteInTime(t: Table, m: Flat, r: Record)
    requires Represents(t, m) && r.id in m && SameIdentity(m[r.id], r)
    ensures Represents(LateDelete(t, r), m - {r.id})
  {
    LookupIsFlat(t, m, r.id);
    assert RowsPresent(t, m[r.id]);
    assert LateDelete(t, r) == WithoutRows(t, m[r.id]) == Delete(t, r.id).0;
    DeleteRefines(t, m, r.id);
  }

  /** The other record keeps its own row, and so calls for the pointer that is gone. */
  lemma RobbedRow(t: Table, m: Flat, r: Record, m': Flat)
    requires Represents(t, m) && Plain(r.id) && Robs(t, m, r)
    ensures !Represents(LateDelete(t, r), m')
  {
    var sk := OauthKey(r.provider, r.createdBy.value);
    PointerIsOwned(t, m, r.provider, r.createdBy.value);
    var id := t[sk].credentialId;
    assert RowOwned(t, m, sk);
    var other := m[id];
    assert RowsPresent(t, other);
    KeysApart(other, r);
    KindsDiffer(other.provider, other.id, r.id, r.provider, r.createdBy.value);
    var t' := LateDelete(t, r);
    assert CredKey(other.provider, other.id) in t' && sk !in t';
    if Represents(t', m') {
      RecordCallsForRows(t', m', CredKey(other.provider, other.id));
      assert false;
    }
  }

  // ----- The runs -----

  /** A delete between the read and the put of an update: the put brings back a record nothing leads to. */
  lemma DeletedRecordReturns(t: Table, m: Flat, id: string, payload: string, now: string)
    requires Represents(t, m) && id in m
    ensures !Consistent(LatePut(Delete(t, id).0, m[id], payload, now))
  {
    assert RowsPresent(t, m[id]);
    DeleteRefines(t, m, id);
    LatePutExact(Delete(t, id).0, m - {id}, m[id], payload, now);
  }

  /**
   * A delete and a new connection of the same user between the read and the transaction of
   * another delete: the new connection loses its pointer.
   */
  lemma ReconnectedUserIsRobbed(t: Table, m: Flat, id: string, input: Input, fresh': string, now: string)
    requires Represents(t, m) && id in m && m[id].level == UserOauth && m[id].createdBy == input.createdBy
    requires m[id].provider == input.provider && fresh' !in m && Plain(fresh')
    ensures var again := Create(Delete(t, id).0, input, UserOauth, fresh', now);
            again.1.Ok? && !Consistent(LateDelete(again.0, m[id]))
  {
    var gone := Delete(t, id).0;
    assert RowsPresent(t, m[id]);
    DeleteRefines(t, m, id);
    ReconnectAfterDelete(t, m, id, input, fresh', now);
    CreateKeeps(gone, m - {id}, input, UserOauth, fresh', now);
    var again := Create(gone, input, UserOauth, fresh', now).0;
    LateDeleteExact(again, (m - {id})[fresh' := NewRecord(input, UserOauth, fresh', now)], m[id]);
  }
}
