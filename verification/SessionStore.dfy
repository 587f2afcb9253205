/** The session table that requests write to, and the publisher that fills a generation's identity maps. */
module SessionStore {
  import opened Wrappers
  import opened Authorization
  import opened Sessions
  import opened SessionLaws

  type Rows = map<SessionId, WebSession>

  const WEEK: Instant := 604800

  /**
   * Everything that happens to the table: a row is inserted under a new id, an active row is revoked, and a
   * cleanup deletes rows a week after they expired or were revoked.
   */
  datatype Change =
    | Insert(id: SessionId, row: WebSession)
    | Revoke(id: SessionId, now: Instant)
    | Cleanup(id: SessionId, now: Instant)

  function Revoked(row: WebSession, now: Instant): WebSession {
    row.(active := false, revokedAt := Some(now))
  }

  /** Whether a cleanup at this time may take the row; which ones it takes in one go is its own choice. */
  predicate IsStale(row: WebSession, now: Instant) {
    row.expiresAt < now - WEEK || (row.revokedAt.Some? && row.revokedAt.value < now - WEEK)
  }

  function Apply(rows: Rows, change: Change): Rows {
    match change
    case Insert(id, row) => if id in rows then rows else rows[id := row]
    case Revoke(id, now) => if id in rows && rows[id].active then rows[id := Revoked(rows[id], now)] else rows
    case Cleanup(id, now) => if id in rows && IsStale(rows[id], now) then rows - {id} else rows
  }

  function ApplyAll(rows: Rows, changes: seq<Change>): Rows
    decreases changes
  {
    if changes == [] then rows else ApplyAll(Apply(rows, changes[0]), changes[1..])
  }

  class SessionTable {
    var rows: Rows

    constructor ()
      ensures rows == map[]
    {
      rows := map[];
    }

    method Store(id: SessionId, row: Result<WebSession, ApplicationError>)
      returns (result: Result<SessionId, ApplicationError>)
      modifies this
      ensures result == (if row.Err? then Err(row.error) else if id in old(rows) then Err(Internal) else Ok(id))
      ensures rows == if row.Err? then old(rows) else Apply(old(rows), Insert(id, row.value))
    {
      if row.Err? {
        return Err(row.error);
      }
      if id in rows {
        return Err(Internal);
      }
      rows := rows[id := row.value];
      return Ok(id);
    }

    method CreateKeySession(config: Config, direct: Identity, id: SessionId, now: Instant)
      returns (result: Result<SessionId, ApplicationError>)
      modifies this
      ensures var row := KeySessionRow(config, direct, now);
              && (result.Ok? <==> row.Ok? && id !in old(rows))
              && (result.Ok? ==> result.value == id)
              && (result.Err? ==> result.error == if row.Err? then row.error else Internal)
              && rows == if row.Err? then old(rows) else Apply(old(rows), Insert(id, row.value))
    {
      result := Store(id, KeySessionRow(config, direct, now));
    }

    method CreateExternalSession(config: Config, direct: Identity, id: SessionId, now: Instant)
      returns (result: Result<SessionId, ApplicationError>)
      modifies this
      ensures var row := ExternalSessionRow(config, direct, now);
              && (result.Ok? <==> row.Ok? && id !in old(rows))
              && (result.Ok? ==> result.value == id)
              && (result.Err? ==> result.error == if row.Err? then row.error else Internal)
              && rows == if row.Err? then old(rows) else Apply(old(rows), Insert(id, row.value))
    {
      result := Store(id, ExternalSessionRow(config, direct, now));
    }

    method Logout(identity: Identity, now: Instant) returns (result: Result<SessionId, ApplicationError>)
      modifies this
      ensures identity.sessionId.None? ==> result == Err(InvalidCredential) && rows == old(rows)
      ensures identity.sessionId.Some? ==>
                var id := identity.sessionId.value;
                && (result.Ok? <==> id in old(rows) && old(rows)[id].active)
                && (result.Err? ==> result.error == CredentialInactive)
                && (result.Ok? ==> rows == old(rows)[id := old(rows)[id].(active := false, revokedAt := Some(now))])
                && (result.Err? ==> rows == old(rows))
                && rows == Apply(old(rows), Revoke(id, now))
    {
      if identity.sessionId.None? {
        return Err(InvalidCredential);
      }
      var id := identity.sessionId.value;
      if id !in rows || !rows[id].active {
        return Err(CredentialInactive);
      }
      rows := rows[id := Revoked(rows[id], now)];
      return Ok(id);
    }

    /** Deletes the stale ones among the rows that one pass of the cleanup selects. */
    method CleanUp(candidates: seq<SessionId>, now: Instant) returns (deleted: nat)
      modifies this
      ensures rows == ApplyAll(old(rows), Cleanups(candidates, now))
      ensures deleted <= |candidates| && |rows| == |old(rows)| - deleted
      ensures forall id | id in rows :: id in old(rows) && rows[id] == old(rows)[id]
      ensures forall id | id in old(rows) ::
                id !in rows <==>
                && id in candidates
                && var row := old(rows)[id];
                   || row.expiresAt + 604800 < now
                   || (row.revokedAt.Some? && row.revokedAt.value + 604800 < now)
    {
      deleted := 0;
      for i := 0 to |candidates|
        invariant ApplyAll(old(rows), Cleanups(candidates, now)) == ApplyAll(rows, Cleanups(candidates[i..], now))
        invariant deleted <= i && |rows| == |old(rows)| - deleted
        invariant forall id | id in rows :: id in old(rows) && rows[id] == old(rows)[id]
        invariant forall id | id in old(rows) :: id !in rows <==> id in candidates[..i] && IsStale(old(rows)[id], now)
      {
        var id := candidates[i];
        assert Cleanups(candidates[i..], now)[1..] == Cleanups(candidates[i + 1..], now);
        assert candidates[..i + 1] == candidates[..i] + [id];
        if id in rows && IsStale(rows[id], now) {
          OneRowLess(rows, id);
          rows := rows - {id};
          deleted := deleted + 1;
        }
      }
    }
  }

  lemma OneRowLess(rows: Rows, id: SessionId)
    requires id in rows
    ensures |rows - {id}| == |rows| - 1
  {
    assert (rows - {id}).Keys == rows.Keys - {id};
  }

  function Cleanups(candidates: seq<SessionId>, now: Instant): (changes: seq<Change>)
    ensures |changes| == |candidates| && forall i :: 0 <= i < |changes| ==> changes[i] == Cleanup(candidates[i], now)
  {
    seq(|candidates|, i requires 0 <= i < |candidates| => Cleanup(candidates[i], now))
  }

  /** Ids are drawn afresh for every session. */
  predicate NeverReinserted(changes: seq<Change>, id: SessionId) {
    forall change :: change in changes ==> !(change.Insert? && change.id == id)
  }

  /** What may have become of a row: untouched, or revoked by one of the changes while it was active. */
  predicate IsSuccessor(row: WebSession, later: WebSession, id: SessionId, changes: seq<Change>) {
    || later == row
    || (row.active && exists change ::
          change in changes && change.Revoke? && change.id == id && later == Revoked(row, change.now))
  }

  /** One of the changes cleaned the row up, as it was or as it was revoked before. */
  ghost predicate WasCleanedUp(row: WebSession, id: SessionId, changes: seq<Change>) {
    exists change, last :: && change in changes && change.Cleanup? && change.id == id
                           && IsSuccessor(row, last, id, changes) && IsStale(last, change.now)
  }

  /**
   * Over any later changes a stored row is unchanged, or revoked once and for all, or gone; and it is gone
   * only through a cleanup more than a week after it expired or was revoked.
   */
  lemma {:induction false} RowsAreRevokedOnceAndCleanedUpLate(rows: Rows, changes: seq<Change>, id: SessionId)
    requires id in rows && NeverReinserted(changes, id)
    ensures if id in ApplyAll(rows, changes) then IsSuccessor(rows[id], ApplyAll(rows, changes)[id], id, changes)
            else WasCleanedUp(rows[id], id, changes)
    decreases changes
  {
    if changes != [] {
      var first, rest := changes[0], changes[1..];
      var next, end := Apply(rows, first), ApplyAll(rows, changes);
      assert first in changes && forall change :: change in rest ==> change in changes;
      if id !in next {
        StaysGone(next, rest, id);
        assert IsSuccessor(rows[id], rows[id], id, changes);
      } else {
        RowsAreRevokedOnceAndCleanedUpLate(next, rest, id);
        if id in end {
          SuccessorsCompose(rows[id], next[id], end[id], id, changes);
        } else {
          var change, last :| && change in rest && change.Cleanup? && change.id == id
                              && IsSuccessor(next[id], last, id, rest) && IsStale(last, change.now);
          SuccessorsCompose(rows[id], next[id], last, id, changes);
        }
      }
    }
  }

  lemma SuccessorsCompose(row: WebSession, next: WebSession, last: WebSession, id: SessionId, changes: seq<Change>)
    requires changes != [] && IsSuccessor(next, last, id, changes[1..])
    requires || next == row
             || (row.active && changes[0].Revoke? && changes[0].id == id && next == Revoked(row, changes[0].now))
    ensures IsSuccessor(row, last, id, changes)
  {
    assert changes[0] in changes && forall change :: change in changes[1..] ==> change in changes;
  }

  lemma {:induction false} StaysGone(rows: Rows, changes: seq<Change>, id: SessionId)
    requires id !in rows && NeverReinserted(changes, id)
    ensures id !in ApplyAll(rows, changes)
    decreases changes
  {
    if changes != [] {
      assert changes[0] in changes && forall change :: change in changes[1..] ==> change in changes;
      StaysGone(Apply(rows, changes[0]), changes[1..], id);
    }
  }

  /**
   * Over any later changes, a revoked session admits nothing, and a session never admits what its row
   * did not admit on the day it was stored.
   */
  lemma LaterTablesAdmitNoMore(
    config: Config, generation: Generation, rows: Rows, changes: seq<Change>, id: SessionId, now: Instant,
    required: set<ManagementScope>, target: Target)
    requires id in rows && NeverReinserted(changes, id)
    requires id in ApplyAll(rows, changes)
    requires Admits(config, generation, id, ApplyAll(rows, changes)[id], now, required, target)
    ensures rows[id].active && Admits(config, generation, id, rows[id], now, required, target)
  {
    RowsAreRevokedOnceAndCleanedUpLate(rows, changes, id);
  }

  /** Every row is active or bears the time at which it was revoked. */
  predicate Stamped(rows: Rows) {
    forall id | id in rows :: rows[id].active <==> rows[id].revokedAt.None?
  }

  lemma {:induction false} TablesStayStamped(rows: Rows, changes: seq<Change>)
    requires Stamped(rows)
    requires forall change :: change in changes && change.Insert? ==>
               (change.row.active <==> change.row.revokedAt.None?)
    ensures Stamped(ApplyAll(rows, changes))
    decreases changes
  {
    if changes != [] {
      assert changes[0] in changes && forall change :: change in changes[1..] ==> change in changes;
      TablesStayStamped(Apply(rows, changes[0]), changes[1..]);
    }
  }

  /** A cleanup never takes a row that could still admit a request, then or later. */
  lemma CleanupTakesNothingAdmissible(
    config: Config, generation: Generation, rows: Rows, id: SessionId, cleanedAt: Instant, now: Instant,
    required: set<ManagementScope>, target: Target)
    requires Stamped(rows) && id in rows && id !in Apply(rows, Cleanup(id, cleanedAt)) && now >= cleanedAt
    ensures !Admits(config, generation, id, rows[id], now, required, target)
  {
  }

  // ---- The publisher -------------------------------------------------------------------------------

  /** One stored key with the lookups of its current and, during a rotation, its overlapping secret. */
  datatype StoredKey = StoredKey(verifier: ManagementKeyVerifier, lookup: string, overlapLookup: Option<string>)

  predicate Filed(verifier: ManagementKeyVerifier, byId: map<KeyId, ManagementKeyVerifier>) {
    verifier.keyId in byId && byId[verifier.keyId] == verifier
  }

  datatype Keys = Keys(byLookup: map<string, ManagementKeyVerifier>, byId: map<KeyId, ManagementKeyVerifier>)

  function FileKey(keys: Keys, key: StoredKey): Keys {
    var byLookup := keys.byLookup[key.lookup := key.verifier];
    Keys(if key.overlapLookup.Some? then byLookup[key.overlapLookup.value := key.verifier] else byLookup,
         keys.byId[key.verifier.keyId := key.verifier])
  }

  function FileAll(stored: seq<StoredKey>): Keys {
    if stored == [] then Keys(map[], map[])
    else FileKey(FileAll(stored[..|stored| - 1]), stored[|stored| - 1])
  }

  ghost predicate DistinctKeys(stored: seq<StoredKey>) {
    forall i, j :: 0 <= i < j < |stored| ==> stored[i].verifier.keyId != stored[j].verifier.keyId
  }

  predicate LooksUp(key: StoredKey, text: string) {
    text == key.lookup || Some(text) == key.overlapLookup
  }

  predicate StoredAs(stored: seq<StoredKey>, id: KeyId, verifier: ManagementKeyVerifier) {
    exists i :: 0 <= i < |stored| && stored[i].verifier == verifier && verifier.keyId == id
  }

  predicate FoundBy(stored: seq<StoredKey>, text: string, verifier: ManagementKeyVerifier) {
    exists i :: 0 <= i < |stored| && stored[i].verifier == verifier && LooksUp(stored[i], text)
  }

  lemma StoredStays(init: seq<StoredKey>, last: StoredKey, id: KeyId, text: string, verifier: ManagementKeyVerifier)
    ensures StoredAs(init, id, verifier) ==> StoredAs(init + [last], id, verifier)
    ensures FoundBy(init, text, verifier) ==> FoundBy(init + [last], text, verifier)
    ensures StoredAs(init + [last], last.verifier.keyId, last.verifier)
    ensures LooksUp(last, text) ==> FoundBy(init + [last], text, last.verifier)
  {
    var stored := init + [last];
    assert stored[|init|] == last && forall i :: 0 <= i < |init| ==> stored[i] == init[i];
    if StoredAs(init, id, verifier) {
      var i :| 0 <= i < |init| && init[i].verifier == verifier && verifier.keyId == id;
      assert stored[i].verifier == verifier;
    }
    if FoundBy(init, text, verifier) {
      var i :| 0 <= i < |init| && init[i].verifier == verifier && LooksUp(init[i], text);
      assert stored[i].verifier == verifier;
    }
  }

  /** The filed keys are those stored, under their own id and under their own lookups. */
  lemma {:induction false} OnlyStoredKeysAreFiled(stored: seq<StoredKey>)
    ensures forall id | id in FileAll(stored).byId :: StoredAs(stored, id, FileAll(stored).byId[id])
    ensures forall text | text in FileAll(stored).byLookup :: FoundBy(stored, text, FileAll(stored).byLookup[text])
  {
    if stored != [] {
      var init, last := stored[..|stored| - 1], stored[|stored| - 1];
      OnlyStoredKeysAreFiled(init);
      assert stored == init + [last];
      forall id, text, verifier
        ensures StoredAs(init, id, verifier) ==> StoredAs(stored, id, verifier)
        ensures FoundBy(init, text, verifier) ==> FoundBy(stored, text, verifier)
        ensures StoredAs(stored, last.verifier.keyId, last.verifier)
        ensures LooksUp(last, text) ==> FoundBy(stored, text, last.verifier)
      {
        StoredStays(init, last, id, text, verifier);
      }
    }
  }

  lemma {:induction false} EveryStoredKeyIsFiled(stored: seq<StoredKey>, i: nat)
    requires DistinctKeys(stored) && i < |stored|
    ensures Filed(stored[i].verifier, FileAll(stored).byId)
    ensures forall text | LooksUp(stored[i], text) :: text in FileAll(stored).byLookup
  {
    if i < |stored| - 1 {
      EveryStoredKeyIsFiled(stored[..|stored| - 1], i);
    }
  }

  lemma FiledKeysAreConsistent(stored: seq<StoredKey>)
    requires DistinctKeys(stored)
    ensures var keys := FileAll(stored);
            && (forall text | text in keys.byLookup :: Filed(keys.byLookup[text], keys.byId))
            && (forall i :: 0 <= i < |stored| ==>
                  Filed(stored[i].verifier, keys.byId) && stored[i].lookup in keys.byLookup)
            && (forall i :: 0 <= i < |stored| && stored[i].overlapLookup.Some? ==>
                  stored[i].overlapLookup.value in keys.byLookup)
  {
    var keys := FileAll(stored);
    forall i | 0 <= i < |stored|
      ensures Filed(stored[i].verifier, keys.byId)
      ensures forall text | LooksUp(stored[i], text) :: text in keys.byLookup
    {
      EveryStoredKeyIsFiled(stored, i);
    }
    forall text | text in keys.byLookup
      ensures Filed(keys.byLookup[text], keys.byId)
    {
      OnlyStoredKeysAreFiled(stored);
      assert FoundBy(stored, text, keys.byLookup[text]);
    }
  }

  /** No two stored keys share a lookup. */
  ghost predicate DistinctLookups(stored: seq<StoredKey>) {
    forall i, j, text ::
      0 <= i < |stored| && 0 <= j < |stored| && LooksUp(stored[i], text) && LooksUp(stored[j], text) ==> i == j
  }

  lemma {:induction false} LookupsFindTheirKey(stored: seq<StoredKey>, i: nat, text: string)
    requires DistinctLookups(stored) && i < |stored| && LooksUp(stored[i], text)
    ensures text in FileAll(stored).byLookup && FileAll(stored).byLookup[text] == stored[i].verifier
  {
    var n := |stored| - 1;
    if i < n {
      assert forall j :: 0 <= j < n ==> stored[..n][j] == stored[j];
      LookupsFindTheirKey(stored[..n], i, text);
      assert !LooksUp(stored[n], text);
    }
  }

  method LoadManagementKeys(stored: seq<StoredKey>)
    returns (byLookup: map<string, ManagementKeyVerifier>, byId: map<KeyId, ManagementKeyVerifier>)
    requires DistinctKeys(stored)
    ensures Keys(byLookup, byId) == FileAll(stored)
    ensures forall text | text in byLookup :: Filed(byLookup[text], byId)
    ensures forall i :: 0 <= i < |stored| ==> Filed(stored[i].verifier, byId) && stored[i].lookup in byLookup
    ensures forall i :: 0 <= i < |stored| && stored[i].overlapLookup.Some? ==> stored[i].overlapLookup.value in byLookup
    ensures DistinctLookups(stored) ==>
              forall i :: 0 <= i < |stored| ==>
                && byLookup[stored[i].lookup] == stored[i].verifier
                && (stored[i].overlapLookup.Some? ==> byLookup[stored[i].overlapLookup.value] == stored[i].verifier)
  {
    byLookup, byId := map[], map[];
    for n := 0 to |stored|
      invariant Keys(byLookup, byId) == FileAll(stored[..n])
    {
      assert stored[..n + 1][..n] == stored[..n];
      var StoredKey(verifier, lookup, overlapLookup) := stored[n];
      byId := byId[verifier.keyId := verifier];
      byLookup := byLookup[lookup := verifier];
      if overlapLookup.Some? {
        byLookup := byLookup[overlapLookup.value := verifier];
      }
    }
    assert stored[..|stored|] == stored;
    FiledKeysAreConsistent(stored);
    if DistinctLookups(stored) {
      forall i | 0 <= i < |stored|
        ensures byLookup[stored[i].lookup] == stored[i].verifier
        ensures stored[i].overlapLookup.Some? ==> byLookup[stored[i].overlapLookup.value] == stored[i].verifier
      {
        LookupsFindTheirKey(stored, i, stored[i].lookup);
        if stored[i].overlapLookup.Some? {
          LookupsFindTheirKey(stored, i, stored[i].overlapLookup.value);
        }
      }
    }
  }

  datatype Issuers = Issuers(byName: map<string, ExternalIssuer>, byId: map<IssuerId, ExternalIssuer>)

  function FileIssuers(stored: seq<(string, ExternalIssuer)>): Issuers {
    if stored == [] then Issuers(map[], map[])
    else
      var before, last := FileIssuers(stored[..|stored| - 1]), stored[|stored| - 1];
      Issuers(before.byName[last.0 := last.1], before.byId[last.1.id := last.1])
  }

  ghost predicate DistinctIssuers(stored: seq<(string, ExternalIssuer)>) {
    forall i, j :: 0 <= i < j < |stored| ==> stored[i].1.id != stored[j].1.id
  }

  ghost predicate DistinctNames(stored: seq<(string, ExternalIssuer)>) {
    forall i, j :: 0 <= i < j < |stored| ==> stored[i].0 != stored[j].0
  }

  lemma {:induction false} EveryIssuerIsFiled(stored: seq<(string, ExternalIssuer)>, i: nat)
    requires i < |stored|
    ensures var filed := FileIssuers(stored);
            && stored[i].0 in filed.byName
            && (DistinctNames(stored) ==> filed.byName[stored[i].0] == stored[i].1)
            && stored[i].1.id in filed.byId
            && (DistinctIssuers(stored) ==> filed.byId[stored[i].1.id] == stored[i].1)
  {
    if i < |stored| - 1 {
      EveryIssuerIsFiled(stored[..|stored| - 1], i);
    }
  }

  lemma {:induction false} OnlyStoredIssuersAreFiled(stored: seq<(string, ExternalIssuer)>, name: string)
    requires name in FileIssuers(stored).byName
    ensures (name, FileIssuers(stored).byName[name]) in stored
  {
    var init, last := stored[..|stored| - 1], stored[|stored| - 1];
    assert stored == init + [last] && last == (last.0, last.1);
    if name != last.0 {
      OnlyStoredIssuersAreFiled(init, name);
    }
  }

  lemma FiledIssuersAreConsistent(stored: seq<(string, ExternalIssuer)>)
    requires DistinctIssuers(stored)
    ensures var filed := FileIssuers(stored);
            forall name | name in filed.byName ::
              filed.byName[name].id in filed.byId && filed.byId[filed.byName[name].id] == filed.byName[name]
  {
    var filed := FileIssuers(stored);
    forall name | name in filed.byName
      ensures filed.byName[name].id in filed.byId && filed.byId[filed.byName[name].id] == filed.byName[name]
    {
      OnlyStoredIssuersAreFiled(stored, name);
      var i :| 0 <= i < |stored| && stored[i] == (name, filed.byName[name]);
      EveryIssuerIsFiled(stored, i);
    }
  }

  method LoadIssuers(stored: seq<(string, ExternalIssuer)>)
    returns (byName: map<string, ExternalIssuer>, byId: map<IssuerId, ExternalIssuer>)
    requires DistinctIssuers(stored)
    ensures Issuers(byName, byId) == FileIssuers(stored)
    ensures forall name | name in byName :: byName[name].id in byId && byId[byName[name].id] == byName[name]
    ensures forall i :: 0 <= i < |stored| ==>
              && stored[i].0 in byName && (DistinctNames(stored) ==> byName[stored[i].0] == stored[i].1)
              && stored[i].1.id in byId && byId[stored[i].1.id] == stored[i].1
    ensures forall name | name in byName :: (name, byName[name]) in stored
  {
    byName, byId := map[], map[];
    for n := 0 to |stored|
      invariant Issuers(byName, byId) == FileIssuers(stored[..n])
    {
      assert stored[..n + 1][..n] == stored[..n];
      byName := byName[stored[n].0 := stored[n].1];
      byId := byId[stored[n].1.id := stored[n].1];
    }
    assert stored[..|stored|] == stored;
    FiledIssuersAreConsistent(stored);
    forall i | 0 <= i < |stored|
      ensures stored[i].0 in byName && (DistinctNames(stored) ==> byName[stored[i].0] == stored[i].1)
      ensures stored[i].1.id in byId && byId[stored[i].1.id] == stored[i].1
    {
      EveryIssuerIsFiled(stored, i);
    }
    forall name | name in byName
      ensures (name, byName[name]) in stored
    {
      OnlyStoredIssuersAreFiled(stored, name);
    }
  }

  /** A generation filled by both loaders is consistent, as reloading sessions relies on. */
  lemma LoadedGenerationIsConsistent(
    generation: Generation, keys: seq<StoredKey>, issuers: seq<(string, ExternalIssuer)>)
    requires DistinctKeys(keys) && DistinctIssuers(issuers)
    requires Keys(generation.managementKeys, generation.managementKeysById) == FileAll(keys)
    requires Issuers(generation.issuersByName, generation.issuersById) == FileIssuers(issuers)
    ensures Consistent(generation)
  {
    FiledKeysAreConsistent(keys);
    FiledIssuersAreConsistent(issuers);
    assert generation.managementKeys == FileAll(keys).byLookup && generation.managementKeysById == FileAll(keys).byId;
  }

  // ---- Narrowing by the key policy -----------------------------------------------------------------------

  /** What a policy allows keys in general, and keys that members issue themselves. */
  datatype KeyPolicy = KeyPolicy(
    scopes: set<ManagementScope>,
    capabilities: set<Capability>,
    memberScopes: set<ManagementScope>,
    memberCapabilities: set<Capability>)

  function PolicyScopes(policy: KeyPolicy, selfService: bool): set<ManagementScope> {
    if selfService then policy.scopes * policy.memberScopes else policy.scopes
  }

  function PolicyCapabilities(policy: KeyPolicy, selfService: bool): set<Capability> {
    if selfService then policy.capabilities * policy.memberCapabilities else policy.capabilities
  }

  /** A stored key as a generation holds it: narrowed by name, and inactive when nothing is left. */
  function EffectiveKey(
    stored: ManagementKeyVerifier, capabilities: set<Capability>, policy: KeyPolicy, selfService: bool
  ): ManagementKeyVerifier
  {
    var scopes := stored.scopes * PolicyScopes(policy, selfService);
    var remaining := capabilities * PolicyCapabilities(policy, selfService);
    stored.(scopes := scopes, capabilityCeiling := EncodeCeiling(remaining),
            active := stored.active && scopes != {} && remaining != {})
  }

  /** What a set of capabilities stands for once it is stored: administration stands for every one. */
  function Meaning(capabilities: set<Capability>): set<Capability> {
    if SystemAdministration in capabilities then ALL else capabilities
  }

  lemma MeaningOfMeet(a: set<Capability>, b: set<Capability>)
    ensures Meaning(a * b) <= Meaning(a) * Meaning(b)
    ensures Meaning(a * b) == Meaning(a) * Meaning(b) <==>
            || (SystemAdministration in a <==> SystemAdministration in b)
            || (SystemAdministration in a && b <= a) || (SystemAdministration in b && a <= b)
    ensures a != {} ==> Meaning(a) != {}
  {
    forall c: Capability ensures c in ALL {
      AllIsComplete(c);
    }
    assert SystemAdministration in a && SystemAdministration !in b ==> Meaning(a) * Meaning(b) == b;
    assert SystemAdministration in b && SystemAdministration !in a ==> Meaning(a) * Meaning(b) == a;
    assert b <= a <==> a * b == b;
    assert a <= b <==> a * b == a;
  }

  /**
   * Narrowing by name never lets a key exceed its policy, although the stored name of administration reads
   * back as every capability; and it leaves all that key and policy share exactly when neither names
   * administration, or both do, or there was nothing beyond the shared names to lose.
   */
  lemma EffectiveKeyStaysInsidePolicy(
    stored: ManagementKeyVerifier, capabilities: set<Capability>, policy: KeyPolicy, selfService: bool)
    ensures var key, allowed := EffectiveKey(stored, capabilities, policy, selfService),
                                PolicyCapabilities(policy, selfService);
            var decoded := DecodeCeiling(key.capabilityCeiling);
            && key.scopes == stored.scopes * PolicyScopes(policy, selfService)
            && decoded.Some? && decoded.value <= Meaning(capabilities) * Meaning(allowed)
            && (key.active ==> stored.active && key.scopes != {} && decoded.value != {})
            && (decoded.value == Meaning(capabilities) * Meaning(allowed) <==>
                || (SystemAdministration in capabilities <==> SystemAdministration in allowed)
                || (SystemAdministration in capabilities && allowed <= capabilities)
                || (SystemAdministration in allowed && capabilities <= allowed))
  {
    MeaningOfMeet(capabilities, PolicyCapabilities(policy, selfService));
    StoredCeilingReadsBack(capabilities * PolicyCapabilities(policy, selfService));
  }

  /** The capability is in the key's own set, in the policy's, and for a key a member issued in the members' too. */
  predicate Remains(capabilities: set<Capability>, policy: KeyPolicy, selfService: bool, c: Capability) {
    c in capabilities && c in policy.capabilities && (selfService ==> c in policy.memberCapabilities)
  }

  /** What a generation's key holds, on the four sets of the policy; it is active exactly if something is left. */
  lemma EffectiveKeyHolds(
    stored: ManagementKeyVerifier, capabilities: set<Capability>, policy: KeyPolicy, selfService: bool)
    ensures var key := EffectiveKey(stored, capabilities, policy, selfService);
            var decoded := DecodeCeiling(key.capabilityCeiling);
            && (forall scope :: scope in key.scopes <==>
                  && scope in stored.scopes && scope in policy.scopes
                  && (selfService ==> scope in policy.memberScopes))
            && decoded.Some?
            && (forall c :: c in decoded.value <==>
                  || Remains(capabilities, policy, selfService, c)
                  || Remains(capabilities, policy, selfService, SystemAdministration))
            && (key.active <==>
                && stored.active && (exists scope :: scope in key.scopes)
                && exists c :: Remains(capabilities, policy, selfService, c))
            && key == stored.(scopes := key.scopes, capabilityCeiling := key.capabilityCeiling, active := key.active)
  {
    var remaining := capabilities * PolicyCapabilities(policy, selfService);
    StoredCeilingReadsBack(remaining);
    forall c: Capability
      ensures c in ALL && (c in remaining <==> Remains(capabilities, policy, selfService, c))
    {
      AllIsComplete(c);
    }
  }
}
