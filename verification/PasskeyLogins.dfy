/**
 Overlapping passkey handlers on values (webauth/webauthn/passkeys): each handler is the sequence
 of its accesses to the sessions and to the user database, and the accesses of many handlers come
 in any order. PasskeyStore proves that the shared arrays behave like this; here is what becomes
 of an update when several logins of one user overlap.
 */
module PasskeyLogins {
  import opened Common
  import P = Passkeys

  /** One access of handler `h`. `spare` is the room that Go's append leaves in a new array. */
  datatype Access =
    | BeginRegistration(id: P.UserId, email: string, displayName: string, data: P.SessionData, key: string)
    | BeginAuthentication(data: P.SessionData, key: string)
    | Redeem(h: nat, key: string)
    | Register(h: nat, cred: P.Credential, spare: nat)
    | LookUp(h: nat, id: P.UserId)
    | Update(h: nat, cred: P.Credential)
    | PutBack(h: nat)

  /** Sessions and users, the users that redeemed sessions handed out for registration, and the key
      of the entry that each login holds a copy of. */
  datatype Replayed = Replayed(
    sessions: map<string, P.Session>,
    values: map<string, P.User>,
    pending: map<nat, P.User>,
    held: map<nat, string>)

  function NoHandlers(s: P.State): Replayed {
    Replayed(s.sessions, s.users, map[], map[])
  }

  /** The accesses in order; an update applies to the database at once, and putting a copy back
      changes nothing. */
  function Replay(start: Replayed, accesses: seq<Access>): Replayed {
    if accesses == [] then start
    else After(Replay(start, accesses[..|accesses| - 1]), accesses[|accesses| - 1])
  }

  function After(r: Replayed, a: Access): Replayed {
    match a
    case BeginRegistration(id, email, displayName, data, key) =>
      r.(sessions := r.sessions[key := P.Session(Some(P.User(id, email, displayName, [])), data)])
    case BeginAuthentication(data, key) => r.(sessions := r.sessions[key := P.Session(None, data)])
    case Redeem(h, key) =>
      if key !in r.sessions then r
      else
        var user := r.sessions[key].user;
        r.(sessions := r.sessions - {key}, pending := if user.Some? then r.pending[h := user.value] else r.pending)
    case Register(h, cred, _) =>
      if h !in r.pending then r
      else r.(values := P.Store(r.values, r.pending[h].(credentials := [cred])), pending := r.pending - {h})
    case LookUp(h, id) => if P.Lookup(r.values, id).None? then r else r.(held := r.held[h := P.IdText(id)])
    case Update(h, cred) =>
      if h !in r.held || r.held[h] !in r.values then r
      else
        var was := r.values[r.held[h]];
        r.(values := r.values[r.held[h] := was.(credentials := P.Updated(was.credentials, cred))])
    case PutBack(_) => r
  }

  /** The identifier under which a pending user is registered is not in use yet. */
  predicate NewId(r: Replayed, a: Access) {
    a.Register? && a.h in r.pending ==> P.IdText(r.pending[a.h].id) !in r.values
  }

  ghost predicate NewIds(start: Replayed, accesses: seq<Access>) {
    forall i | 0 <= i < |accesses| :: NewId(Replay(start, accesses[..i]), accesses[i])
  }

  lemma EmptyReplay(start: Replayed, accesses: seq<Access>)
    requires accesses == []
    ensures Replay(start, accesses) == start
  {
  }

  lemma ReplayNext(start: Replayed, accesses: seq<Access>, i: nat)
    requires i < |accesses|
    ensures Replay(start, accesses[..i + 1]) == After(Replay(start, accesses[..i]), accesses[i])
  {
    assert accesses[..i + 1][..i] == accesses[..i];
  }

  /** The record that an entry holds for a credential ID. */
  function RecordOf(values: map<string, P.User>, key: string, id: seq<Byte>): Option<P.Credential> {
    if key !in values then None
    else
      var creds := values[key].credentials;
      var i := P.IndexOf(creds, id);
      if i < |creds| then Some(creds[i]) else None
  }

  /** The access writes the record of this ID in this entry: it registers the entry, or updates the
      ID through a copy of the entry. */
  predicate Writes(r: Replayed, a: Access, key: string, id: seq<Byte>) {
    || (a.Register? && a.h in r.pending && P.IdText(r.pending[a.h].id) == key)
    || (a.Update? && a.cred.id == id && a.h in r.held && r.held[a.h] == key && RecordOf(r.values, key, id).Some?)
  }

  /** What a writing access leaves as the record of an ID. */
  function Written(a: Access, id: seq<Byte>): Option<P.Credential> {
    if (a.Register? || a.Update?) && a.cred.id == id then Some(a.cred) else None
  }

  lemma RecordAfter(r: Replayed, a: Access, key: string, id: seq<Byte>)
    ensures RecordOf(After(r, a).values, key, id)
         == if Writes(r, a, key, id) then Written(a, id) else RecordOf(r.values, key, id)
  {
    hide P.IdText, P.IndexOf, P.Updated;
    if a.Update? && a.h in r.held && r.held[a.h] == key && key in r.values {
      UpdatedRecord(r.values[key].credentials, a.cred, id);
    } else if Writes(r, a, key, id) {
      SingleRecord(a.cred, id);
    }
  }

  lemma SingleRecord(cred: P.Credential, id: seq<Byte>)
    ensures P.IndexOf([cred], id) == if cred.id == id then 0 else 1
  {
  }

  /** An update touches the first credential with its ID and no other ID. */
  lemma UpdatedRecord(creds: seq<P.Credential>, cred: P.Credential, id: seq<Byte>)
    ensures P.IndexOf(P.Updated(creds, cred), id) == P.IndexOf(creds, id)
    ensures var i := P.IndexOf(creds, id);
            i < |creds| ==> i < |P.Updated(creds, cred)| == |creds|
                            && P.Updated(creds, cred)[i] == if cred.id == id then cred else creds[i]
  {
    var r := P.Updated(creds, cred);
    assert |r| == |P.Ids(r)| == |creds|;
    assert forall j | 0 <= j < |creds| :: r[j].id == P.Ids(r)[j] == P.Ids(creds)[j] == creds[j].id;
  }

  /** Access `m` is the latest that writes the record of this ID in this entry. */
  ghost predicate LatestWrite(start: Replayed, accesses: seq<Access>, m: nat, key: string, id: seq<Byte>) {
    && WritesAt(start, accesses, m, key, id)
    && forall j | m < j < |accesses| :: !WritesAt(start, accesses, j, key, id)
  }

  ghost predicate WritesAt(start: Replayed, accesses: seq<Access>, i: nat, key: string, id: seq<Byte>) {
    i < |accesses| && Writes(Replay(start, accesses[..i]), accesses[i], key, id)
  }

  /** After any accesses, the record of a credential ID is that of the latest access that wrote it,
      or the one at the start if none did. */
  lemma {:induction false} RecordIsLatestWrite(start: Replayed, accesses: seq<Access>, key: string, id: seq<Byte>)
    ensures var record := RecordOf(Replay(start, accesses).values, key, id);
            || (exists m: nat :: LatestWrite(start, accesses, m, key, id) && record == Written(accesses[m], id))
            || (&& record == RecordOf(start.values, key, id)
                && forall j: nat :: !WritesAt(start, accesses, j, key, id))
    decreases |accesses|
  {
    hide Replay, Writes, Written, RecordOf;
    if accesses == [] {
      EmptyReplay(start, accesses);
    } else {
      var n := |accesses| - 1;
      var front := accesses[..n];
      RecordIsLatestWrite(start, front, key, id);
      assert accesses[..n + 1] == accesses;
      ReplayNext(start, accesses, n);
      RecordAfter(Replay(start, front), accesses[n], key, id);
      WritesInPrefix(start, accesses, key, id);
      if WritesAt(start, accesses, n, key, id) {
        assert LatestWrite(start, accesses, n, key, id);
      } else if m: nat :| LatestWrite(start, front, m, key, id)
                           && RecordOf(Replay(start, front).values, key, id) == Written(front[m], id) {
        assert LatestWrite(start, accesses, m, key, id);
      }
    }
  }

  lemma WritesInPrefix(start: Replayed, accesses: seq<Access>, key: string, id: seq<Byte>)
    requires accesses != []
    ensures var front := accesses[..|accesses| - 1];
            forall j: nat | j < |front| :: WritesAt(start, front, j, key, id) <==> WritesAt(start, accesses, j, key, id)
  {
    var front := accesses[..|accesses| - 1];
    assert forall j: nat | j < |front| :: front[..j] == accesses[..j];
  }

  /**
   An update survives exactly when no later access writes another record of its ID to the entry
   last; so, if no later access writes the same record again, exactly when no later access writes
   that ID there at all. Updates of other IDs, lookups and stale copies put back do not matter.
   */
  lemma UpdateSurvivesExactly(start: Replayed, accesses: seq<Access>, i: nat, key: string)
    requires i < |accesses| && accesses[i].Update? && WritesAt(start, accesses, i, key, accesses[i].cred.id)
    ensures var cred := accesses[i].cred;
            var survives := RecordOf(Replay(start, accesses).values, key, cred.id) == Some(cred);
            && (survives <==>
                  exists m: nat :: i <= m && LatestWrite(start, accesses, m, key, cred.id) && accesses[m].cred == cred)
            && ((forall j: nat | i < j && WritesAt(start, accesses, j, key, cred.id) :: accesses[j].cred != cred) ==>
                  (survives <==> forall j: nat | i < j :: !WritesAt(start, accesses, j, key, cred.id)))
  {
    hide Replay, Writes, RecordOf;
    var cred := accesses[i].cred;
    RecordIsLatestWrite(start, accesses, key, cred.id);
    var m: nat :| LatestWrite(start, accesses, m, key, cred.id)
                  && RecordOf(Replay(start, accesses).values, key, cred.id) == Written(accesses[m], cred.id);
    assert i <= m;
    WritersHaveCredentials(start, accesses, key, cred.id);
    forall n: nat | LatestWrite(start, accesses, n, key, cred.id)
      ensures n == m
    {
      assert !(n < m) && !(m < n);
    }
  }

  lemma WritersHaveCredentials(start: Replayed, accesses: seq<Access>, key: string, id: seq<Byte>)
    ensures forall j: nat | WritesAt(start, accesses, j, key, id) :: accesses[j].Register? || accesses[j].Update?
  {
  }

  /** Two overlapping logins with one passkey: both updates are made, and the first is lost. */
  lemma OverlappingUpdateLost(start: Replayed, id: P.UserId, a: P.Credential, b: P.Credential)
    requires P.IdText(id) in start.values && a.id == b.id && a != b
    requires RecordOf(start.values, P.IdText(id), a.id).Some?
    ensures var accesses := [LookUp(0, id), LookUp(1, id), Update(0, a), Update(1, b), PutBack(0), PutBack(1)];
            RecordOf(Replay(start, accesses).values, P.IdText(id), a.id) == Some(b)
  {
    hide P.IdText, P.IndexOf, P.Updated, RecordOf, Replay;
    var key := P.IdText(id);
    var accesses := [LookUp(0, id), LookUp(1, id), Update(0, a), Update(1, b), PutBack(0), PutBack(1)];
    FourAccesses(start, LookUp(0, id), LookUp(1, id), Update(0, a), Update(1, b));
    var r2 := After(After(start, LookUp(0, id)), LookUp(1, id));
    assert r2.values == start.values && r2.held == start.held[0 := key][1 := key];
    var r3 := After(r2, Update(0, a));
    RecordAfter(r2, Update(0, a), key, a.id);
    assert r3.held == r2.held;
    RecordAfter(r3, Update(1, b), key, a.id);
    var four := accesses[..4];
    assert four == [LookUp(0, id), LookUp(1, id), Update(0, a), Update(1, b)];
    ReplayNext(start, accesses, 4);
    ReplayNext(start, accesses, 5);
    assert accesses[..6] == accesses;
  }

  lemma FourAccesses(start: Replayed, a: Access, b: Access, c: Access, d: Access)
    ensures Replay(start, [a, b, c, d]) == After(After(After(After(start, a), b), c), d)
  {
    hide After;
    var accesses := [a, b, c, d];
    assert accesses[..3] == [a, b, c] && accesses[..2] == [a, b] && accesses[..1] == [a] && accesses[..0] == [];
    ReplayNext(start, accesses, 0);
    ReplayNext(start, accesses, 1);
    ReplayNext(start, accesses, 2);
    ReplayNext(start, accesses, 3);
    assert accesses[..4] == accesses;
  }

  /** With new identifiers, no access removes an entry or changes its details or its IDs. */
  lemma {:induction false} EntriesKeepTheirIds(start: Replayed, accesses: seq<Access>, key: string)
    requires NewIds(start, accesses) && key in start.values
    ensures key in Replay(start, accesses).values
    ensures P.SameUser(start.values[key], Replay(start, accesses).values[key])
    decreases |accesses|
  {
    hide After;
    if accesses != [] {
      var n := |accesses| - 1;
      var front := accesses[..n];
      forall i | 0 <= i < n
        ensures NewId(Replay(start, front[..i]), front[i])
      {
        assert front[..i] == accesses[..i];
        assert NewId(Replay(start, accesses[..i]), accesses[i]);
      }
      EntriesKeepTheirIds(start, front, key);
      assert NewId(Replay(start, accesses[..n]), accesses[n]);
      EntryAfter(Replay(start, front), accesses[n], key);
    }
  }

  lemma EntryAfter(r: Replayed, a: Access, key: string)
    requires NewId(r, a) && key in r.values
    ensures key in After(r, a).values && P.SameUser(r.values[key], After(r, a).values[key])
  {
    hide P.IdText;
  }

  /** Nobody waits or is stored under this identifier. */
  ghost predicate Unused(r: Replayed, id: P.UserId) {
    && (forall k | k in r.sessions && r.sessions[k].user.Some? :: r.sessions[k].user.value.id != id)
    && (forall h | h in r.pending :: r.pending[h].id != id)
    && P.IdText(id) !in r.values
  }

  /** Waiting and pending users have different identifiers, and none of them is stored. */
  ghost predicate Apart(r: Replayed) {
    && (forall k, l | k in r.sessions && l in r.sessions && k != l && r.sessions[k].user.Some? && r.sessions[l].user.Some? ::
          r.sessions[k].user.value.id != r.sessions[l].user.value.id)
    && (forall g, h | g in r.pending && h in r.pending && g != h :: r.pending[g].id != r.pending[h].id)
    && (forall k, h | k in r.sessions && r.sessions[k].user.Some? && h in r.pending ::
          r.sessions[k].user.value.id != r.pending[h].id)
    && (forall k | k in r.sessions && r.sessions[k].user.Some? :: P.IdText(r.sessions[k].user.value.id) !in r.values)
    && (forall h | h in r.pending :: P.IdText(r.pending[h].id) !in r.values)
  }

  lemma UnusedAfter(r: Replayed, a: Access, id: P.UserId)
    requires Unused(r, id) && !(a.BeginRegistration? && a.id == id)
    ensures Unused(After(r, a), id)
  {
    hide P.IdText;
    if a.Register? && a.h in r.pending {
      P.IdRoundTrip(id, r.pending[a.h].id);
    }
  }

  lemma RegisterApart(r: Replayed, h: nat, cred: P.Credential, spare: nat)
    requires Apart(r) && h in r.pending
    ensures Apart(After(r, Register(h, cred, spare)))
  {
    hide P.IdText, P.Updated;
    forall id: P.UserId | id != r.pending[h].id
      ensures P.IdText(id) != P.IdText(r.pending[h].id)
    {
      P.IdRoundTrip(id, r.pending[h].id);
    }
  }

  lemma SessionsApart(r: Replayed, a: Access)
    requires Apart(r) && (a.BeginRegistration? ==> Unused(r, a.id))
    requires a.BeginRegistration? || a.BeginAuthentication? || a.Redeem?
    ensures Apart(After(r, a))
  {
    hide P.IdText, P.Updated, P.Lookup, P.Store;
  }

  lemma ApartAfter(r: Replayed, a: Access)
    requires Apart(r) && (a.BeginRegistration? ==> Unused(r, a.id))
    ensures Apart(After(r, a))
  {
    hide P.IdText, P.Updated;
    if a.BeginRegistration? || a.BeginAuthentication? || a.Redeem? {
      SessionsApart(r, a);
    } else if a.Register? && a.h in r.pending {
      RegisterApart(r, a.h, a.cred, a.spare);
    } else {
      var r' := After(r, a);
      assert r'.sessions == r.sessions && r'.pending == r.pending && r'.values.Keys == r.values.Keys;
    }
  }

  /** Identifiers of new registrations are new and differ, as random ones do. */
  ghost predicate FreshBegins(start: Replayed, accesses: seq<Access>) {
    && (forall j | 0 <= j < |accesses| && accesses[j].BeginRegistration? :: Unused(start, accesses[j].id))
    && (forall i, j | 0 <= i < j < |accesses| && accesses[i].BeginRegistration? && accesses[j].BeginRegistration? ::
          accesses[i].id != accesses[j].id)
  }

  lemma {:induction false} StaysUnused(start: Replayed, accesses: seq<Access>, i: nat, id: P.UserId)
    requires i <= |accesses| && Unused(start, id)
    requires forall j | 0 <= j < i && accesses[j].BeginRegistration? :: accesses[j].id != id
    ensures Unused(Replay(start, accesses[..i]), id)
  {
    hide After, Unused;
    if i > 0 {
      StaysUnused(start, accesses, i - 1, id);
      ReplayNext(start, accesses, i - 1);
      UnusedAfter(Replay(start, accesses[..i - 1]), accesses[i - 1], id);
    }
  }

  lemma {:induction false} StaysApart(start: Replayed, accesses: seq<Access>, i: nat)
    requires i <= |accesses| && Apart(start) && FreshBegins(start, accesses)
    ensures Apart(Replay(start, accesses[..i]))
  {
    hide After, Apart, Unused;
    if i > 0 {
      StaysApart(start, accesses, i - 1);
      ReplayNext(start, accesses, i - 1);
      if accesses[i - 1].BeginRegistration? {
        StaysUnused(start, accesses, i - 1, accesses[i - 1].id);
      }
      ApartAfter(Replay(start, accesses[..i - 1]), accesses[i - 1]);
    }
  }

  /** Fresh identifiers at the begin requests make every registration that follows one of a new
      user, however the handlers overlap and whatever session keys they use. */
  lemma FreshIdsAreNew(start: Replayed, accesses: seq<Access>)
    requires Apart(start) && FreshBegins(start, accesses)
    ensures NewIds(start, accesses)
  {
    forall i | 0 <= i < |accesses|
      ensures NewId(Replay(start, accesses[..i]), accesses[i])
    {
      StaysApart(start, accesses, i);
    }
  }

  /** Uninterrupted, the accesses of a FinishRegistration take the step of the protocol. */
  lemma UninterruptedRegistration(s: P.State, h: nat, key: string, cred: P.Credential, spare: nat)
    requires P.UsersGood(s)
    ensures var r := After(After(NoHandlers(s), Redeem(h, key)), Register(h, cred, spare));
            var s' := P.Step(s, P.FinishRegistration(Some(key), Some(cred)));
            r.sessions == s'.sessions && r.values == s'.users
  {
    hide P.IdText;
    if key in s.sessions && s.sessions[key].user.Some? {
      assert s.sessions[key].user.value.credentials + [cred] == [cred];
    }
  }

  /** Uninterrupted, the accesses of a FinishAuthentication take the step of the protocol. */
  lemma UninterruptedLogin(s: P.State, h: nat, key: string, id: P.UserId, cred: P.Credential, sessionSet: bool)
    requires key in s.sessions && P.UsersGood(s)
    ensures var r := After(After(After(After(NoHandlers(s), Redeem(h, key)), LookUp(h, id)), Update(h, cred)), PutBack(h));
            var s' := P.Step(s, P.FinishAuthentication(Some(key), Some((id, cred)), sessionSet));
            r.sessions == s'.sessions && r.values == s'.users
  {
    hide P.IdText;
    var r1 := After(NoHandlers(s), Redeem(h, key));
    assert r1.values == s.users && r1.sessions == s.sessions - {key} && r1.held == map[];
    if P.IdText(id) in s.users {
      var user := s.users[P.IdText(id)];
      assert P.IdText(user.id) == P.IdText(id);
      assert P.IndexOf(user.credentials, cred.id) == |user.credentials| ==>
          user.(credentials := P.Updated(user.credentials, cred)) == user;
      assert s.users[P.IdText(id) := user] == s.users;
    }
  }
}
