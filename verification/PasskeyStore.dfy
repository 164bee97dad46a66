/**
 The in-memory passkey store on the heap (webauth/webauthn/passkeys/user.go, session.go,
 user_db.go and the handlers of passkeys.go).

 Storing a user copies the struct but not its credentials array, and looking one up copies it
 again: database entries and looked-up users share arrays, and UpdateCredential writes through
 them. Every handler is nevertheless proved to take the step of the protocol on values.
 */
module PasskeyStore {
  import opened Common
  import P = Passkeys
  import L = PasskeyLogins

  /** A User struct held by value: copying it shares the array. `count` is the slice length. */
  datatype Record = Record(
    id: P.UserId, email: string, displayName: string, credentials: array<P.Credential>, count: nat)

  ghost function RecordValue(r: Record): P.User
    requires r.count <= r.credentials.Length
    reads r.credentials
  {
    P.User(r.id, r.email, r.displayName, r.credentials[..r.count])
  }

  /** A User behind a pointer. */
  class User {
    var id: P.UserId
    var email: string
    var displayName: string
    var credentials: array<P.Credential>
    var count: nat

    constructor (id: P.UserId, email: string, displayName: string)
      ensures this.id == id && this.email == email && this.displayName == displayName
      ensures count == 0 && credentials.Length == 0 && fresh(credentials)
    {
      this.id, this.email, this.displayName, count := id, email, displayName, 0;
      credentials := new P.Credential[0];
    }

    constructor Copy(r: Record)
      ensures id == r.id && email == r.email && displayName == r.displayName
      ensures credentials == r.credentials && count == r.count
    {
      id, email, displayName, credentials, count := r.id, r.email, r.displayName, r.credentials, r.count;
    }

    function Struct(): Record
      reads this
    {
      Record(id, email, displayName, credentials, count)
    }

    /** Go's append: in place while the array has room, else into a larger copy with `spare` room. */
    method AddCredential(cred: P.Credential, spare: nat)
      requires count <= credentials.Length
      modifies this`credentials, this`count, if count < credentials.Length then {credentials} else {}
      ensures count == old(count) + 1 <= credentials.Length
      ensures credentials[..count] == old(credentials[..count]) + [cred]
      ensures if old(count) < old(credentials.Length) then credentials == old(credentials) else fresh(credentials)
    {
      if count < credentials.Length {
        credentials[count] := cred;
      } else {
        var larger := new P.Credential[count + 1 + spare](i reads this, credentials =>
          if 0 <= i < credentials.Length then credentials[i] else cred);
        assert larger[..count] == credentials[..count];
        credentials := larger;
      }
      count := count + 1;
      assert credentials[..count] == credentials[..count - 1] + [cred];
    }

    method UpdateCredential(cred: P.Credential) returns (found: bool)
      requires count <= credentials.Length
      modifies credentials
      ensures found <==> P.IndexOf(old(credentials[..count]), cred.id) < count
      ensures credentials[..count] == P.Updated(old(credentials[..count]), cred)
    {
      ghost var was := credentials[..count];
      for i := 0 to count
        invariant credentials[..count] == was
        invariant forall j | 0 <= j < i :: was[j].id != cred.id
      {
        assert was[i] == credentials[i];
        if credentials[i].id == cred.id {
          credentials[i] := cred;
          assert P.IndexOf(was, cred.id) == i;
          assert credentials[..count] == was[i := cred];
          return true;
        }
      }
      return false;
    }
  }

  /** Each login's copy is the entry it looked up. */
  ghost predicate Copied(copies: map<nat, User>, held: map<nat, string>, users: map<string, Record>)
    reads copies.Values
  {
    && copies.Keys == held.Keys
    && forall h | h in copies :: held[h] in users && copies[h].Struct() == users[held[h]]
  }

  lemma CopyOf(copies: map<nat, User>, held: map<nat, string>, users: map<string, Record>, h: nat)
    requires Copied(copies, held, users)
    ensures h in copies <==> h in held
    ensures h in copies ==> held[h] in users && copies[h].Struct() == users[held[h]]
  {
  }

  lemma AddCopy(copies: map<nat, User>, held: map<nat, string>, users: map<string, Record>, h: nat, user: User, key: string)
    requires Copied(copies, held, users) && key in users && user.Struct() == users[key]
    ensures Copied(copies[h := user], held[h := key], users)
  {
  }

  lemma CopiesWithNewEntry(copies: map<nat, User>, held: map<nat, string>, users: map<string, Record>, key: string, r: Record)
    requires Copied(copies, held, users) && key !in users
    ensures Copied(copies, held, users[key := r])
  {
  }

  /** Users taken out of their sessions and not stored yet, one for each handler. */
  ghost predicate Pending(pending: map<nat, User>, values: map<nat, P.User>)
    reads pending.Values
  {
    && pending.Keys == values.Keys
    && (forall h | h in pending ::
          && pending[h].count == 0 && pending[h].credentials.Length == 0
          && values[h] == P.User(pending[h].id, pending[h].email, pending[h].displayName, []))
    && (forall g, h | g in pending && h in pending && g != h :: pending[g] != pending[h])
  }

  lemma AddPending(pending: map<nat, User>, values: map<nat, P.User>, h: nat, user: User)
    requires Pending(pending, values) && user !in pending.Values
    requires user.count == 0 && user.credentials.Length == 0
    ensures Pending(pending[h := user], values[h := P.User(user.id, user.email, user.displayName, [])])
  {
  }

  lemma RemovePending(pending: map<nat, User>, values: map<nat, P.User>, h: nat)
    requires Pending(pending, values) && h in pending
    ensures Pending(pending - {h}, values - {h}) && pending[h] !in (pending - {h}).Values
    ensures pending[h].count == 0 && pending[h].credentials.Length == 0
    ensures h in values && values[h] == P.User(pending[h].id, pending[h].email, pending[h].displayName, [])
  {
  }

  lemma PendingKeys(pending: map<nat, User>, values: map<nat, P.User>)
    requires Pending(pending, values)
    ensures pending.Keys == values.Keys
  {
  }

  datatype Session = Session(user: User?, data: P.SessionData)

  class RAMUserDatabase {
    var sessions: map<string, Session>
    var users: map<string, Record>
    var logins: seq<P.UserId>

    constructor ()
      ensures Valid() && Model() == P.START
    {
      sessions, users, logins := map[], map[], [];
    }

    ghost function Arrays(): set<array<P.Credential>>
      reads this`users
    {
      set k | k in users :: users[k].credentials
    }

    ghost function Waiting(): set<User>
      reads this`sessions
    {
      set k | k in sessions && sessions[k].user != null :: sessions[k].user
    }

    /** Arrays are shared with copies, never between two entries. */
    ghost predicate EntriesValid()
      reads this`users
    {
      && (forall k | k in users :: 0 < users[k].count <= users[k].credentials.Length && k == P.IdText(users[k].id))
      && (forall k, l | k in users && l in users && k != l :: users[k].credentials != users[l].credentials)
    }

    /** Users awaiting registration are distinct and have no credentials yet. */
    ghost predicate SessionsValid()
      reads this`sessions, Waiting()
    {
      && (forall k | k in sessions && sessions[k].user != null ::
            sessions[k].user.count == 0 && sessions[k].user.credentials.Length == 0)
      && (forall k, l | k in sessions && l in sessions && k != l && sessions[k].user != null ::
            sessions[k].user != sessions[l].user)
    }

    ghost predicate Valid()
      reads this`sessions, this`users, Waiting()
    {
      EntriesValid() && SessionsValid()
    }

    ghost function SessionValue(s: Session): P.Session
      reads s.user
    {
      if s.user == null then P.Session(None, s.data)
      else P.Session(Some(P.User(s.user.id, s.user.email, s.user.displayName, [])), s.data)
    }

    ghost function SessionValues(): map<string, P.Session>
      reads this`sessions, Waiting()
    {
      map k | k in sessions :: SessionValue(sessions[k])
    }

    ghost function UserValues(): map<string, P.User>
      requires EntriesValid()
      reads this`users, Arrays()
    {
      map k | k in users :: RecordValue(users[k])
    }

    ghost function Model(): P.State
      requires Valid()
      reads this, Waiting(), Arrays()
    {
      P.State(SessionValues(), UserValues(), logins)
    }

    lemma EntryKeys()
      requires EntriesValid()
      ensures UserValues().Keys == users.Keys
    {
    }

    /** Sessions do not notice what happens to entries and their arrays. */
    twostate lemma SessionsFrame()
      requires old(SessionsValid()) && sessions == old(sessions)
      requires forall k | k in sessions && sessions[k].user != null :: unchanged(sessions[k].user)
      ensures SessionsValid() && SessionValues() == old(SessionValues())
    {
      assert forall k | k in sessions :: SessionValue(sessions[k]) == old(SessionValue(sessions[k]));
    }

    method Store(user: User)
      modifies this`users
      ensures users == old(users)[P.IdText(user.id) := user.Struct()]
    {
      hide P.IdText;
      users := users[P.IdText(user.id) := user.Struct()];
    }

    /** The returned user is a fresh copy whose array is the stored one. */
    method Lookup(id: P.UserId) returns (user: User?)
      requires Valid()
      ensures Valid() && SessionValues() == old(SessionValues()) && UserValues() == old(UserValues())
      ensures user == null <==> P.Lookup(UserValues(), id).None?
      ensures user != null ==> fresh(user) && P.IdText(id) in users && user.Struct() == users[P.IdText(id)]
      ensures user != null ==> P.IdText(id) in UserValues() && user.id == UserValues()[P.IdText(id)].id
      ensures user != null ==> P.IdText(user.id) == P.IdText(id)
    {
      hide P.IdText;
      if P.IdText(id) !in users {
        return null;
      }
      user := new User.Copy(users[P.IdText(id)]);
    }

    method AddSession(key: string, session: Session)
      requires Valid()
      requires session.user != null ==>
                 && session.user !in Waiting()
                 && session.user.count == 0 && session.user.credentials.Length == 0
      modifies this`sessions
      ensures Valid()
      ensures UserValues() == old(UserValues())
      ensures SessionValues() == old(SessionValues())[key := SessionValue(session)]
      ensures forall user | user in Waiting() :: user in old(Waiting()) || user == session.user
    {
      hide P.IdText;
      sessions := sessions[key := session];
    }

    method BeginRegistration(id: P.UserId, email: string, displayName: string, data: P.SessionData, key: string)
      requires Valid()
      modifies this`sessions
      ensures Valid()
      ensures Model() == P.Step(old(Model()), P.BeginRegistration(id, email, displayName, data, key))
      ensures forall user | user in Waiting() :: user in old(Waiting()) || fresh(user)
    {
      hide P.IdText;
      var user := new User(id, email, displayName);
      ghost var before := SessionValues();
      AddSession(key, Session(user, data));
      assert SessionValues() == before[key := SessionValue(Session(user, data))];
    }

    method BeginAuthentication(data: P.SessionData, key: string)
      requires Valid()
      modifies this`sessions
      ensures Valid()
      ensures Model() == P.Step(old(Model()), P.BeginAuthentication(data, key))
      ensures Waiting() <= old(Waiting())
    {
      hide P.IdText;
      AddSession(key, Session(null, data));
    }

    /** Registered and Authenticated: the session is handed out and forgotten. */
    method Redeem(key: string) returns (session: Option<Session>)
      requires Valid()
      modifies this`sessions
      ensures Valid() && UserValues() == old(UserValues())
      ensures session.Some? <==> key in old(SessionValues())
      ensures session.Some? ==> SessionValue(session.value) == old(SessionValues())[key]
      ensures session.Some? && session.value.user != null ==> session.value.user in old(Waiting())
      ensures SessionValues() == if session.Some? then old(SessionValues()) - {key} else old(SessionValues())
      ensures session.Some? && session.value.user != null ==>
                && session.value.user !in Waiting()
                && session.value.user.count == 0 && session.value.user.credentials.Length == 0
      ensures Waiting() <= old(Waiting())
    {
      hide P.IdText;
      if key !in sessions {
        return None;
      }
      session := Some(sessions[key]);
      sessions := sessions - {key};
    }

    /** Store, for a user whose array no entry holds. */
    method PutEntry(user: User)
      requires Valid() && 0 < user.count <= user.credentials.Length && user.credentials !in Arrays()
      modifies this`users
      ensures Valid() && SessionValues() == old(SessionValues())
      ensures UserValues() == P.Store(old(UserValues()), RecordValue(user.Struct()))
      ensures users == old(users)[P.IdText(user.id) := user.Struct()]
    {
      hide P.IdText, SessionsValid, SessionValues;
      Store(user);
      SessionsFrame();
    }

    /** The end of a registration: the first credential goes into a new array, and Store copies
        the struct. */
    method StoreNew(user: User, cred: P.Credential, spare: nat)
      requires Valid() && user !in Waiting() && user.count == 0 && user.credentials.Length == 0
      modifies this`users, user
      ensures Valid() && SessionValues() == old(SessionValues())
      ensures UserValues() == P.Store(old(UserValues()), P.User(old(user.id), old(user.email), old(user.displayName), [cred]))
      ensures users == old(users)[P.IdText(old(user.id)) := user.Struct()] && fresh(user.credentials)
    {
      hide P.IdText;
      ghost var key, sessionValues, userValues := P.IdText(user.id), SessionValues(), UserValues();
      user.AddCredential(cred, spare);
      assert user.credentials[..user.count] == [cred];
      assert user.credentials !in Arrays();
      assert Valid() && SessionValues() == sessionValues && UserValues() == userValues;
      PutEntry(user);
    }

    method FinishRegistration(cookie: Option<string>, credential: Option<P.Credential>, spare: nat)
      requires Valid()
      modifies this, Waiting()
      ensures Valid()
      ensures Model() == P.Step(old(Model()), P.FinishRegistration(cookie, credential))
    {
      hide P.IdText;
      if cookie.None? {
        return;
      }
      var session := Redeem(cookie.value);
      if session.None? || session.value.user == null || credential.None? {
        return;
      }
      StoreNew(session.value.user, credential.value, spare);
      assert [] + [credential.value] == [credential.value];
    }

    /** UpdateCredential on a copy of an entry changes that entry and no other. */
    method WriteThrough(user: User, ghost key: string, cred: P.Credential) returns (found: bool)
      requires Valid() && key in users && user.Struct() == users[key]
      modifies Arrays()
      ensures Valid() && SessionValues() == old(SessionValues())
      ensures key in old(UserValues())
      ensures var was := old(UserValues())[key];
              && (found <==> P.IndexOf(was.credentials, cred.id) < |was.credentials|)
              && UserValues() == old(UserValues())[key := was.(credentials := P.Updated(was.credentials, cred))]
    {
      hide P.IdText, P.Updated, P.IndexOf, SessionsValid, SessionValues;
      ghost var was := RecordValue(users[key]);
      found := user.UpdateCredential(cred);
      SessionsFrame();
      assert RecordValue(users[key]) == was.(credentials := P.Updated(was.credentials, cred));
      assert forall k | k in users && k != key :: RecordValue(users[k]) == old(RecordValue(users[k]));
    }

    /** Lookup, UpdateCredential through the shared array, and Store. */
    method UpdateStored(id: P.UserId, cred: P.Credential) returns (user: User?, found: bool)
      requires Valid()
      modifies this`users, Arrays()
      ensures Valid() && SessionValues() == old(SessionValues())
      ensures var updated := P.UpdatedUser(old(UserValues()), id, cred);
              && (found <==> updated.Some?)
              && (found ==> user != null && user.id == updated.value.id)
              && UserValues() == if found then P.Store(old(UserValues()), updated.value) else old(UserValues())
    {
      hide P.IdText, EntriesValid, SessionsValid, SessionValues, UserValues;
      found := false;
      user := Lookup(id);
      if user == null {
        return;
      }
      ghost var key, values := P.IdText(id), UserValues();
      assert P.Lookup(values, id) == Some(values[key]);
      found := WriteThrough(user, key, cred);
      if !found {
        assert values[key := values[key]] == values;
        return;
      }
      StoreAgain(user, key);
    }

    /** Storing a looked-up copy puts back the entry it is a copy of. */
    method StoreAgain(user: User, ghost key: string)
      requires Valid() && key in users && user.Struct() == users[key]
      modifies this`users
      ensures users == old(users) && Valid()
      ensures SessionValues() == old(SessionValues()) && UserValues() == old(UserValues())
    {
      hide P.IdText;
      Store(user);
      assert users == old(users);
    }

    ghost predicate Linked(copies: map<nat, User>, pending: map<nat, User>, r: L.Replayed)
      reads this`sessions, this`users, Waiting(), Arrays(), copies.Values, pending.Values
    {
      && Valid() && SessionValues() == r.sessions && UserValues() == r.values
      && copies.Values !! Waiting() && pending.Values !! Waiting() && copies.Values !! pending.Values
      && Copied(copies, r.held, users) && Pending(pending, r.pending)
    }

    method PerformBegin(a: L.Access, copies: map<nat, User>, pending: map<nat, User>, ghost r: L.Replayed)
      requires Linked(copies, pending, r) && (a.BeginRegistration? || a.BeginAuthentication?)
      modifies this`sessions
      ensures Linked(copies, pending, L.After(r, a))
      ensures forall user | user in Waiting() :: user in old(Waiting()) || fresh(user)
    {
      hide P.IdText, SessionsValid, EntriesValid, UserValues, SessionValues;
      if a.BeginRegistration? {
        BeginRegistration(a.id, a.email, a.displayName, a.data, a.key);
      } else {
        BeginAuthentication(a.data, a.key);
      }
    }

    method PerformRedeem(h: nat, key: string, copies: map<nat, User>, pending: map<nat, User>, ghost r: L.Replayed)
      returns (pending': map<nat, User>)
      requires Linked(copies, pending, r)
      modifies this`sessions
      ensures Linked(copies, pending', L.After(r, L.Redeem(h, key)))
      ensures Waiting() <= old(Waiting()) && pending'.Values <= pending.Values + old(Waiting())
    {
      hide P.IdText, P.Updated, P.Lookup, P.Store, SessionsValid, EntriesValid, UserValues, SessionValues,
           Copied, Pending, Waiting;
      pending' := pending;
      var session := Redeem(key);
      if session.Some? && session.value.user != null {
        AddPending(pending, r.pending, h, session.value.user);
        pending' := pending[h := session.value.user];
      }
    }

    method PerformRegister(h: nat, cred: P.Credential, spare: nat, copies: map<nat, User>, pending: map<nat, User>,
                           ghost r: L.Replayed)
      returns (pending': map<nat, User>)
      requires Linked(copies, pending, r) && L.NewId(r, L.Register(h, cred, spare))
      modifies this`users, pending.Values
      ensures Linked(copies, pending', L.After(r, L.Register(h, cred, spare)))
      ensures Waiting() == old(Waiting()) && pending'.Values <= pending.Values
      ensures forall a | a in Arrays() :: a in old(Arrays()) || fresh(a)
    {
      hide P.IdText, P.Updated, P.Lookup, P.Store, SessionsValid, EntriesValid, UserValues, SessionValues,
           Copied, Pending, Waiting;
      PendingKeys(pending, r.pending);
      pending' := pending;
      if h !in pending {
        return;
      }
      EntryKeys();
      RemovePending(pending, r.pending, h);
      pending' := pending - {h};
      ghost var before, key := users, P.IdText(pending[h].id);
      StoreNew(pending[h], cred, spare);
      CopiesWithNewEntry(copies, r.held, before, key, pending[h].Struct());
    }

    method PerformLookUp(h: nat, id: P.UserId, copies: map<nat, User>, pending: map<nat, User>, ghost r: L.Replayed)
      returns (copies': map<nat, User>)
      requires Linked(copies, pending, r)
      ensures Linked(copies', pending, L.After(r, L.LookUp(h, id)))
    {
      hide P.IdText, P.Updated, P.Store, SessionsValid, EntriesValid, UserValues, SessionValues, Copied, Pending;
      copies' := copies;
      var user := Lookup(id);
      if user != null {
        AddCopy(copies, r.held, users, h, user, P.IdText(id));
        copies' := copies[h := user];
      }
    }

    method PerformUpdate(h: nat, cred: P.Credential, copies: map<nat, User>, pending: map<nat, User>, ghost r: L.Replayed)
      requires Linked(copies, pending, r)
      modifies Arrays()
      ensures Linked(copies, pending, L.After(r, L.Update(h, cred)))
    {
      hide P.IdText, P.Updated, P.Lookup, P.Store, SessionsValid, EntriesValid, UserValues, SessionValues,
           Copied, Pending, Waiting, Arrays;
      CopyOf(copies, r.held, users, h);
      if h in copies {
        var _ := WriteThrough(copies[h], r.held[h], cred);
      }
    }

    method PerformPutBack(h: nat, copies: map<nat, User>, pending: map<nat, User>, ghost r: L.Replayed)
      requires Linked(copies, pending, r)
      modifies this`users
      ensures Linked(copies, pending, r) && users == old(users)
    {
      hide P.IdText, P.Updated, P.Lookup, P.Store, SessionsValid, EntriesValid, UserValues, SessionValues,
           Copied, Pending, Waiting, Arrays;
      CopyOf(copies, r.held, users, h);
      if h in copies {
        StoreAgain(copies[h], r.held[h]);
      }
    }

    /** One access, by the handler that holds `copies[h]` or `pending[h]`. */
    method Perform(a: L.Access, copies: map<nat, User>, pending: map<nat, User>, ghost r: L.Replayed)
      returns (copies': map<nat, User>, pending': map<nat, User>)
      requires Linked(copies, pending, r) && L.NewId(r, a)
      modifies this`sessions, this`users, Arrays(), pending.Values
      ensures Linked(copies', pending', L.After(r, a))
      ensures forall user | user in Waiting() || user in pending'.Values ::
                user in old(Waiting()) || user in pending.Values || fresh(user)
      ensures forall a | a in Arrays() :: a in old(Arrays()) || fresh(a)
    {
      hide P.IdText, P.Updated, Linked, Waiting, Arrays;
      copies', pending' := copies, pending;
      match a {
        case BeginRegistration(_, _, _, _, _) => PerformBegin(a, copies, pending, r);
        case BeginAuthentication(_, _) => PerformBegin(a, copies, pending, r);
        case Redeem(h, key) => pending' := PerformRedeem(h, key, copies, pending, r);
        case Register(h, cred, spare) => pending' := PerformRegister(h, cred, spare, copies, pending, r);
        case LookUp(h, id) => copies' := PerformLookUp(h, id, copies, pending, r);
        case Update(h, cred) => PerformUpdate(h, cred, copies, pending, r);
        case PutBack(h) => PerformPutBack(h, copies, pending, r);
      }
    }

    /**
     The accesses that any number of overlapping handlers make, in any order: sessions are opened
     and redeemed, new users stored, stored users looked up, updated through the copy and stored
     again. Although copies share arrays with entries and are stored late, the database goes
     through the accesses as on values: a stale copy that is put back undoes nothing.
     */
    method InterleavedHandlers(accesses: seq<L.Access>)
      requires Valid() && L.NewIds(L.NoHandlers(Model()), accesses)
      modifies this`sessions, this`users, Waiting(), Arrays()
      ensures Valid()
      ensures SessionValues() == L.Replay(L.NoHandlers(old(Model())), accesses).sessions
      ensures UserValues() == L.Replay(L.NoHandlers(old(Model())), accesses).values
    {
      hide P.IdText, EntriesValid, SessionsValid, SessionValues, UserValues, Arrays, Waiting, L.After;
      ghost var start := L.NoHandlers(Model());
      var copies: map<nat, User>, pending: map<nat, User> := map[], map[];
      assert Linked(copies, pending, L.Replay(start, []));
      hide Copied, Pending;
      for i := 0 to |accesses|
        invariant Linked(copies, pending, L.Replay(start, accesses[..i]))
        invariant forall user | user in Waiting() || user in pending.Values :: user in old(Waiting()) || fresh(user)
        invariant forall a | a in Arrays() :: a in old(Arrays()) || fresh(a)
      {
        assert L.NewId(L.Replay(start, accesses[..i]), accesses[i]);
        copies, pending := Perform(accesses[i], copies, pending, L.Replay(start, accesses[..i]));
        L.ReplayNext(start, accesses, i);
      }
      assert accesses[..|accesses|] == accesses;
    }

    /** The login manager is told who has authenticated. */
    method RecordLogin(id: P.UserId)
      requires Valid()
      modifies this`logins
      ensures Valid() && SessionValues() == old(SessionValues()) && UserValues() == old(UserValues())
      ensures logins == old(logins) + [id]
    {
      logins := logins + [id];
    }

    method FinishAuthentication(cookie: Option<string>, assertion: Option<(seq<Byte>, P.Credential)>, sessionSet: bool)
      requires Valid()
      modifies this, Arrays()
      ensures Valid()
      ensures Model() == P.Step(old(Model()), P.FinishAuthentication(cookie, assertion, sessionSet))
    {
      hide P.IdText, P.UpdatedUser, P.Store, EntriesValid, SessionsValid, SessionValues, UserValues;
      if cookie.None? {
        return;
      }
      var session := Redeem(cookie.value);
      if session.None? || assertion.None? || |assertion.value.0| != 64 {
        return;
      }
      var user, found := UpdateStored(assertion.value.0, assertion.value.1);
      if found && sessionSet {
        RecordLogin(user.id);
      }
    }
  }
}
