/**
 Passkey registration and authentication as a protocol (webauth/webauthn/passkeys): sessions kept
 between the begin and finish requests of the ceremonies of sections 7.1 and 7.2 of W3C Web
 Authentication, and the user database they fill. What a ceremony answers is part of an event.

 This is the protocol on values; PasskeyStore runs the same steps on shared arrays.
 */
module Passkeys {
  import opened Common
  import Base64

  type UserId = b: seq<Byte> | |b| == 64 witness seq(64, _ => 0)

  function IdText(id: UserId): string {
    Base64.Encode(id)
  }

  /** The array that the decoder writes into; writing beyond it panics. */
  const ID_LENGTH: nat := 64

  datatype ParsedId = Parsed(id: UserId) | Failed | Crash

  /** uuidUserID.UnmarshalText. */
  function UnmarshalText(text: string): ParsedId {
    match Base64.DecodeInto(Base64.StripLines(text), ID_LENGTH)
    case Done(b) => if |b| == 64 then Parsed(b) else Failed
    case Corrupt => Failed
    case Overrun => Crash
  }

  /** Without its line breaks, a text parses exactly when it is 86 characters of the alphabet, and
      crashes the parser exactly when it goes on beyond them and is valid to the end of its 22nd
      group of four; every other text is an error. */
  lemma UnmarshalTextExactly(text: string)
    ensures var t := Base64.StripLines(text);
            && (UnmarshalText(text).Parsed? <==> |t| == 86 && Base64.InAlphabet(t))
            && (UnmarshalText(text).Crash? <==> |t| >= 87 && Base64.InAlphabet(t[..if |t| < 88 then |t| else 88]))
    ensures UnmarshalText(text).Parsed? ==> Base64.DecodeText(text) == Some(UnmarshalText(text).id)
  {
    hide Base64.DecodeInto, Base64.Bytes, Base64.InAlphabet, Base64.StripLines;
    var t := Base64.StripLines(text);
    Base64.OverrunsExactly(t, 64);
    if Base64.InAlphabet(t) {
      Base64.DecodedLength(Base64.Values(t));
    }
    ParsedExactly(text);
  }

  lemma ParsedExactly(text: string)
    ensures UnmarshalText(text).Parsed? <==>
              Base64.DecodeText(text).Some? && |Base64.DecodeText(text).value| == 64
    ensures UnmarshalText(text).Parsed? ==> Base64.DecodeText(text) == Some(UnmarshalText(text).id)
  {
    var t := Base64.StripLines(text);
    if Base64.Decode(t).Some? {
      Base64.DecodeIntoDone(t, 64, Base64.Decode(t).value);
    }
    if Base64.DecodeInto(t, 64).Done? {
      Base64.DecodeIntoDone(t, 64, Base64.DecodeInto(t, 64).bytes);
    }
  }

  /** The text of an identifier parses back to it and to nothing else, so texts can be keys. */
  lemma IdRoundTrip(id: UserId, other: UserId)
    ensures UnmarshalText(IdText(id)) == Parsed(id)
    ensures IdText(id) == IdText(other) <==> id == other
  {
    hide UnmarshalText, IdText;
    IdDecodes(id);
    IdDecodes(other);
    ParsedExactly(IdText(id));
  }

  lemma IdDecodes(id: UserId)
    ensures Base64.DecodeText(IdText(id)) == Some(id)
  {
    Base64.RoundTrip(id);
  }

  /** The text that names an identifier is one of several that parse to it: exactly the canonical
      one. */
  lemma CanonicalIdText(text: string)
    ensures UnmarshalText(text).Parsed? ==>
              (IdText(UnmarshalText(text).id) == text <==>
                 && '\r' !in text && '\n' !in text
                 && Base64.InAlphabet(text) && Base64.TrailingBitsZero(Base64.Values(text)))
  {
    hide UnmarshalText;
    ParsedExactly(text);
    if UnmarshalText(text).Parsed? {
      Base64.TextRoundTrip(text);
    }
  }

  lemma IdTextShape(id: UserId)
    ensures Base64.InAlphabet(IdText(id)) && |IdText(id)| == 86
    ensures '\r' !in IdText(id) && '\n' !in IdText(id) && Base64.StripLines(IdText(id)) == IdText(id)
  {
    Base64.ValuesOfText(Base64.Sextets(id));
    Base64.StripNothing(IdText(id));
    IdRoundTrip(id, id);
    UnmarshalTextExactly(IdText(id));
  }

  /** Every identifier has a text that parses to it and is not its own. */
  lemma NonCanonicalIdText(id: UserId)
    ensures UnmarshalText(IdText(id) + "\n") == Parsed(id) && IdText(id) + "\n" != IdText(id)
  {
    hide IdText;
    IdTextShape(id);
    IdRoundTrip(id, id);
    Base64.StripAppend(IdText(id), "\n");
    assert IdText(id) + "" == IdText(id);
  }

  /** One more character and the parser panics. */
  lemma CrashingText(id: UserId)
    ensures UnmarshalText(IdText(id) + "A") == Crash
  {
    hide IdText;
    IdTextShape(id);
    Base64.StripAppend(IdText(id), "A");
    UnmarshalTextExactly(IdText(id) + "A");
  }

  datatype Credential = Credential(id: seq<Byte>, record: seq<Byte>)

  datatype User = User(id: UserId, email: string, displayName: string, credentials: seq<Credential>)

  datatype SessionData = SessionData(challenge: seq<Byte>)

  /** A session without a user was opened for authentication. */
  datatype Session = Session(user: Option<User>, data: SessionData)

  /** The first credential with this ID, or the length of the list. */
  function IndexOf(creds: seq<Credential>, id: seq<Byte>): (i: nat)
    ensures i <= |creds|
    ensures forall j | 0 <= j < i :: creds[j].id != id
    ensures i < |creds| ==> creds[i].id == id
  {
    if creds == [] || creds[0].id == id then 0 else 1 + IndexOf(creds[1..], id)
  }

  function Ids(creds: seq<Credential>): seq<seq<Byte>> {
    seq(|creds|, i requires 0 <= i < |creds| => creds[i].id)
  }

  function Updated(creds: seq<Credential>, cred: Credential): (r: seq<Credential>)
    ensures Ids(r) == Ids(creds)
  {
    var i := IndexOf(creds, cred.id);
    if i < |creds| then creds[i := cred] else creds
  }

  function Store(users: map<string, User>, user: User): map<string, User> {
    users[IdText(user.id) := user]
  }

  function Lookup(users: map<string, User>, id: UserId): Option<User> {
    if IdText(id) in users then Some(users[IdText(id)]) else None
  }

  /** The string-keyed database is a map keyed by identifier. */
  lemma StoreThenLookup(users: map<string, User>, user: User, id: UserId)
    ensures Lookup(Store(users, user), id) == if id == user.id then Some(user) else Lookup(users, id)
  {
    IdRoundTrip(id, user.id);
  }

  datatype State = State(sessions: map<string, Session>, users: map<string, User>, logins: seq<UserId>)

  /** A begin event is one that succeeded; one that fails leaves no trace. A finish event carries
      the cookie, and what the ceremony answers if it is reached. */
  datatype Event =
    | BeginRegistration(id: UserId, email: string, displayName: string, data: SessionData, key: string)
    | FinishRegistration(cookie: Option<string>, credential: Option<Credential>)
    | BeginAuthentication(data: SessionData, key: string)
    | FinishAuthentication(cookie: Option<string>, assertion: Option<(seq<Byte>, Credential)>, sessionSet: bool)

  const START := State(map[], map[], [])

  predicate Live(s: State, cookie: Option<string>) {
    cookie.Some? && cookie.value in s.sessions
  }

  function Step(s: State, e: Event): State {
    match e
    case BeginRegistration(id, email, displayName, data, key) =>
      s.(sessions := s.sessions[key := Session(Some(User(id, email, displayName, [])), data)])
    case BeginAuthentication(data, key) => s.(sessions := s.sessions[key := Session(None, data)])
    case FinishRegistration(cookie, credential) =>
      if !Live(s, cookie) then s else Register(s, cookie.value, credential)
    case FinishAuthentication(cookie, assertion, sessionSet) =>
      if !Live(s, cookie) then s else Authenticate(s, cookie.value, assertion, sessionSet)
  }

  function Register(s: State, key: string, credential: Option<Credential>): State
    requires key in s.sessions
  {
    var user := s.sessions[key].user;
    var s1 := s.(sessions := s.sessions - {key});
    if user.None? || credential.None? then s1
    else s1.(users := Store(s.users, user.value.(credentials := user.value.credentials + [credential.value])))
  }

  function Authenticate(s: State, key: string, assertion: Option<(seq<Byte>, Credential)>, sessionSet: bool): State {
    var s1 := s.(sessions := s.sessions - {key});
    if assertion.None? || |assertion.value.0| != 64 then s1
    else
      match UpdatedUser(s.users, assertion.value.0, assertion.value.1)
      case None => s1
      case Some(user) =>
        s1.(users := Store(s.users, user), logins := if sessionSet then s.logins + [user.id] else s.logins)
  }

  /** The stored user with its credential updated, or None for an unknown user or credential. */
  function UpdatedUser(users: map<string, User>, id: UserId, cred: Credential): Option<User> {
    match Lookup(users, id)
    case None => None
    case Some(user) =>
      if IndexOf(user.credentials, cred.id) == |user.credentials| then None
      else Some(user.(credentials := Updated(user.credentials, cred)))
  }

  function Exec(run: seq<Event>): State {
    if run == [] then START else Step(Exec(run[..|run| - 1]), run[|run| - 1])
  }

  predicate Issues(e: Event, key: string) {
    (e.BeginRegistration? || e.BeginAuthentication?) && e.key == key
  }

  predicate Presents(e: Event, key: string) {
    (e.FinishRegistration? || e.FinishAuthentication?) && e.cookie == Some(key)
  }

  /** The session an issuing event opens. */
  function Opened(e: Event): Session
    requires e.BeginRegistration? || e.BeginAuthentication?
  {
    if e.BeginRegistration? then Session(Some(User(e.id, e.email, e.displayName, [])), e.data)
    else Session(None, e.data)
  }

  predicate Redeems(run: seq<Event>, i: nat, key: string) {
    i < |run| && Presents(run[i], key) && key in Exec(run[..i]).sessions
  }

  lemma SessionsStep(s: State, e: Event, key: string)
    ensures Issues(e, key) ==> key in Step(s, e).sessions && Step(s, e).sessions[key] == Opened(e)
    ensures Presents(e, key) ==> key !in Step(s, e).sessions
    ensures !Issues(e, key) && !Presents(e, key) ==>
              (key in Step(s, e).sessions <==> key in s.sessions) &&
              (key in s.sessions ==> Step(s, e).sessions[key] == s.sessions[key])
  {
  }

  lemma ExecNext(run: seq<Event>, i: nat)
    requires i < |run|
    ensures Exec(run[..i + 1]) == Step(Exec(run[..i]), run[i])
  {
    assert run[..i + 1][..i] == run[..i];
  }

  /** A live session is the one its latest issue opened, untouched since. */
  lemma {:induction false} LiveSessionWasIssued(run: seq<Event>, from: nat, i: nat, key: string) returns (m: nat)
    requires from <= i <= |run| && key !in Exec(run[..from]).sessions && key in Exec(run[..i]).sessions
    ensures from <= m < i && Issues(run[m], key) && Exec(run[..i]).sessions[key] == Opened(run[m])
    ensures forall j | m < j < i :: !Issues(run[j], key) && !Presents(run[j], key)
    decreases i
  {
    ExecNext(run, i - 1);
    SessionsStep(Exec(run[..i - 1]), run[i - 1], key);
    if Issues(run[i - 1], key) {
      m := i - 1;
    } else {
      m := LiveSessionWasIssued(run, from, i - 1, key);
    }
  }

  /** A redemption yields exactly the user and session data stored by the latest begin for its key. */
  lemma RedemptionYieldsIssued(run: seq<Event>, i: nat, key: string) returns (m: nat)
    requires Redeems(run, i, key)
    ensures m < i && Issues(run[m], key) && Exec(run[..i]).sessions[key] == Opened(run[m])
    ensures forall j | m < j < i :: !Issues(run[j], key) && !Presents(run[j], key)
  {
    assert run[..0] == [];
    m := LiveSessionWasIssued(run, 0, i, key);
  }

  /** Without any assumption on keys, a key is issued anew between two redemptions of it. */
  lemma IssuedBetweenRedemptions(run: seq<Event>, i: nat, j: nat, key: string) returns (m: nat)
    requires Redeems(run, i, key) && Redeems(run, j, key) && i < j
    ensures i < m < j && Issues(run[m], key)
  {
    ExecNext(run, i);
    SessionsStep(Exec(run[..i]), run[i], key);
    m := LiveSessionWasIssued(run, i + 1, j, key);
  }

  ghost predicate KeysFresh(run: seq<Event>) {
    forall a, b, key | 0 <= a < b < |run| && Issues(run[a], key) :: !Issues(run[b], key)
  }

  ghost predicate IdsFresh(run: seq<Event>) {
    forall a, b | 0 <= a < b < |run| && run[a].BeginRegistration? && run[b].BeginRegistration? :: run[a].id != run[b].id
  }

  /** With fresh keys, no key is redeemed twice in a run. */
  lemma RedeemedAtMostOnce(run: seq<Event>, i: nat, j: nat, key: string)
    requires KeysFresh(run) && Redeems(run, i, key) && Redeems(run, j, key)
    ensures i == j
  {
    if i != j {
      var a, b := if i < j then i else j, if i < j then j else i;
      var first := RedemptionYieldsIssued(run, a, key);
      var second := IssuedBetweenRedemptions(run, a, b, key);
    }
  }

  /** A key issued for authentication and presented to FinishRegistration is consumed and stores
      nobody, whatever the ceremony would have answered. */
  lemma AuthenticationKeyCannotRegister(run: seq<Event>, i: nat, m: nat, key: string)
    requires Redeems(run, i, key) && run[i].FinishRegistration?
    requires m < i && Issues(run[m], key) && run[m].BeginAuthentication?
    requires forall j | m < j < i :: !Issues(run[j], key)
    ensures Exec(run[..i + 1]).users == Exec(run[..i]).users && key !in Exec(run[..i + 1]).sessions
  {
    var n := RedemptionYieldsIssued(run, i, key);
    assert n == m;
    ExecNext(run, i);
  }

  ghost predicate UsersGood(s: State) {
    && (forall k | k in s.users :: k == IdText(s.users[k].id) && s.users[k].credentials != [])
    && (forall k | k in s.sessions && s.sessions[k].user.Some? :: s.sessions[k].user.value.credentials == [])
  }

  lemma UsersGoodStep(s: State, e: Event)
    requires UsersGood(s)
    ensures UsersGood(Step(s, e))
  {
  }

  /** In every reachable state each entry's key is the text of its own user's id, and the user
      has a credential. */
  lemma {:induction false} EntriesNameTheirUser(run: seq<Event>)
    ensures UsersGood(Exec(run))
  {
    if run != [] {
      EntriesNameTheirUser(run[..|run| - 1]);
      UsersGoodStep(Exec(run[..|run| - 1]), run[|run| - 1]);
    }
  }

  /** Every stored user was begun in this run with these details, under a key no longer live. */
  ghost predicate Begun(run: seq<Event>, m: nat, user: User) {
    && m < |run| && run[m].BeginRegistration?
    && run[m].id == user.id && run[m].email == user.email && run[m].displayName == user.displayName
  }

  ghost predicate Traced(run: seq<Event>, s: State) {
    && (forall k | k in s.sessions && s.sessions[k].user.Some? ::
          exists m: nat :: Begun(run, m, s.sessions[k].user.value) && run[m].key == k)
    && (forall k | k in s.users :: exists m: nat :: Begun(run, m, s.users[k]) && run[m].key !in s.sessions)
  }

  lemma {:induction false} UsersAreTraced(run: seq<Event>)
    requires KeysFresh(run)
    ensures Traced(run, Exec(run))
  {
    if run != [] {
      UsersAreTraced(run[..|run| - 1]);
      EntriesNameTheirUser(run[..|run| - 1]);
      TracedStep(run, Exec(run[..|run| - 1]));
    }
  }

  lemma TracedStep(run: seq<Event>, s: State)
    requires run != [] && KeysFresh(run) && UsersGood(s) && Traced(run[..|run| - 1], s)
    ensures Traced(run, Step(s, run[|run| - 1]))
  {
    var front, e := run[..|run| - 1], run[|run| - 1];
    var s' := Step(s, e);
    forall k | k in s'.sessions && s'.sessions[k].user.Some?
      ensures exists m: nat :: Begun(run, m, s'.sessions[k].user.value) && run[m].key == k
    {
      SessionsStep(s, e, k);
      if Issues(e, k) {
        assert Begun(run, |front|, s'.sessions[k].user.value);
      } else {
        var m: nat :| Begun(front, m, s.sessions[k].user.value) && front[m].key == k;
        assert Begun(run, m, s'.sessions[k].user.value);
      }
    }
    forall k | k in s'.users
      ensures exists m: nat :: Begun(run, m, s'.users[k]) && run[m].key !in s'.sessions
    {
      var m := OriginAfter(front, s, e, k);
      assert Begun(run, m, s'.users[k]);
      assert Issues(run[m], run[m].key);
      SessionsStep(s, e, run[m].key);
    }
  }

  /** The step stores a newly registered user under `k`. */
  predicate Registers(s: State, e: Event, k: string) {
    && e.FinishRegistration? && Live(s, e.cookie) && e.credential.Some?
    && s.sessions[e.cookie.value].user.Some? && k == IdText(s.sessions[e.cookie.value].user.value.id)
  }

  /** A user after a step was there before with the same details, or was just registered. */
  lemma OriginAfter(front: seq<Event>, s: State, e: Event, k: string) returns (m: nat)
    requires UsersGood(s) && Traced(front, s) && k in Step(s, e).users
    ensures Begun(front, m, Step(s, e).users[k])
    ensures front[m].key !in s.sessions || Presents(e, front[m].key)
  {
    if Registers(s, e, k) {
      var key := e.cookie.value;
      m :| Begun(front, m, s.sessions[key].user.value) && front[m].key == key;
    } else {
      UserAfter(s, e, k);
      m :| Begun(front, m, s.users[k]) && front[m].key !in s.sessions;
    }
  }

  /** A step other than storing a registration under this very key leaves an entry's details and
      its list of credential IDs as they are. */
  lemma UserAfter(s: State, e: Event, k: string)
    requires UsersGood(s) && k in Step(s, e).users
    requires !Registers(s, e, k)
    ensures k in s.users && SameUser(s.users[k], Step(s, e).users[k])
  {
  }

  predicate SameUser(u: User, v: User) {
    && u.id == v.id && u.email == v.email && u.displayName == v.displayName
    && Ids(u.credentials) == Ids(v.credentials)
  }

  /** With fresh keys and ids, a stored user is never removed or replaced: its id, its details and
      its list of credential IDs stay as registered through every later step. */
  lemma {:induction false} RegisteredUserIsStable(run: seq<Event>, i: nat, j: nat, k: string)
    requires KeysFresh(run) && IdsFresh(run) && i <= j <= |run| && k in Exec(run[..i]).users
    ensures k in Exec(run[..j]).users && SameUser(Exec(run[..i]).users[k], Exec(run[..j]).users[k])
    decreases j
  {
    hide Exec, Step;
    if i < j {
      RegisteredUserIsStable(run, i, j - 1, k);
      ExecNext(run, j - 1);
      UserStep(run[..j - 1], Exec(run[..j - 1]), run[j - 1], k);
    }
  }

  lemma UserStep(front: seq<Event>, s: State, e: Event, k: string)
    requires KeysFresh(front) && IdsFresh(front) && s == Exec(front) && k in s.users
    ensures k in Step(s, e).users && SameUser(s.users[k], Step(s, e).users[k])
  {
    UsersAreTraced(front);
    EntriesNameTheirUser(front);
    if e.FinishRegistration? && Live(s, e.cookie) && s.sessions[e.cookie.value].user.Some? {
      WaitingUserIsNew(front, s, e.cookie.value, k);
    }
    StillThere(s, e, k);
    UserAfter(s, e, k);
  }

  lemma StillThere(s: State, e: Event, k: string)
    requires k in s.users
    ensures k in Step(s, e).users
  {
  }

  /** A user waiting in a live session is not yet in the database. */
  lemma WaitingUserIsNew(run: seq<Event>, s: State, key: string, k: string)
    requires IdsFresh(run) && UsersGood(s) && Traced(run, s) && k in s.users
    requires key in s.sessions && s.sessions[key].user.Some?
    ensures k != IdText(s.sessions[key].user.value.id)
  {
    var user := s.sessions[key].user.value;
    var m: nat :| Begun(run, m, user) && run[m].key == key;
    var n: nat :| Begun(run, n, s.users[k]) && run[n].key !in s.sessions;
    assert run[m].id != run[n].id;
    IdRoundTrip(user.id, s.users[k].id);
  }

  /** Event `i` logs a user in: it redeems a live session, the ceremony vouches for a stored user
      and one of its credentials, and the login manager accepts it. */
  predicate LogsIn(run: seq<Event>, i: nat, id: UserId) {
    && i < |run| && run[i].FinishAuthentication? && run[i].sessionSet
    && run[i].cookie.Some? && Redeems(run, i, run[i].cookie.value)
    && run[i].assertion.Some? && run[i].assertion.value.0 == id
    && UpdatedUser(Exec(run[..i]).users, id, run[i].assertion.value.1).Some?
  }

  /** A login is recorded by such an event and no other. */
  lemma LoginStep(run: seq<Event>, i: nat)
    requires i < |run|
    ensures var before, after := Exec(run[..i]).logins, Exec(run[..i + 1]).logins;
            || (after == before && forall id :: !LogsIn(run, i, id))
            || (exists id :: LogsIn(run, i, id) && after == before + [id])
  {
    ExecNext(run, i);
    EntriesNameTheirUser(run[..i]);
    LoginAfter(Exec(run[..i]), run[i]);
    var s, e := Exec(run[..i]), run[i];
    if Step(s, e).logins != s.logins {
      assert Presents(e, e.cookie.value);
      assert LogsIn(run, i, e.assertion.value.0);
    }
  }

  lemma LoginAfter(s: State, e: Event)
    requires UsersGood(s)
    ensures var vouched := && e.FinishAuthentication? && e.sessionSet && Live(s, e.cookie) && e.assertion.Some?
                           && |e.assertion.value.0| == 64
                           && UpdatedUser(s.users, e.assertion.value.0, e.assertion.value.1).Some?;
            Step(s, e).logins == if vouched then s.logins + [e.assertion.value.0] else s.logins
  {
    hide IdText, Store;
    if e.FinishAuthentication? && e.assertion.Some? && |e.assertion.value.0| == 64 && IdText(e.assertion.value.0) in s.users {
      IdRoundTrip(e.assertion.value.0, s.users[IdText(e.assertion.value.0)].id);
    }
  }

  /** Every recorded login, in order, is that of an event which logged this user in. */
  lemma {:induction false} LoginWasEarned(run: seq<Event>, n: nat) returns (i: nat)
    requires n < |Exec(run).logins|
    ensures LogsIn(run, i, Exec(run).logins[n]) && |Exec(run[..i]).logins| == n
    decreases |run|
  {
    hide LogsIn, Step;
    assert run != [] by { assert run == [] ==> Exec(run) == START; }
    var last := |run| - 1;
    LoginStep(run, last);
    assert run[..last + 1] == run;
    if n < |Exec(run[..last]).logins| {
      i := LoginWasEarned(run[..last], n);
      LogsInPrefix(run, last, i, Exec(run).logins[n]);
    } else {
      i := last;
    }
  }

  lemma LogsInPrefix(run: seq<Event>, n: nat, i: nat, id: UserId)
    requires n <= |run| && LogsIn(run[..n], i, id)
    ensures i < n && LogsIn(run, i, id) && run[..n][..i] == run[..i]
  {
    assert run[..n][..i] == run[..i];
  }

  /** A stored user was stored by a registration. */
  lemma {:induction false} StoredWasRegistered(run: seq<Event>, i: nat, k: string) returns (f: nat)
    requires i <= |run| && k in Exec(run[..i]).users
    ensures f < i && Registers(Exec(run[..f]), run[f], k)
    decreases i
  {
    hide Step, Registers, IdText;
    assert run[..0] == [] && Exec(run[..0]) == START;
    ExecNext(run, i - 1);
    EntriesNameTheirUser(run[..i - 1]);
    if Registers(Exec(run[..i - 1]), run[i - 1], k) {
      f := i - 1;
    } else {
      UserAfter(Exec(run[..i - 1]), run[i - 1], k);
      f := StoredWasRegistered(run, i - 1, k);
    }
  }

  /** Nobody is logged in without having begun and finished a registration under that identifier
      before, and having begun the login: `begun`, `finished` and `issued` are those events. */
  lemma LoginNeedsRegistration(run: seq<Event>, n: nat) returns (i: nat, begun: nat, finished: nat, issued: nat)
    requires KeysFresh(run) && n < |Exec(run).logins|
    ensures var id := Exec(run).logins[n];
            && LogsIn(run, i, id)
            && begun < i && run[begun].BeginRegistration? && run[begun].id == id
            && finished < i && Registers(Exec(run[..finished]), run[finished], IdText(id))
            && issued < i && Issues(run[issued], run[i].cookie.value)
  {
    hide IdText, Step, Exec;
    var id := Exec(run).logins[n];
    i := LoginWasEarned(run, n);
    finished := StoredWasRegistered(run, i, IdText(id));
    issued := RedemptionYieldsIssued(run, i, run[i].cookie.value);
    begun := StoredWasBegun(run, i, id);
  }

  lemma StoredWasBegun(run: seq<Event>, i: nat, id: UserId) returns (begun: nat)
    requires KeysFresh(run) && i <= |run| && IdText(id) in Exec(run[..i]).users
    ensures begun < i && run[begun].BeginRegistration? && run[begun].id == id
  {
    hide IdText, Step, Exec;
    var s := Exec(run[..i]);
    UsersAreTraced(run[..i]);
    EntriesNameTheirUser(run[..i]);
    IdRoundTrip(id, s.users[IdText(id)].id);
    begun :| Begun(run[..i], begun, s.users[IdText(id)]) && run[..i][begun].key !in s.sessions;
  }
}
