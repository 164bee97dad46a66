/**
 The certificate serving cache (servingcache.go).

 `CertServingCache` is the object with its two critical sections. The interleaving of many
 `GetCertificate` calls is the state machine below it: a call reads the clock, looks up, reads
 the store and inserts in separate steps, while the clock advances and the store changes.
 Steps that are not enabled leave the state alone, so every event sequence is a run.
 */
module ServingCache {
  import opened Common
  import opened Certs

  datatype Entry = Entry(cert: KeyPair, expiry: int)

  datatype Env = Env(
    x509: X509,
    toASCII: string -> Option<string>,
    allowedHosts: seq<string>,
    ttl: int)

  function TrimLeft(s: string): string {
    if s != "" && s[0] == '.' then TrimLeft(s[1..]) else s
  }

  function TrimRight(s: string): string {
    if s != "" && s[|s| - 1] == '.' then TrimRight(s[..|s| - 1]) else s
  }

  /** The name under which a call works, or None when it is turned away before the cache. */
  function Admit(env: Env, serverName: string): Option<string> {
    if serverName == "" then None
    else if '.' !in TrimRight(TrimLeft(serverName)) then None
    else
      match env.toASCII(serverName)
      case None => None
      case Some(name) => if env.allowedHosts != [] && name !in env.allowedHosts then None else Some(name)
  }

  /** Some dot has a character other than a dot before it and one after it. */
  ghost predicate InnerDot(s: string) {
    exists i, j, k | 0 <= i < j < k < |s| :: s[i] != '.' && s[j] == '.' && s[k] != '.'
  }

  predicate Permitted(env: Env, name: string) {
    env.allowedHosts == [] || name in env.allowedHosts
  }

  lemma {:induction false} TrimLeftShape(s: string) returns (k: nat)
    ensures k <= |s| && TrimLeft(s) == s[k..] && (forall i | 0 <= i < k :: s[i] == '.') && (k < |s| ==> s[k] != '.')
  {
    if s != "" && s[0] == '.' {
      var n := TrimLeftShape(s[1..]);
      k := n + 1;
      assert forall i | 1 <= i < k :: s[i] == s[1..][i - 1];
    } else {
      k := 0;
    }
  }

  lemma {:induction false} TrimRightShape(s: string) returns (k: nat)
    ensures k <= |s| && TrimRight(s) == s[..k] && (forall i | k <= i < |s| :: s[i] == '.') && (k > 0 ==> s[k - 1] != '.')
  {
    if s != "" && s[|s| - 1] == '.' {
      k := TrimRightShape(s[..|s| - 1]);
      assert s[..|s| - 1][..k] == s[..k];
      assert forall i | k <= i < |s| - 1 :: s[i] == s[..|s| - 1][i];
    } else {
      k := |s|;
    }
  }

  lemma TrimmedHasDot(s: string)
    ensures '.' in TrimRight(TrimLeft(s)) <==> InnerDot(s)
  {
    var a := TrimLeftShape(s);
    var u := TrimLeft(s);
    var n := TrimRightShape(u);
    var w := TrimRight(u);
    if '.' in w {
      var j :| 0 <= j < |w| && w[j] == '.';
      assert w[j] == s[a + j] && s[a] != '.';
      assert u[n - 1] == s[a + n - 1] && w[j] == u[j] && j < n - 1 && j > 0;
    }
    if InnerDot(s) {
      var i, j, k :| 0 <= i < j < k < |s| && s[i] != '.' && s[j] == '.' && s[k] != '.';
      assert a <= i && s[k] == u[k - a] && s[j] == u[j - a];
      assert k - a < n;
      assert w[j - a] == '.';
    }
  }

  /** A call works under a name exactly when the server name has an inner dot, the name is what it
      converts to, and the name is permitted. */
  lemma AdmittedExactly(env: Env, serverName: string, name: string)
    ensures Admit(env, serverName) == Some(name) <==>
              InnerDot(serverName) && env.toASCII(serverName) == Some(name) && Permitted(env, name)
  {
    hide InnerDot;
    TrimmedHasDot(serverName);
    if serverName == "" {
      assert TrimRight(TrimLeft(serverName)) == "";
    }
  }

  /** A two-part name is admitted; a name without dots is not. */
  lemma QualifiedNames(env: Env, a: string, b: string, name: string)
    requires a != "" && b != "" && '.' !in a && '.' !in b
    ensures Admit(env, a + "." + b) == Some(name) <==> env.toASCII(a + "." + b) == Some(name) && Permitted(env, name)
    ensures Admit(env, a) == None
  {
    var s := a + "." + b;
    assert s[0] == a[0] != '.' && s[|a|] == '.' && s[|a| + 1] == b[0] != '.';
    assert InnerDot(s);
    AdmittedExactly(env, s, name);
    if Admit(env, a).Some? {
      AdmittedExactly(env, a, Admit(env, a).value);
    }
  }

  function Fresh(cache: map<string, Entry>, name: string, when: int): Option<KeyPair> {
    if name in cache && cache[name].expiry > when then Some(cache[name].cert) else None
  }

  /** What a call answers when nothing is interleaved with it. */
  function CallResult(env: Env, cache: map<string, Entry>, serverName: string, now: int,
                      stored: Option<seq<Block>>): Option<KeyPair>
  {
    match Admit(env, serverName)
    case None => None
    case Some(name) =>
      if Fresh(cache, name, now).Some? then Fresh(cache, name, now)
      else if stored.Some? then LoadOf(env.x509, name, now, stored.value)
      else None
  }

  function CacheAfter(env: Env, cache: map<string, Entry>, serverName: string, now: int,
                      stored: Option<seq<Block>>, later: int): map<string, Entry>
  {
    var r := CallResult(env, cache, serverName, now, stored);
    if r.Some? && Fresh(cache, Admit(env, serverName).value, now).None?
    then cache[Admit(env, serverName).value := Entry(r.value, later + env.ttl)]
    else cache
  }

  class CertServingCache {
    const env: Env
    var cache: map<string, Entry>

    constructor (env: Env)
      ensures this.env == env && cache == map[]
    {
      this.env := env;
      cache := map[];
    }

    method Get(name: string, when: int) returns (cert: Option<KeyPair>)
      ensures cert == Fresh(cache, name, when)
    {
      cert := None;
      if name in cache {
        var entry := cache[name];
        if entry.expiry > when {
          cert := Some(entry.cert);
        }
      }
    }

    method Put(name: string, cert: KeyPair, expiration: int, now: int)
      modifies this
      ensures cache == old(cache)[name := Entry(cert, now + expiration)]
    {
      cache := cache[name := Entry(cert, now + expiration)];
    }

    /** One call with nothing interleaved: `now` and `later` are its two clock readings and
        `stored` is what the store answers. */
    method GetCertificate(serverName: string, now: int, later: int, stored: Option<seq<Block>>)
      returns (r: Option<KeyPair>)
      modifies this
      ensures r == CallResult(env, old(cache), serverName, now, stored)
      ensures cache == CacheAfter(env, old(cache), serverName, now, stored, later)
    {
      if serverName == "" {
        return None;
      }
      if '.' !in TrimRight(TrimLeft(serverName)) {
        return None;
      }
      var ascii := env.toASCII(serverName);
      if ascii.None? {
        return None;
      }
      var name := ascii.value;
      if |env.allowedHosts| > 0 && name !in env.allowedHosts {
        return None;
      }
      r := Get(name, now);
      if r.Some? || stored.None? {
        return;
      }
      r := LoadCertificate(env.x509, name, now, stored.value);
      if r.Some? {
        Put(name, r.value, env.ttl, later);
      }
    }
  }

  /** The interleaving sees only these parts of an environment: who is admitted, what a file
      loads to, and the ttl. */
  datatype Machine = Machine(
    admit: string -> Option<string>,
    load: (string, int, seq<Block>) -> Option<KeyPair>,
    ttl: int)

  function MachineOf(env: Env): Machine {
    Machine(n => Admit(env, n), (n, t, d) => LoadOf(env.x509, n, t, d), env.ttl)
  }

  /** Where a call stands. `now` is its first clock reading; `readStep` numbers the event that
      read the store. */
  datatype Call =
    | Looking(name: string, now: int)
    | Loading(name: string, now: int)
    | Holding(name: string, now: int, data: seq<Block>, readStep: nat)
    | Returned(name: string, now: int, cert: KeyPair, put: nat, hit: bool)
    | Refused

  /** One insertion: who was loaded from what, verified when, and inserted when; `readStep` and
      `step` number the events that read the store and that inserted. */
  datatype Insertion = Insertion(
    name: string, cert: KeyPair, data: seq<Block>, verifiedAt: int, readStep: nat, insertedAt: int, step: nat)

  /** `log`, `latest` and `steps` only record what happened; no step depends on them. */
  datatype State = State(
    clock: int,
    store: map<string, seq<Block>>,
    cache: map<string, Entry>,
    calls: map<nat, Call>,
    log: seq<Insertion>,
    latest: map<string, nat>,
    steps: nat)

  datatype Event =
    | Tick(time: int)
    | StoreWrite(name: string, data: seq<Block>)
    | StoreRemove(name: string)
    | Begin(id: nat, serverName: string)
    | Lookup(id: nat)
    | ReadStore(id: nat)
    | ReadFails(id: nat)
    | Insert(id: nat)

  const START := State(0, map[], map[], map[], [], map[], 0)

  function WithCall(s: State, id: nat, call: Call): State {
    s.(calls := s.calls[id := call])
  }

  function Act(m: Machine, s: State, e: Event): State {
    match e
    case Tick(time) => if s.clock <= time then s.(clock := time) else s
    case StoreWrite(name, data) => s.(store := s.store[name := data])
    case StoreRemove(name) => s.(store := s.store - {name})
    case Begin(id, serverName) =>
      if id in s.calls then s
      else (match m.admit(serverName)
            case None => WithCall(s, id, Refused)
            case Some(name) => WithCall(s, id, Looking(name, s.clock)))
    case Lookup(id) =>
      if id in s.calls && s.calls[id].Looking? then
        var c := s.calls[id];
        match Fresh(s.cache, c.name, c.now)
        case Some(cert) =>
          WithCall(s, id, Returned(c.name, c.now, cert, if c.name in s.latest then s.latest[c.name] else 0, true))
        case None => WithCall(s, id, Loading(c.name, c.now))
      else s
    case ReadStore(id) =>
      if id in s.calls && s.calls[id].Loading? then
        var c := s.calls[id];
        WithCall(s, id, if c.name in s.store then Holding(c.name, c.now, s.store[c.name], s.steps) else Refused)
      else s
    case ReadFails(id) =>
      if id in s.calls && s.calls[id].Loading? then WithCall(s, id, Refused) else s
    case Insert(id) =>
      if id in s.calls && s.calls[id].Holding? then
        var c := s.calls[id];
        match m.load(c.name, c.now, c.data)
        case None => WithCall(s, id, Refused)
        case Some(cert) =>
          WithCall(s, id, Returned(c.name, c.now, cert, |s.log|, false)).(
            cache := s.cache[c.name := Entry(cert, s.clock + m.ttl)],
            log := s.log + [Insertion(c.name, cert, c.data, c.now, c.readStep, s.clock, s.steps)],
            latest := s.latest[c.name := |s.log|])
      else s
  }

  function Step(m: Machine, s: State, e: Event): State {
    Act(m, s, e).(steps := s.steps + 1)
  }

  function Exec(m: Machine, run: seq<Event>): State {
    if run == [] then START else Step(m, Exec(m, run[..|run| - 1]), run[|run| - 1])
  }

  ghost predicate Admitted(m: Machine, name: string) {
    exists serverName :: m.admit(serverName) == Some(name)
  }

  /** At `step` of the run the store held `data` under `name`, at a clock between the bounds. */
  ghost predicate StoreHeld(m: Machine, run: seq<Event>, step: nat, name: string, data: seq<Block>, from: int, to: int) {
    && step < |run|
    && var s := Exec(m, run[..step]);
       && name in s.store && s.store[name] == data
       && from <= s.clock <= to
  }

  ghost predicate InsertionGood(m: Machine, i: Insertion, clock: int) {
    && Admitted(m, i.name)
    && m.load(i.name, i.verifiedAt, i.data) == Some(i.cert)
    && i.insertedAt <= clock
  }

  ghost predicate CallGood(m: Machine, c: Call, s: State) {
    match c
    case Looking(name, now) => Admitted(m, name) && now <= s.clock
    case Loading(name, now) => Admitted(m, name) && now <= s.clock
    case Holding(name, _, _, _) => Admitted(m, name)
    case Returned(name, now, cert, put, hit) =>
      && Admitted(m, name)
      && put < |s.log| && s.log[put].name == name && s.log[put].cert == cert
      && (hit ==> now < s.log[put].insertedAt + m.ttl)
      && (!hit ==> now == s.log[put].verifiedAt)
    case Refused => true
  }

  ghost predicate EntryGood(m: Machine, name: string, s: State)
    requires name in s.cache
  {
    && name in s.latest && s.latest[name] < |s.log|
    && var i := s.log[s.latest[name]];
       i.name == name && s.cache[name] == Entry(i.cert, i.insertedAt + m.ttl)
  }

  ghost predicate Inv(m: Machine, s: State) {
    && (forall k | 0 <= k < |s.log| :: InsertionGood(m, s.log[k], s.clock))
    && (forall id | id in s.calls :: CallGood(m, s.calls[id], s))
    && (forall name | name in s.cache :: EntryGood(m, name, s))
  }

  lemma LogStep(m: Machine, s: State, e: Event, k: nat)
    requires Inv(m, s) && k < |Step(m, s, e).log|
    ensures InsertionGood(m, Step(m, s, e).log[k], Step(m, s, e).clock)
  {
    if k < |s.log| {
      assert InsertionGood(m, s.log[k], s.clock);
    } else {
      assert CallGood(m, s.calls[e.id], s);
    }
  }

  predicate Concerns(e: Event, id: nat) {
    !e.Tick? && !e.StoreWrite? && !e.StoreRemove? && e.id == id
  }

  /** Logs and the clock only grow. */
  lemma StepGrows(m: Machine, s: State, e: Event)
    ensures s.log <= Step(m, s, e).log && s.clock <= Step(m, s, e).clock
  {
  }

  /** A step touches only the call it is a step of. */
  lemma StepFrame(m: Machine, s: State, e: Event, id: nat)
    requires !Concerns(e, id)
    ensures id in s.calls <==> id in Step(m, s, e).calls
    ensures id in s.calls ==> Step(m, s, e).calls[id] == s.calls[id]
  {
  }

  lemma CallStep(m: Machine, s: State, e: Event, id: nat)
    requires id in s.calls ==> CallGood(m, s.calls[id], s)
    requires forall name | name in s.cache :: EntryGood(m, name, s)
    requires id in Step(m, s, e).calls
    ensures CallGood(m, Step(m, s, e).calls[id], Step(m, s, e))
  {
    StepGrows(m, s, e);
    if Concerns(e, id) {
      OwnStep(m, s, e);
    } else {
      StepFrame(m, s, e, id);
    }
  }

  /** A call's own step, kind by kind. */
  lemma OwnStep(m: Machine, s: State, e: Event)
    requires !e.Tick? && !e.StoreWrite? && !e.StoreRemove?
    requires e.id in s.calls ==> CallGood(m, s.calls[e.id], s)
    requires forall name | name in s.cache :: EntryGood(m, name, s)
    requires e.id in Step(m, s, e).calls
    ensures CallGood(m, Step(m, s, e).calls[e.id], Step(m, s, e))
  {
    match e {
      case Begin(_, serverName) =>
        assert e.id !in s.calls && m.admit(serverName).Some? ==> Admitted(m, m.admit(serverName).value);
      case Lookup(id) =>
        if s.calls[id].Looking? && s.calls[id].name in s.cache {
          assert EntryGood(m, s.calls[id].name, s);
        }
      case ReadStore(_) =>
      case ReadFails(_) =>
      case Insert(_) =>
    }
  }

  lemma EntryStep(m: Machine, s: State, e: Event, name: string)
    requires name in s.cache ==> EntryGood(m, name, s)
    requires name in Step(m, s, e).cache
    ensures EntryGood(m, name, Step(m, s, e))
  {
  }

  lemma InvStep(m: Machine, s: State, e: Event)
    requires Inv(m, s)
    ensures Inv(m, Step(m, s, e))
  {
    var s' := Step(m, s, e);
    forall k | 0 <= k < |s'.log|
      ensures InsertionGood(m, s'.log[k], s'.clock)
    {
      LogStep(m, s, e, k);
    }
    forall id | id in s'.calls
      ensures CallGood(m, s'.calls[id], s')
    {
      CallStep(m, s, e, id);
    }
    forall name | name in s'.cache
      ensures EntryGood(m, name, s')
    {
      EntryStep(m, s, e, name);
    }
  }

  lemma {:induction false} InvHolds(m: Machine, run: seq<Event>)
    ensures Inv(m, Exec(m, run))
  {
    if run != [] {
      InvHolds(m, run[..|run| - 1]);
      InvStep(m, Exec(m, run[..|run| - 1]), run[|run| - 1]);
    }
  }

  /** What a call holds, and what was ever inserted, is what the store held when it was read. */
  ghost predicate ReadsHonest(m: Machine, run: seq<Event>, s: State) {
    && s.steps == |run|
    && (forall k | 0 <= k < |s.log| ::
          var i := s.log[k]; StoreHeld(m, run, i.readStep, i.name, i.data, i.verifiedAt, i.insertedAt))
    && (forall id | id in s.calls && s.calls[id].Holding? ::
          var c := s.calls[id]; StoreHeld(m, run, c.readStep, c.name, c.data, c.now, s.clock))
  }

  lemma StoreHeldExtends(m: Machine, run: seq<Event>, e: Event, step: nat, name: string, data: seq<Block>,
                         from: int, to: int, to': int)
    requires StoreHeld(m, run, step, name, data, from, to) && to <= to'
    ensures StoreHeld(m, run + [e], step, name, data, from, to')
  {
    assert (run + [e])[..step] == run[..step];
  }

  lemma {:induction false} ReadsAreHonest(m: Machine, run: seq<Event>)
    ensures ReadsHonest(m, run, Exec(m, run))
  {
    if run != [] {
      var front, e := run[..|run| - 1], run[|run| - 1];
      assert run == front + [e];
      ReadsAreHonest(m, front);
      InvHolds(m, front);
      ReadsStep(m, front, Exec(m, front), e);
    }
  }

  lemma ReadsStep(m: Machine, run: seq<Event>, s: State, e: Event)
    requires s == Exec(m, run) && Inv(m, s) && ReadsHonest(m, run, s)
    ensures ReadsHonest(m, run + [e], Step(m, s, e))
  {
    var run', s' := run + [e], Step(m, s, e);
    forall k | 0 <= k < |s'.log|
      ensures var i := s'.log[k]; StoreHeld(m, run', i.readStep, i.name, i.data, i.verifiedAt, i.insertedAt)
    {
      InsertionOrigin(m, s, e, k);
      var i := s'.log[k];
      StoreHeldExtends(m, run, e, i.readStep, i.name, i.data, i.verifiedAt, i.insertedAt, i.insertedAt);
    }
    forall id | id in s'.calls && s'.calls[id].Holding?
      ensures var c := s'.calls[id]; StoreHeld(m, run', c.readStep, c.name, c.data, c.now, s'.clock)
    {
      HoldingOrigin(m, s, e, id);
      var c := s'.calls[id];
      if id in s.calls && s.calls[id] == c {
        StoreHeldExtends(m, run, e, c.readStep, c.name, c.data, c.now, s.clock, s'.clock);
      } else {
        assert run'[..|run|] == run;
      }
    }
  }

  lemma InsertionOrigin(m: Machine, s: State, e: Event, k: nat)
    requires k < |Step(m, s, e).log|
    ensures var i := Step(m, s, e).log[k];
            || (k < |s.log| && i == s.log[k])
            || (&& e.Insert? && e.id in s.calls && i.insertedAt == s.clock
                && s.calls[e.id] == Holding(i.name, i.verifiedAt, i.data, i.readStep))
  {
  }

  lemma HoldingOrigin(m: Machine, s: State, e: Event, id: nat)
    requires Inv(m, s) && id in Step(m, s, e).calls && Step(m, s, e).calls[id].Holding?
    ensures s.clock <= Step(m, s, e).clock
    ensures var c := Step(m, s, e).calls[id];
            || (id in s.calls && s.calls[id] == c)
            || (&& c.readStep == s.steps && c.name in s.store && c.data == s.store[c.name]
                && c.now <= s.clock)
  {
    StepGrows(m, s, e);
    if !Concerns(e, id) {
      StepFrame(m, s, e, id);
    } else if id in s.calls {
      assert CallGood(m, s.calls[id], s);
    }
  }

  /**
   In every interleaving: a returned certificate was verified for that very name when it was
   loaded, from what the store held under that name at a step between the verification clock and
   the insertion; and it was either loaded by this call or inserted under that name less than one
   ttl before the call's clock reading.
   */
  lemma ReturnedCertificates(m: Machine, run: seq<Event>, id: nat)
    requires id in Exec(m, run).calls && Exec(m, run).calls[id].Returned?
    ensures var s := Exec(m, run);
            var c := s.calls[id];
            && c.put < |s.log|
            && var i := s.log[c.put];
               && Admitted(m, c.name) && i.name == c.name && i.cert == c.cert
               && m.load(c.name, i.verifiedAt, i.data) == Some(c.cert)
               && StoreHeld(m, run, i.readStep, c.name, i.data, i.verifiedAt, i.insertedAt)
               && (if c.hit then c.now - i.insertedAt < m.ttl else c.now == i.verifiedAt)
  {
    InvHolds(m, run);
    ReadsAreHonest(m, run);
    var s := Exec(m, run);
    assert CallGood(m, s.calls[id], s);
    assert InsertionGood(m, s.log[s.calls[id].put], s.clock);
  }

  /** Every call that was not refused works, and is answered, under the name that its own server name
      is admitted as, with the clock reading of its beginning. */
  lemma {:induction false} CallsBegan(m: Machine, run: seq<Event>, id: nat) returns (i: nat)
    requires id in Exec(m, run).calls && !Exec(m, run).calls[id].Refused?
    ensures i < |run| && run[i].Begin? && run[i].id == id && id !in Exec(m, run[..i]).calls
    ensures var c := Exec(m, run).calls[id];
            m.admit(run[i].serverName) == Some(c.name) && c.now == Exec(m, run[..i]).clock
    decreases |run|
  {
    hide Step;
    assert run != [] by { assert run == [] ==> Exec(m, run) == START; }
    var front, e := run[..|run| - 1], run[|run| - 1];
    CallAfter(m, Exec(m, front), e, id);
    if id in Exec(m, front).calls {
      i := CallsBegan(m, front, id);
      assert run[..i] == front[..i];
    } else {
      i := |front|;
    }
  }

  lemma CallAfter(m: Machine, s: State, e: Event, id: nat)
    requires id in Step(m, s, e).calls && !Step(m, s, e).calls[id].Refused?
    ensures var c := Step(m, s, e).calls[id];
            if id in s.calls then !s.calls[id].Refused? && c.name == s.calls[id].name && c.now == s.calls[id].now
            else e.Begin? && e.id == id && m.admit(e.serverName) == Some(c.name) && c.now == s.clock
  {
    if !Concerns(e, id) {
      StepFrame(m, s, e, id);
    }
  }

  /** Every returned chain has its one non-CA certificate first, verified for the name against the
      rest of the chain, whatever interleaving led to it. */
  lemma ReturnedChains(env: Env, run: seq<Event>, id: nat)
    requires id in Exec(MachineOf(env), run).calls && Exec(MachineOf(env), run).calls[id].Returned?
    ensures var c := Exec(MachineOf(env), run).calls[id];
            && c.cert.chain != []
            && forall i | 0 <= i < |c.cert.chain| ::
                 var parsed := env.x509.parse(c.cert.chain[i]);
                 parsed.Some? && (parsed.value.isCA <==> i > 0)
    ensures var s := Exec(MachineOf(env), run);
            var c := s.calls[id];
            && c.put < |s.log|
            && ChainOf(env.x509, c.cert.chain).Some?
            && var certs := ChainOf(env.x509, c.cert.chain).value;
               certs != [] && env.x509.verify(certs[0], certs[1..], c.name, s.log[c.put].verifiedAt)
  {
    var m := MachineOf(env);
    ReturnedCertificates(m, run, id);
    var s := Exec(m, run);
    var i := s.log[s.calls[id].put];
    assert LoadOf(env.x509, i.name, i.verifiedAt, i.data) == Some(i.cert);
    LoadedChainShape(env.x509, i.name, i.verifiedAt, i.data, i.cert);
    var certs := CertsOf(env.x509, Filter(i.data, IsCertificate));
    assert ChainOf(env.x509, i.cert.chain).value == certs;
  }

  /** The certificates that a client parses out of a presented chain. */
  function ChainOf(x: X509, chain: seq<seq<Byte>>): Option<seq<Certificate>> {
    if forall i | 0 <= i < |chain| :: x.parse(chain[i]).Some?
    then Some(seq(|chain|, i requires 0 <= i < |chain| => x.parse(chain[i]).value))
    else None
  }

  /** A name outside a non-empty allowed list never reaches the cache, the store or a load. */
  lemma OnlyAllowedNames(env: Env, run: seq<Event>)
    ensures var s := Exec(MachineOf(env), run);
            && (forall name | name in s.cache :: Permitted(env, name))
            && (forall id | id in s.calls :: s.calls[id].Refused? || Permitted(env, s.calls[id].name))
  {
    var m := MachineOf(env);
    InvHolds(m, run);
    var s := Exec(m, run);
    forall name | name in s.cache
      ensures Permitted(env, name)
    {
      assert EntryGood(m, name, s);
      assert InsertionGood(m, s.log[s.latest[name]], s.clock);
      AdmittedIsPermitted(env, name);
    }
    forall id | id in s.calls
      ensures s.calls[id].Refused? || Permitted(env, s.calls[id].name)
    {
      assert CallGood(m, s.calls[id], s);
      if !s.calls[id].Refused? {
        AdmittedIsPermitted(env, s.calls[id].name);
      }
    }
  }

  lemma AdmittedIsPermitted(env: Env, name: string)
    requires Admitted(MachineOf(env), name)
    ensures Permitted(env, name)
  {
    var m := MachineOf(env);
    var serverName :| m.admit(serverName) == Some(name);
    assert Admit(env, serverName) == Some(name);
  }

  /** The cache changes only in a step that completes a successful load, and then in one entry. */
  lemma OnlyLoadsChangeCache(m: Machine, s: State, e: Event)
    requires Step(m, s, e).cache != s.cache
    ensures e.Insert? && e.id in s.calls && s.calls[e.id].Holding?
    ensures Step(m, s, e).calls[e.id].Returned? && !Step(m, s, e).calls[e.id].hit
    ensures Step(m, s, e).cache - {s.calls[e.id].name} == s.cache - {s.calls[e.id].name}
  {
  }

  /** The first three steps of a call that misses the cache and finds its file. */
  lemma StepsToRead(m: Machine, s: State, id: nat, serverName: string, name: string)
    requires id !in s.calls && m.admit(serverName) == Some(name)
    requires Fresh(s.cache, name, s.clock).None? && name in s.store
    ensures Step(m, Step(m, Step(m, s, Begin(id, serverName)), Lookup(id)), ReadStore(id))
         == WithCall(s, id, Holding(name, s.clock, s.store[name], s.steps + 2)).(steps := s.steps + 3)
  {
    var s1 := Step(m, s, Begin(id, serverName));
    assert s1 == WithCall(s, id, Looking(name, s.clock)).(steps := s.steps + 1);
    var s2 := Step(m, s1, Lookup(id));
    assert s2 == WithCall(s1, id, Loading(name, s.clock)).(steps := s.steps + 2);
    var s3 := Step(m, s2, ReadStore(id));
    assert s3.calls == s.calls[id := Holding(name, s.clock, s.store[name], s.steps + 2)];
  }

  /** Run without interruption, the four steps of a call do what the sequential method does. */
  lemma UninterruptedCall(env: Env, s: State, id: nat, serverName: string, stored: Option<seq<Block>>)
    requires id !in s.calls
    requires Admit(env, serverName).Some? ==>
               var name := Admit(env, serverName).value;
               stored == if name in s.store then Some(s.store[name]) else None
    ensures var m := MachineOf(env);
            var s' := FourSteps(m, s, id, serverName);
            var r := CallResult(env, s.cache, serverName, s.clock, stored);
            && id in s'.calls
            && (if r.Some? then s'.calls[id].Returned? && s'.calls[id].cert == r.value else s'.calls[id].Refused?)
            && s'.cache == CacheAfter(env, s.cache, serverName, s.clock, stored, s.clock)
  {
    hide Admit, LoadOf, FourSteps;
    var m := MachineOf(env);
    var admitted := m.admit(serverName);
    assert admitted == Admit(env, serverName);
    if admitted.None? {
      RefusedCall(m, s, id, serverName);
    } else if Fresh(s.cache, admitted.value, s.clock).Some? {
      HitCall(m, s, id, serverName, admitted.value);
    } else if stored.None? {
      MissingFileCall(m, s, id, serverName, admitted.value);
    } else {
      LoadingCall(m, s, id, serverName, admitted.value);
      assert m.load(admitted.value, s.clock, stored.value) == LoadOf(env.x509, admitted.value, s.clock, stored.value);
    }
  }

  /** The four steps of one call. */
  function FourSteps(m: Machine, s: State, id: nat, serverName: string): State {
    Step(m, Step(m, Step(m, Step(m, s, Begin(id, serverName)), Lookup(id)), ReadStore(id)), Insert(id))
  }

  lemma RefusedCall(m: Machine, s: State, id: nat, serverName: string)
    requires id !in s.calls && m.admit(serverName).None?
    ensures FourSteps(m, s, id, serverName) == WithCall(s, id, Refused).(steps := s.steps + 4)
  {
    var s1 := Step(m, s, Begin(id, serverName));
    assert s1 == WithCall(s, id, Refused).(steps := s.steps + 1);
    StepsDone(m, s1, id);
    StepsDone(m, s1.(steps := s.steps + 2), id);
    StepsDone(m, s1.(steps := s.steps + 3), id);
  }

  lemma HitCall(m: Machine, s: State, id: nat, serverName: string, name: string)
    requires id !in s.calls && m.admit(serverName) == Some(name) && Fresh(s.cache, name, s.clock).Some?
    ensures var s' := FourSteps(m, s, id, serverName);
            && s'.cache == s.cache && id in s'.calls && s'.calls[id].Returned?
            && Some(s'.calls[id].cert) == Fresh(s.cache, name, s.clock)
  {
    var s1 := Step(m, s, Begin(id, serverName));
    assert s1 == WithCall(s, id, Looking(name, s.clock)).(steps := s.steps + 1);
    var s2 := Step(m, s1, Lookup(id));
    assert s2.calls[id].Returned? && s2.cache == s.cache;
    StepsDone(m, s2, id);
    StepsDone(m, s2.(steps := s2.steps + 1), id);
  }

  lemma MissingFileCall(m: Machine, s: State, id: nat, serverName: string, name: string)
    requires id !in s.calls && m.admit(serverName) == Some(name)
    requires Fresh(s.cache, name, s.clock).None? && name !in s.store
    ensures var s' := FourSteps(m, s, id, serverName);
            s'.cache == s.cache && id in s'.calls && s'.calls[id].Refused?
  {
    var s1 := Step(m, s, Begin(id, serverName));
    assert s1 == WithCall(s, id, Looking(name, s.clock)).(steps := s.steps + 1);
    var s2 := Step(m, s1, Lookup(id));
    assert s2 == WithCall(s1, id, Loading(name, s.clock)).(steps := s.steps + 2);
    var s3 := Step(m, s2, ReadStore(id));
    assert s3.calls[id].Refused? && s3.cache == s.cache;
    StepsDone(m, s3, id);
  }

  /** A call that misses and cannot read the store is refused and changes nothing, whether the read
      fails or the file was removed. */
  lemma UnreadableCall(m: Machine, s: State, id: nat, serverName: string, name: string)
    requires id !in s.calls && m.admit(serverName) == Some(name) && Fresh(s.cache, name, s.clock).None?
    ensures var s2 := Step(m, Step(m, s, Begin(id, serverName)), Lookup(id));
            var failed, removed := Step(m, s2, ReadFails(id)), Step(m, Step(m, s2, StoreRemove(name)), ReadStore(id));
            && failed.calls == removed.calls == s.calls[id := Refused]
            && failed.cache == removed.cache == s.cache
            && failed.store == s.store && removed.store == s.store - {name}
  {
    var s1 := Step(m, s, Begin(id, serverName));
    assert s1 == WithCall(s, id, Looking(name, s.clock)).(steps := s.steps + 1);
    var s2 := Step(m, s1, Lookup(id));
    assert s2 == WithCall(s1, id, Loading(name, s.clock)).(steps := s.steps + 2);
    assert Step(m, s2, ReadFails(id)).calls == s.calls[id := Refused];
    var s3 := Step(m, s2, StoreRemove(name));
    assert s3.calls == s2.calls && name !in s3.store;
    assert Step(m, s3, ReadStore(id)).calls == s.calls[id := Refused];
  }

  lemma LoadingCall(m: Machine, s: State, id: nat, serverName: string, name: string)
    requires id !in s.calls && m.admit(serverName) == Some(name)
    requires Fresh(s.cache, name, s.clock).None? && name in s.store
    ensures var s', r := FourSteps(m, s, id, serverName), m.load(name, s.clock, s.store[name]);
            && id in s'.calls
            && (if r.Some? then s'.calls[id].Returned? && s'.calls[id].cert == r.value else s'.calls[id].Refused?)
            && s'.cache == if r.Some? then s.cache[name := Entry(r.value, s.clock + m.ttl)] else s.cache
  {
    StepsToRead(m, s, id, serverName, name);
  }

  /** A call that has returned or was refused takes no further steps. */
  lemma StepsDone(m: Machine, s: State, id: nat)
    requires id in s.calls && (s.calls[id].Returned? || s.calls[id].Refused?)
    ensures Step(m, s, Lookup(id)) == Step(m, s, ReadStore(id)) == Step(m, s, Insert(id)) == s.(steps := s.steps + 1)
  {
  }

  ghost predicate Reachable(m: Machine, s: State) {
    exists run :: Exec(m, run) == s
  }

  lemma ReachStep(m: Machine, s: State, e: Event)
    requires Reachable(m, s)
    ensures Reachable(m, Step(m, s, e))
  {
    var run :| Exec(m, run) == s;
    assert (run + [e])[..|run|] == run;
    assert Exec(m, run + [e]) == Step(m, s, e);
  }

  lemma ReachRead(m: Machine, s: State, id: nat, name: string) returns (s': State)
    requires Reachable(m, s)
    requires id !in s.calls && m.admit(name) == Some(name) && name !in s.cache && name in s.store
    ensures Reachable(m, s')
    ensures s' == WithCall(s, id, Holding(name, s.clock, s.store[name], s.steps + 2)).(steps := s.steps + 3)
  {
    StepsToRead(m, s, id, name, name);
    ReachStep(m, s, Begin(id, name));
    ReachStep(m, Step(m, s, Begin(id, name)), Lookup(id));
    s' := Step(m, Step(m, Step(m, s, Begin(id, name)), Lookup(id)), ReadStore(id));
    ReachStep(m, Step(m, Step(m, s, Begin(id, name)), Lookup(id)), ReadStore(id));
  }

  /**
   Verification is not itself within one ttl: what bounds a hit is the insertion. Two loads of one
   name may overlap, and the one that read the store first may insert last; a later call is then
   served the superseded file, verified any `delay` ago, although a newer one had been inserted.
   */
  lemma SupersededCertificateServed(m: Machine, name: string, older: seq<Block>, newer: seq<Block>, delay: nat)
    returns (s: State)
    requires m.admit(name) == Some(name) && older != newer && m.ttl > 0
    requires m.load(name, 0, older).Some? && m.load(name, 0, newer).Some?
    ensures Reachable(m, s) && 2 in s.calls && s.calls[2].Returned? && s.calls[2].hit
    ensures |s.log| == 2 && s.calls[2].put == 1 && s.log[0].name == s.log[1].name == name
    ensures s.log[0].data == newer && s.log[1].data == older && s.calls[2].now - s.log[1].verifiedAt == delay
    ensures s.log[1].readStep < s.log[0].readStep && s.log[0].step < s.log[1].step
  {
    var s4 := OverlappingReads(m, name, older, newer);
    ReachStep(m, s4, Insert(1));
    s := LateInsertServed(m, Step(m, s4, Insert(1)), name, delay);
  }

  lemma OverlappingReads(m: Machine, name: string, older: seq<Block>, newer: seq<Block>) returns (s: State)
    requires m.admit(name) == Some(name)
    ensures Reachable(m, s) && s.clock == 0 && s.log == [] && 0 in s.calls && 1 in s.calls && 2 !in s.calls
    ensures s.calls[0].Holding? && s.calls[0].name == name && s.calls[0].now == 0 && s.calls[0].data == older
    ensures s.calls[1].Holding? && s.calls[1].name == name && s.calls[1].now == 0 && s.calls[1].data == newer
    ensures s.calls[0].readStep < s.calls[1].readStep < s.steps
  {
    assert Exec(m, []) == START;
    ReachStep(m, START, StoreWrite(name, older));
    var s1 := Step(m, START, StoreWrite(name, older));
    assert s1 == State(0, map[name := older], map[], map[], [], map[], 1);
    var s2 := ReachRead(m, s1, 0, name);
    ReachStep(m, s2, StoreWrite(name, newer));
    var s3 := Step(m, s2, StoreWrite(name, newer));
    assert s3.store[name] == newer && s3.calls == s2.calls && s3.log == [] && s3.cache == map[];
    s := ReachRead(m, s3, 1, name);
  }

  lemma LateInsertServed(m: Machine, s5: State, name: string, delay: nat) returns (s: State)
    requires Reachable(m, s5) && m.admit(name) == Some(name) && m.ttl > 0 && s5.clock <= delay
    requires 0 in s5.calls && s5.calls[0].Holding? && s5.calls[0].name == name && 2 !in s5.calls
    requires m.load(name, s5.calls[0].now, s5.calls[0].data).Some?
    ensures Reachable(m, s) && 2 in s.calls && s.calls[2].Returned? && s.calls[2].hit
    ensures s.calls[2].put == |s5.log| && s.calls[2].now == delay
    ensures |s.log| == |s5.log| + 1 && s5.log <= s.log && s.log[|s5.log|].name == name
    ensures s.log[|s5.log|].data == s5.calls[0].data && s.log[|s5.log|].verifiedAt == s5.calls[0].now
    ensures s.log[|s5.log|].readStep == s5.calls[0].readStep && s5.steps < s.log[|s5.log|].step
  {
    ReachStep(m, s5, Tick(delay));
    var s6 := Step(m, s5, Tick(delay));
    assert s6.log == s5.log && s6.clock == delay && s6.calls == s5.calls;
    ReachStep(m, s6, Insert(0));
    var s7 := Step(m, s6, Insert(0));
    assert 2 !in s7.calls && s7.clock == delay && s7.latest[name] == |s5.log|;
    assert name in s7.cache && s7.cache[name].expiry == delay + m.ttl;
    s := FreshHit(m, s7, name);
  }

  lemma FreshHit(m: Machine, s7: State, name: string) returns (s: State)
    requires Reachable(m, s7) && m.admit(name) == Some(name) && 2 !in s7.calls
    requires name in s7.latest && Fresh(s7.cache, name, s7.clock).Some?
    ensures Reachable(m, s) && 2 in s.calls && s.calls[2].Returned? && s.calls[2].hit
    ensures s.calls[2].put == s7.latest[name] && s.calls[2].now == s7.clock && s.log == s7.log
  {
    ReachStep(m, s7, Begin(2, name));
    var s8 := Step(m, s7, Begin(2, name));
    assert s8 == WithCall(s7, 2, Looking(name, s7.clock)).(steps := s7.steps + 1);
    ReachStep(m, s8, Lookup(2));
    s := Step(m, s8, Lookup(2));
  }
}
