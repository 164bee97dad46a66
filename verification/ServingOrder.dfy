/**
 Which file the certificate serving cache serves when loads of a name overlap (servingcache.go).

 An entry is written by whichever load inserts last, and that need not be the one that read the
 store last. The exact condition is stated here on the load events, and so is the age of a hit.
 */
module ServingOrder {
  import opened Common
  import opened Certs
  import opened ServingCache

  /** An insertion is the end of a load: one call read the store at one event and inserted at a
      later one. */
  ghost predicate IsLoad(run: seq<Event>, i: Insertion) {
    && i.readStep < i.step < |run|
    && run[i.readStep].ReadStore? && run[i.step] == Insert(run[i.readStep].id)
  }

  ghost predicate LogFollowsRun(run: seq<Event>, s: State) {
    && s.steps == |run|
    && (forall k | 0 <= k < |s.log| :: IsLoad(run, s.log[k]))
    && (forall j, k | 0 <= j < k < |s.log| :: s.log[j].step < s.log[k].step)
    && (forall id | id in s.calls && s.calls[id].Holding? ::
          s.calls[id].readStep < |run| && run[s.calls[id].readStep] == ReadStore(id))
  }

  /** `latest` points at the last insertion of each name, and names what is cached. */
  ghost predicate LatestIsLast(s: State) {
    && s.latest.Keys == s.cache.Keys
    && (forall name | name in s.latest :: s.latest[name] < |s.log| && s.log[s.latest[name]].name == name)
    && (forall k | 0 <= k < |s.log| :: s.log[k].name in s.latest && k <= s.latest[s.log[k].name])
  }

  lemma IsLoadExtends(run: seq<Event>, e: Event, i: Insertion)
    requires IsLoad(run, i)
    ensures IsLoad(run + [e], i)
  {
  }

  lemma LogStepFollows(m: Machine, run: seq<Event>, s: State, e: Event)
    requires LogFollowsRun(run, s)
    ensures LogFollowsRun(run + [e], Step(m, s, e))
  {
    var run', s' := run + [e], Step(m, s, e);
    forall k | 0 <= k < |s'.log|
      ensures IsLoad(run', s'.log[k])
      ensures forall j | 0 <= j < k :: s'.log[j].step < s'.log[k].step
    {
      LogAfter(m, s, e);
      if k < |s.log| {
        IsLoadExtends(run, e, s.log[k]);
      }
    }
    forall id | id in s'.calls && s'.calls[id].Holding?
      ensures s'.calls[id].readStep < |run'| && run'[s'.calls[id].readStep] == ReadStore(id)
    {
      HoldingAfter(m, s, e, id);
    }
  }

  lemma LogAfter(m: Machine, s: State, e: Event)
    ensures var s' := Step(m, s, e);
            || (s'.log == s.log && s'.latest == s.latest && s'.cache.Keys == s.cache.Keys)
            || (&& e.Insert? && e.id in s.calls && s.calls[e.id].Holding?
                && |s'.log| == |s.log| + 1 && s'.log[..|s.log|] == s.log
                && var i := s'.log[|s.log|];
                   && i.name == s.calls[e.id].name && i.readStep == s.calls[e.id].readStep && i.step == s.steps
                   && s'.latest == s.latest[i.name := |s.log|] && s'.cache.Keys == s.cache.Keys + {i.name})
  {
  }

  lemma HoldingAfter(m: Machine, s: State, e: Event, id: nat)
    requires id in Step(m, s, e).calls && Step(m, s, e).calls[id].Holding?
    ensures || (id in s.calls && s.calls[id] == Step(m, s, e).calls[id])
            || (e == ReadStore(id) && Step(m, s, e).calls[id].readStep == s.steps)
  {
  }

  lemma LatestStep(m: Machine, s: State, e: Event)
    requires LatestIsLast(s)
    ensures LatestIsLast(Step(m, s, e))
  {
    hide Step;
    LogAfter(m, s, e);
    var s' := Step(m, s, e);
    if |s'.log| > |s.log| {
      NewLatest(s, s', s'.log[|s.log|]);
    }
  }

  lemma NewLatest(s: State, s': State, i: Insertion)
    requires LatestIsLast(s) && s'.log == s.log + [i]
    requires s'.latest == s.latest[i.name := |s.log|] && s'.cache.Keys == s.cache.Keys + {i.name}
    ensures LatestIsLast(s')
  {
    assert s'.latest.Keys == s.latest.Keys + {i.name};
  }

  lemma {:induction false} HistoryHolds(m: Machine, run: seq<Event>)
    ensures LogFollowsRun(run, Exec(m, run)) && LatestIsLast(Exec(m, run))
  {
    if run != [] {
      var front, e := run[..|run| - 1], run[|run| - 1];
      assert run == front + [e];
      HistoryHolds(m, front);
      LogStepFollows(m, front, Exec(m, front), e);
      LatestStep(m, Exec(m, front), e);
    }
  }

  /** Another load of the name read the store later and inserted earlier. */
  ghost predicate Overtaken(log: seq<Insertion>, k: nat) {
    k < |log| && exists j | 0 <= j < |log| ::
      log[j].name == log[k].name && log[k].readStep < log[j].readStep && log[j].step < log[k].step
  }

  /** Nothing was inserted under the name that was read from the store after insertion `k` was. */
  ghost predicate NewestRead(log: seq<Insertion>, k: nat) {
    k < |log| && forall j | 0 <= j < |log| && log[j].name == log[k].name :: log[j].readStep <= log[k].readStep
  }

  ghost predicate CacheNewest(s: State) {
    forall name | name in s.cache :: name in s.latest && NewestRead(s.log, s.latest[name])
  }

  /** An entry is superseded exactly when the load that wrote it was overtaken. */
  lemma EntryNewestExactly(m: Machine, run: seq<Event>, name: string)
    requires name in Exec(m, run).cache
    ensures var s := Exec(m, run);
            && name in s.latest && s.latest[name] < |s.log| && s.log[s.latest[name]].name == name
            && (NewestRead(s.log, s.latest[name]) <==> !Overtaken(s.log, s.latest[name]))
  {
    HistoryHolds(m, run);
    NewestExactly(run, Exec(m, run), name);
  }

  lemma NewestExactly(run: seq<Event>, s: State, name: string)
    requires LogFollowsRun(run, s) && LatestIsLast(s) && name in s.latest
    ensures NewestRead(s.log, s.latest[name]) <==> !Overtaken(s.log, s.latest[name])
  {
    var p := s.latest[name];
    forall j | 0 <= j < |s.log| && s.log[j].name == name
      ensures j == p || s.log[j].step < s.log[p].step
    {
      assert j <= p;
    }
  }

  /** `s` is a state right after insertion `k` of `log`. */
  ghost predicate JustInserted(s: State, log: seq<Insertion>, k: nat) {
    && k < |log| && s.log == log[..k + 1] && log[k].name in s.cache
    && log[k].name in s.latest && s.latest[log[k].name] == k
  }

  /** The state right after an insertion, whatever happens later in the run. */
  lemma {:induction false} AfterInsertion(m: Machine, run: seq<Event>, k: nat)
    requires k < |Exec(m, run).log|
    ensures var log := Exec(m, run).log;
            log[k].step < |run| && JustInserted(Exec(m, run[..log[k].step + 1]), log, k)
    decreases |run|
  {
    hide Exec, Step;
    LastStep(m, run);
    var front, e := run[..|run| - 1], run[|run| - 1];
    StepGrows(m, Exec(m, front), e);
    if k < |Exec(m, front).log| {
      AfterInsertion(m, front, k);
      SameInsertion(Exec(m, front).log, Exec(m, run).log, k);
      var i := Exec(m, front).log[k].step + 1;
      assert run[..i] == front[..i];
    } else {
      NewInsertion(m, Exec(m, front), e, k);
      assert run[..|run|] == run;
    }
  }

  /** A run that inserted something has a last step. */
  lemma LastStep(m: Machine, run: seq<Event>)
    requires Exec(m, run).log != []
    ensures run != []
    ensures Exec(m, run) == Step(m, Exec(m, run[..|run| - 1]), run[|run| - 1])
    ensures Exec(m, run[..|run| - 1]).steps == |run| - 1
  {
    HistoryHolds(m, run[..|run| - 1]);
  }

  lemma SameInsertion(front: seq<Insertion>, log: seq<Insertion>, k: nat)
    requires front <= log && k < |front|
    ensures log[k] == front[k] && log[..k + 1] == front[..k + 1]
  {
    assert front == log[..|front|];
  }

  lemma NewInsertion(m: Machine, s: State, e: Event, k: nat)
    requires |s.log| <= k < |Step(m, s, e).log|
    ensures var s' := Step(m, s, e); s'.log[k].step == s.steps && JustInserted(s', s'.log, k)
  {
    LogAfter(m, s, e);
    var s' := Step(m, s, e);
    assert s'.log[..|s'.log|] == s'.log;
  }

  lemma {:induction false} LogsArePrefixes(m: Machine, run: seq<Event>, i: nat)
    requires i <= |run|
    ensures Exec(m, run[..i]).log <= Exec(m, run).log
    decreases |run|
  {
    if i == |run| {
      assert run[..i] == run;
    } else {
      var front := run[..|run| - 1];
      LogsArePrefixes(m, front, i);
      assert front[..i] == run[..i];
      StepGrows(m, Exec(m, front), run[|run| - 1]);
    }
  }

  /** No load of the run was overtaken by a load of the same name. */
  ghost predicate NoneOvertaken(log: seq<Insertion>) {
    forall k | 0 <= k < |log| :: !Overtaken(log, k)
  }

  /**
   Throughout a run every entry is the newest-read file inserted under its name, exactly when no
   load of the run was overtaken by a load of the same name.
   */
  lemma CacheIsNewestExactly(m: Machine, run: seq<Event>)
    ensures (forall i: nat | i <= |run| :: CacheNewest(Exec(m, run[..i]))) <==> NoneOvertaken(Exec(m, run).log)
  {
    hide Exec;
    if NoneOvertaken(Exec(m, run).log) {
      forall i: nat | i <= |run|
        ensures CacheNewest(Exec(m, run[..i]))
      {
        NoOvertakingSoFar(m, run, i);
      }
    } else {
      var i := OvertakingShows(m, run);
      assert !CacheNewest(Exec(m, run[..i]));
    }
  }

  lemma NoOvertakingSoFar(m: Machine, run: seq<Event>, i: nat)
    requires i <= |run| && NoneOvertaken(Exec(m, run).log)
    ensures CacheNewest(Exec(m, run[..i]))
  {
    hide Exec;
    LogsArePrefixes(m, run, i);
    var s, log := Exec(m, run[..i]), Exec(m, run).log;
    forall name | name in s.cache
      ensures name in s.latest && NewestRead(s.log, s.latest[name])
    {
      EntryNewestExactly(m, run[..i], name);
      OvertakenInPrefix(s.log, log, s.latest[name]);
    }
  }

  lemma OvertakenInPrefix(front: seq<Insertion>, log: seq<Insertion>, k: nat)
    requires front <= log
    ensures Overtaken(front, k) ==> Overtaken(log, k)
  {
  }

  lemma OvertakingShows(m: Machine, run: seq<Event>) returns (i: nat)
    requires !NoneOvertaken(Exec(m, run).log)
    ensures i <= |run| && !CacheNewest(Exec(m, run[..i]))
  {
    hide Exec, LogFollowsRun, LatestIsLast, JustInserted, CacheNewest, Overtaken;
    var log := Exec(m, run).log;
    var k: nat :| k < |log| && Overtaken(log, k);
    HistoryHolds(m, run);
    AfterInsertion(m, run, k);
    i := log[k].step + 1;
    OvertakenEntryIsOld(run, Exec(m, run), Exec(m, run[..i]), k);
  }

  lemma OvertakenEntryIsOld(run: seq<Event>, end: State, s: State, k: nat)
    requires LogFollowsRun(run, end) && Overtaken(end.log, k) && JustInserted(s, end.log, k)
    ensures !CacheNewest(s)
  {
    var log := end.log;
    var j :| 0 <= j < |log| && log[j].name == log[k].name && log[k].readStep < log[j].readStep && log[j].step < log[k].step;
    assert j < k;
    assert s.log[j] == log[j] && s.log[k] == log[k];
    assert !NewestRead(s.log, k);
  }

  /** Loads are serialised per name: nothing of the name is inserted between a load's store read
      and its insertion. */
  ghost predicate Serialised(log: seq<Insertion>) {
    forall j, k | 0 <= j < |log| && 0 <= k < |log| && log[j].name == log[k].name && log[j].step < log[k].step ::
      log[j].step < log[k].readStep
  }

  /** Serialising loads per name is enough: insertions are then in read order, and the cache serves
      the newest-read file of every name throughout the run. */
  lemma SerialisedLoadsServeNewest(m: Machine, run: seq<Event>)
    requires Serialised(Exec(m, run).log)
    ensures forall j, k | 0 <= j < k < |Exec(m, run).log| && Exec(m, run).log[j].name == Exec(m, run).log[k].name ::
              Exec(m, run).log[j].readStep < Exec(m, run).log[k].readStep
    ensures forall i: nat | i <= |run| :: CacheNewest(Exec(m, run[..i]))
  {
    hide Exec, LatestIsLast, NewestRead, CacheNewest;
    HistoryHolds(m, run);
    var log := Exec(m, run).log;
    forall j, k | 0 <= j < |log| && 0 <= k < |log| && log[j].name == log[k].name && log[j].step < log[k].step
      ensures log[j].readStep < log[k].readStep
    {
      assert IsLoad(run, log[j]);
    }
    CacheIsNewestExactly(m, run);
  }

  /** The lookup at event `i` is a hit. */
  ghost predicate IsHit(m: Machine, run: seq<Event>, i: nat) {
    && i < |run| && run[i].Lookup?
    && var s := Exec(m, run[..i]);
       && run[i].id in s.calls && s.calls[run[i].id].Looking?
       && Fresh(s.cache, s.calls[run[i].id].name, s.calls[run[i].id].now).Some?
  }

  /** A hit serves the newest-read file inserted under its name so far, exactly when the load that
      wrote the entry was not overtaken. */
  lemma HitServesNewestExactly(m: Machine, run: seq<Event>, i: nat)
    requires IsHit(m, run, i)
    ensures run[i].id in Exec(m, run[..i + 1]).calls
    ensures var s, c := Exec(m, run[..i]), Exec(m, run[..i + 1]).calls[run[i].id];
            && c.Returned? && c.hit && c.put < |s.log| && s.log[c.put].name == c.name && s.log[c.put].cert == c.cert
            && (NewestRead(s.log, c.put) <==> !Overtaken(s.log, c.put))
  {
    var s := Exec(m, run[..i]);
    assert run[..i + 1][..i] == run[..i];
    EntryNewestExactly(m, run[..i], s.calls[run[i].id].name);
    InvHolds(m, run[..i]);
    assert EntryGood(m, s.calls[run[i].id].name, s);
  }

  /** A hit was verified, and its file read, less than one ttl plus the duration of its load before
      the call's clock reading; so within ttl + d when no load takes longer than d. */
  lemma HitAge(m: Machine, run: seq<Event>, id: nat, d: int)
    requires id in Exec(m, run).calls && Exec(m, run).calls[id].Returned? && Exec(m, run).calls[id].hit
    requires forall k | 0 <= k < |Exec(m, run).log| :: Exec(m, run).log[k].insertedAt - Exec(m, run).log[k].verifiedAt <= d
    ensures var s := Exec(m, run);
            var c := s.calls[id];
            && c.put < |s.log|
            && var i := s.log[c.put];
               && c.now - i.verifiedAt < m.ttl + (i.insertedAt - i.verifiedAt) <= m.ttl + d
               && i.readStep < |run|
               && c.now - Exec(m, run[..i.readStep]).clock < m.ttl + d
  {
    ReturnedCertificates(m, run, id);
  }

  /** The condition is needed: a run whose hit serves an overtaken load, verified any `delay` ago. */
  lemma OvertakenLoadServed(m: Machine, name: string, older: seq<Block>, newer: seq<Block>, delay: nat)
    returns (s: State)
    requires m.admit(name) == Some(name) && older != newer && m.ttl > 0
    requires m.load(name, 0, older).Some? && m.load(name, 0, newer).Some?
    ensures Reachable(m, s) && 2 in s.calls && s.calls[2].Returned? && s.calls[2].hit
    ensures Overtaken(s.log, s.calls[2].put) && !NewestRead(s.log, s.calls[2].put) && s.log[s.calls[2].put].data == older
    ensures s.calls[2].now - s.log[s.calls[2].put].verifiedAt == delay
  {
    s := SupersededCertificateServed(m, name, older, newer, delay);
  }
}
