/**
 The ACME caching store (webauth/acme/certcache/cache.go): a local directory and a backing store
 behind one name space, with names routed to one of the two and account keys renamed.

 The reference is one map keyed by physical cell. The outcome of a lock and of a store operation
 is an argument of each call; a failed operation changes nothing.
 */
module CertCache {
  import opened Common

  type Data = seq<Byte>

  datatype Options = Options(readonly: bool, saveAccountKeyName: string, allowRSAKeys: bool)

  datatype Error = CacheMiss | ReadonlyCache | RSANotEnabled | LockFailed | LocalOperation | BackingOperation

  /** How the world treats one call: whether the lock is granted and the store operation works. */
  datatype IO = IO(lockGranted: bool, operationWorks: bool)

  predicate Contains(s: string, part: string) {
    part <= s || (s != "" && Contains(s[1..], part))
  }

  predicate IsAcmeAccountKey(name: string) {
    name == "acme_account+key" || name == "acme_account.key"
  }

  predicate IsLocalName(name: string, allowRSAKeys: bool) {
    || HasSuffix(name, "+token")
    || (HasSuffix(name, "+rsa") && !allowRSAKeys)
    || Contains(name, "http-01")
    || IsAcmeAccountKey(name)
  }

  predicate IsRSAKeyAllowed(opts: Options, name: string) {
    if !HasSuffix(name, "+rsa") then true else opts.allowRSAKeys
  }

  function UseBackingStore(opts: Options, name: string): (string, bool) {
    if !IsLocalName(name, opts.allowRSAKeys) then (name, true)
    else if |opts.saveAccountKeyName| > 0 && IsAcmeAccountKey(name) then (opts.saveAccountKeyName, true)
    else (name, false)
  }

  /** The names whose copy lives in the backing store under another name. */
  predicate Renamed(opts: Options, name: string) {
    opts.saveAccountKeyName != "" && IsAcmeAccountKey(name)
  }

  datatype Cell = LocalCell(name: string) | BackingCell(name: string)

  function CellFor(opts: Options, name: string): Cell {
    var (cellName, inBacking) := UseBackingStore(opts, name);
    if inBacking then BackingCell(cellName) else LocalCell(cellName)
  }

  /** The one cell that Delete reaches for a name. */
  function DeletedCell(opts: Options, name: string): Cell {
    if IsLocalName(name, opts.allowRSAKeys) then LocalCell(name) else BackingCell(name)
  }

  datatype Stores = Stores(local: map<string, Data>, backing: map<string, Data>) {
    function Read(c: Cell): Option<Data> {
      match c
      case LocalCell(n) => if n in local then Some(local[n]) else None
      case BackingCell(n) => if n in backing then Some(backing[n]) else None
    }

    function Write(c: Cell, data: Data): (r: Stores)
      ensures forall d :: r.Read(d) == if d == c then Some(data) else Read(d)
    {
      match c
      case LocalCell(n) => Stores(local[n := data], backing)
      case BackingCell(n) => Stores(local, backing[n := data])
    }

    function Remove(c: Cell): (r: Stores)
      ensures forall d :: r.Read(d) == if d == c then None else Read(d)
    {
      match c
      case LocalCell(n) => Stores(local - {n}, backing)
      case BackingCell(n) => Stores(local, backing - {n})
    }
  }

  /** Why an access to a cell fails, if it does: only local cells are guarded by the lock. */
  function AccessError(c: Cell, io: IO): Option<Error> {
    match c
    case BackingCell(_) => if io.operationWorks then None else Some(BackingOperation)
    case LocalCell(_) =>
      if !io.lockGranted then Some(LockFailed)
      else if io.operationWorks then None else Some(LocalOperation)
  }

  function PutError(opts: Options, name: string, io: IO): Option<Error> {
    if !IsRSAKeyAllowed(opts, name) then Some(RSANotEnabled)
    else if opts.readonly then Some(ReadonlyCache)
    else AccessError(CellFor(opts, name), io)
  }

  function DeleteError(opts: Options, name: string, io: IO): Option<Error> {
    if opts.readonly then Some(ReadonlyCache) else AccessError(DeletedCell(opts, name), io)
  }

  datatype Call =
    | Put(name: string, data: Data, io: IO)
    | Get(name: string, io: IO)
    | Delete(name: string, io: IO)

  /** The reference: a call changes at most its one cell, and only when it succeeds. */
  function Step(opts: Options, s: Stores, call: Call): Stores {
    match call
    case Put(name, data, io) => if PutError(opts, name, io).None? then s.Write(CellFor(opts, name), data) else s
    case Get(_, _) => s
    case Delete(name, io) => if DeleteError(opts, name, io).None? then s.Remove(DeletedCell(opts, name)) else s
  }

  function Run(opts: Options, history: seq<Call>): Stores {
    if history == [] then Stores(map[], map[])
    else Step(opts, Run(opts, history[..|history| - 1]), history[|history| - 1])
  }

  class CachingStore {
    const opts: Options
    var local: map<string, Data>
    var backing: map<string, Data>

    constructor (opts: Options)
      ensures this.opts == opts && Contents() == Stores(map[], map[])
    {
      this.opts := opts;
      local, backing := map[], map[];
    }

    function Contents(): Stores
      reads this
    {
      Stores(local, backing)
    }

    method Put(name: string, data: Data, io: IO) returns (err: Option<Error>)
      modifies this
      ensures err == PutError(opts, name, io)
      ensures Contents() == Step(opts, old(Contents()), Call.Put(name, data, io))
    {
      if !IsRSAKeyAllowed(opts, name) {
        return Some(RSANotEnabled);
      }
      if opts.readonly {
        return Some(ReadonlyCache);
      }
      var (cellName, inBacking) := UseBackingStore(opts, name);
      if inBacking {
        if !io.operationWorks {
          return Some(BackingOperation);
        }
        backing := backing[cellName := data];
        return None;
      }
      if !io.lockGranted {
        return Some(LockFailed);
      }
      if !io.operationWorks {
        return Some(LocalOperation);
      }
      local := local[name := data];
      return None;
    }

    method Get(name: string, io: IO) returns (data: Data, err: Option<Error>)
      ensures err.None? <==> AccessError(CellFor(opts, name), io).None? && Contents().Read(CellFor(opts, name)).Some?
      ensures err.None? ==> Some(data) == Contents().Read(CellFor(opts, name))
      ensures err == Some(CacheMiss) <==>
                AccessError(CellFor(opts, name), io).None? && Contents().Read(CellFor(opts, name)).None?
      ensures AccessError(CellFor(opts, name), io).Some? ==> err == AccessError(CellFor(opts, name), io) && data == []
    {
      data := [];
      var (cellName, inBacking) := UseBackingStore(opts, name);
      if inBacking {
        if !io.operationWorks {
          return [], Some(BackingOperation);
        }
        if cellName !in backing {
          return [], Some(CacheMiss);
        }
        return backing[cellName], None;
      }
      if !io.lockGranted {
        return [], Some(LockFailed);
      }
      if !io.operationWorks {
        return [], Some(LocalOperation);
      }
      if name !in local {
        return [], Some(CacheMiss);
      }
      return local[name], None;
    }

    method Delete(name: string, io: IO) returns (err: Option<Error>)
      modifies this
      ensures err == DeleteError(opts, name, io)
      ensures Contents() == Step(opts, old(Contents()), Call.Delete(name, io))
    {
      if opts.readonly {
        return Some(ReadonlyCache);
      }
      if !IsLocalName(name, opts.allowRSAKeys) {
        if !io.operationWorks {
          return Some(BackingOperation);
        }
        backing := backing - {name};
        return None;
      }
      if !io.lockGranted {
        return Some(LockFailed);
      }
      if !io.operationWorks {
        return Some(LocalOperation);
      }
      local := local - {name};
      return None;
    }
  }

  /** A successful Put of `data` whose name is routed to the cell. */
  predicate Writes(opts: Options, call: Call, c: Cell, data: Data) {
    && call.Put? && PutError(opts, call.name, call.io).None?
    && CellFor(opts, call.name) == c && call.data == data
  }

  predicate Erases(opts: Options, call: Call, c: Cell) {
    call.Delete? && DeleteError(opts, call.name, call.io).None? && DeletedCell(opts, call.name) == c
  }

  predicate Touches(opts: Options, call: Call, c: Cell) {
    Erases(opts, call, c) || (call.Put? && Writes(opts, call, c, call.data))
  }

  ghost predicate LatestWrite(opts: Options, history: seq<Call>, c: Cell, data: Data, i: nat) {
    && i < |history| && Writes(opts, history[i], c, data)
    && forall j | i < j < |history| :: !Touches(opts, history[j], c)
  }

  lemma CellAfterStep(opts: Options, s: Stores, call: Call, c: Cell)
    ensures Step(opts, s, call).Read(c) ==
            if Erases(opts, call, c) then None
            else if Touches(opts, call, c) then Some(call.data)
            else s.Read(c)
  {
  }

  lemma LatestWriteSkips(opts: Options, front: seq<Call>, last: Call, c: Cell, data: Data, i: nat)
    requires !Touches(opts, last, c)
    ensures LatestWrite(opts, front, c, data, i) <==> LatestWrite(opts, front + [last], c, data, i)
  {
    assert i < |front| ==> (front + [last])[i] == front[i];
    assert LatestWrite(opts, front + [last], c, data, i) ==> forall j | i < j < |front| :: front[j] == (front + [last])[j];
  }

  /**
   After any history a cell holds some data exactly when the latest successful call that reached
   the cell was a Put of that data; so Get returns it, under any name routed to the cell.
   */
  lemma {:induction false} CellHoldsLatestWrite(opts: Options, history: seq<Call>, c: Cell, data: Data)
    ensures Run(opts, history).Read(c) == Some(data) <==> exists i :: LatestWrite(opts, history, c, data, i)
  {
    hide PutError, DeleteError, CellFor, DeletedCell;
    if history != [] {
      var front, last := history[..|history| - 1], history[|history| - 1];
      CellHoldsLatestWrite(opts, front, c, data);
      CellAfterStep(opts, Run(opts, front), last, c);
      if Touches(opts, last, c) {
        if Writes(opts, last, c, data) {
          assert LatestWrite(opts, history, c, data, |front|);
        }
      } else {
        assert history == front + [last];
        forall i: nat
          ensures LatestWrite(opts, front, c, data, i) <==> LatestWrite(opts, history, c, data, i)
        {
          LatestWriteSkips(opts, front, last, c, data, i);
        }
      }
    }
  }

  /** Delete reaches the cell that Get reads for every name but a renamed account key. */
  lemma DeleteReachesCell(opts: Options, name: string)
    ensures DeletedCell(opts, name) == CellFor(opts, name) <==> !Renamed(opts, name)
  {
  }

  /** A successful Delete makes the name a cache miss, except that a renamed account key survives. */
  lemma DeleteThenGet(opts: Options, s: Stores, name: string, io: IO)
    requires DeleteError(opts, name, io).None?
    ensures var after := Step(opts, s, Delete(name, io)).Read(CellFor(opts, name));
            && (after.None? <==> !Renamed(opts, name) || s.Read(CellFor(opts, name)).None?)
            && (Renamed(opts, name) ==> after == s.Read(CellFor(opts, name)))
  {
    DeleteReachesCell(opts, name);
  }

  /** An account key saved under another name, put and then deleted with success, is still there. */
  lemma DeletedKeySurvives(opts: Options, name: string, data: Data)
    requires Renamed(opts, name) && !opts.readonly
    ensures var works := IO(true, true);
            && PutError(opts, name, works).None? && DeleteError(opts, name, works).None?
            && Run(opts, [Put(name, data, works), Delete(name, works)]).Read(CellFor(opts, name)) == Some(data)
  {
    var put, delete := Put(name, data, IO(true, true)), Delete(name, IO(true, true));
    assert [put, delete][..1] == [put] && [put][..0] == [];
    assert Run(opts, [put]) == Step(opts, Run(opts, []), put);
    assert Run(opts, [put, delete]) == Step(opts, Run(opts, [put]), delete);
    DeleteThenGet(opts, Run(opts, [put]), name, IO(true, true));
    assert IsRSAKeyAllowed(opts, name);
  }

  /** The names that stand for the saved account key. */
  predicate SavedKeyName(opts: Options, name: string) {
    Renamed(opts, name) || (name == opts.saveAccountKeyName != "" && !IsLocalName(name, opts.allowRSAKeys))
  }

  /** Two names share a cell exactly when they are equal or both stand for the saved account key. */
  lemma AliasedNames(opts: Options, a: string, b: string)
    ensures CellFor(opts, a) == CellFor(opts, b) <==> a == b || (SavedKeyName(opts, a) && SavedKeyName(opts, b))
  {
  }

  lemma {:induction false} ContainsBetween(a: string, part: string, b: string)
    ensures Contains(a + part + b, part)
  {
    if a == "" {
      assert a + part + b == part + b;
      assert part <= part + b;
    } else {
      ContainsBetween(a[1..], part, b);
      assert (a + part + b)[1..] == a[1..] + part + b;
    }
  }

  lemma {:induction false} ContainsSplits(s: string, part: string) returns (a: string, b: string)
    requires Contains(s, part)
    ensures s == a + part + b
  {
    if part <= s {
      a, b := "", s[|part|..];
      assert s == part + b;
    } else {
      var front, back := ContainsSplits(s[1..], part);
      a, b := [s[0]] + front, back;
      assert s == [s[0]] + s[1..];
    }
  }

  ghost predicate EndsIn(name: string, suffix: string) {
    exists stem :: name == stem + suffix
  }

  ghost predicate Holds(name: string, part: string) {
    exists a, b :: name == a + part + b
  }

  /** Names that are always kept locally: challenge tokens, anything of http-01, and RSA certificates
      when they are not allowed. */
  ghost predicate Challenge(opts: Options, name: string) {
    || EndsIn(name, "+token")
    || Holds(name, "http-01")
    || (EndsIn(name, "+rsa") && !opts.allowRSAKeys)
  }

  ghost predicate AccountKey(name: string) {
    name == "acme_account+key" || name == "acme_account.key"
  }

  lemma LocalExactly(opts: Options, name: string)
    ensures IsLocalName(name, opts.allowRSAKeys) <==> Challenge(opts, name) || AccountKey(name)
  {
    SuffixExactly(name, "+token");
    SuffixExactly(name, "+rsa");
    if Contains(name, "http-01") {
      var a, b := ContainsSplits(name, "http-01");
    }
    if Holds(name, "http-01") {
      var a, b :| name == a + "http-01" + b;
      ContainsBetween(a, "http-01", b);
    }
  }

  lemma SharedCharacters(name: string, part: string)
    requires part != ""
    ensures EndsIn(name, part) ==> name != "" && name[|name| - 1] == part[|part| - 1]
    ensures Holds(name, part) ==> part[0] in name
  {
    if a, b :| name == a + part + b {
      assert name[|a|] == part[0];
    }
  }

  /** An account key is no challenge. */
  lemma AccountKeysApart(opts: Options, name: string)
    requires AccountKey(name)
    ensures !Challenge(opts, name)
  {
    hide EndsIn, Holds;
    SharedCharacters(name, "+token");
    SharedCharacters(name, "+rsa");
    SharedCharacters(name, "http-01");
    assert name[15] == 'y' && 'h' !in name;
  }

  /**
   Where Put writes and Get reads: a challenge stays local under its own name, and so does an account
   key that is not saved; a saved account key is in the backing store under the configured name,
   everything else there under its own.
   */
  lemma RoutedExactly(opts: Options, name: string)
    ensures CellFor(opts, name) ==
              if Challenge(opts, name) || (AccountKey(name) && opts.saveAccountKeyName == "") then LocalCell(name)
              else if AccountKey(name) then BackingCell(opts.saveAccountKeyName)
              else BackingCell(name)
    ensures DeletedCell(opts, name) ==
              if Challenge(opts, name) || AccountKey(name) then LocalCell(name) else BackingCell(name)
  {
    hide Challenge, IsLocalName;
    LocalExactly(opts, name);
    if AccountKey(name) {
      AccountKeysApart(opts, name);
    }
  }

  /** Challenge tokens never leave the machine, whatever they are called. */
  lemma ChallengesAreLocal(opts: Options, a: string, b: string)
    ensures CellFor(opts, a + "+token") == DeletedCell(opts, a + "+token") == LocalCell(a + "+token")
    ensures CellFor(opts, a + "http-01" + b) == DeletedCell(opts, a + "http-01" + b) == LocalCell(a + "http-01" + b)
    ensures !opts.allowRSAKeys ==> CellFor(opts, a + "+rsa") == DeletedCell(opts, a + "+rsa") == LocalCell(a + "+rsa")
  {
    RoutedExactly(opts, a + "+token");
    RoutedExactly(opts, a + "http-01" + b);
    RoutedExactly(opts, a + "+rsa");
    assert EndsIn(a + "+token", "+token") && Holds(a + "http-01" + b, "http-01") && EndsIn(a + "+rsa", "+rsa");
  }

  /** Only local cells need the lock, and it is asked for first. */
  lemma AccessFailsExactly(c: Cell, io: IO)
    ensures AccessError(c, io) == Some(LockFailed) <==> c.LocalCell? && !io.lockGranted
    ensures AccessError(c, io) == Some(LocalOperation) <==> c.LocalCell? && io.lockGranted && !io.operationWorks
    ensures AccessError(c, io) == Some(BackingOperation) <==> c.BackingCell? && !io.operationWorks
    ensures AccessError(c, io) == None <==> io.operationWorks && (c.LocalCell? ==> io.lockGranted)
  {
  }

  /** Why a Put fails, first cause first; only RSA names are refused for their name. */
  lemma PutErrorExactly(opts: Options, name: string, io: IO)
    ensures PutError(opts, name, io) == Some(RSANotEnabled) <==> EndsIn(name, "+rsa") && !opts.allowRSAKeys
    ensures PutError(opts, name, io) == Some(ReadonlyCache) <==>
              opts.readonly && (EndsIn(name, "+rsa") ==> opts.allowRSAKeys)
    ensures PutError(opts, name, io) == None <==>
              && !opts.readonly && (EndsIn(name, "+rsa") ==> opts.allowRSAKeys) && io.operationWorks
              && (CellFor(opts, name).LocalCell? ==> io.lockGranted)
  {
    SuffixExactly(name, "+rsa");
  }

  /** A Delete is refused for no name; it fails on a readonly instance or with its one cell. */
  lemma DeleteErrorExactly(opts: Options, name: string, io: IO)
    ensures DeleteError(opts, name, io) == Some(ReadonlyCache) <==> opts.readonly
    ensures DeleteError(opts, name, io) == None <==>
              && !opts.readonly && io.operationWorks
              && (Challenge(opts, name) || AccountKey(name) ==> io.lockGranted)
  {
    RoutedExactly(opts, name);
  }

  /** Where names may end up: what each store holds in any state reached from empty stores. */
  ghost predicate Confined(opts: Options, s: Stores) {
    && (forall n | n in s.backing ::
          !IsLocalName(n, opts.allowRSAKeys) || n == opts.saveAccountKeyName != "")
    && (forall n | n in s.local ::
          && IsLocalName(n, opts.allowRSAKeys)
          && (HasSuffix(n, "+rsa") ==> opts.allowRSAKeys)
          && !Renamed(opts, n))
  }

  lemma {:induction false} NamesStayConfined(opts: Options, history: seq<Call>)
    ensures Confined(opts, Run(opts, history))
  {
    if history != [] {
      NamesStayConfined(opts, history[..|history| - 1]);
    }
  }

  /** After any history, no challenge and no account key is in the backing store under its own name,
      unless that is the name configured for the account key; everything local is one of these. */
  lemma SecretsStayLocal(opts: Options, history: seq<Call>)
    ensures var s := Run(opts, history);
            && (forall n | n in s.backing && n != opts.saveAccountKeyName :: !Challenge(opts, n) && !AccountKey(n))
            && (forall n | n in s.local :: Challenge(opts, n) || (AccountKey(n) && opts.saveAccountKeyName == ""))
            && (forall n | n in s.local && EndsIn(n, "+rsa") :: opts.allowRSAKeys)
  {
    hide Run, Challenge, IsLocalName;
    NamesStayConfined(opts, history);
    forall n
      ensures IsLocalName(n, opts.allowRSAKeys) <==> Challenge(opts, n) || AccountKey(n)
      ensures HasSuffix(n, "+rsa") <==> EndsIn(n, "+rsa")
    {
      LocalExactly(opts, n);
      SuffixExactly(n, "+rsa");
    }
  }

  /** A readonly instance changes neither store, whatever they hold and whatever is called. */
  lemma {:induction false} ReadonlyChangesNothing(opts: Options, s: Stores, call: Call, history: seq<Call>)
    requires opts.readonly
    ensures Step(opts, s, call) == s
    ensures Run(opts, history) == Stores(map[], map[])
  {
    if history != [] {
      ReadonlyChangesNothing(opts, s, call, history[..|history| - 1]);
    }
  }
}
