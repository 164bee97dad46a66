/**
 The verdict of the TLS validator on the connections it has made (tlsvalidate/tls_validate.go).

 Dialing appends the connection states in any order, so what matters is what the checks say of
 every order. A missing serial number in the first state makes the comparison dereference nil,
 and an empty list of states is indexed: that outcome is a crash, not an error.
 */
module TlsValidate {
  import opened Common

  datatype Cert = Cert(serial: Option<int>, algorithm: int, issuer: string, notAfter: int)

  datatype Conn = Conn(addr: string, certs: seq<Cert>, suite: int)

  datatype Options = Options(
    issuers: seq<string -> bool>,
    validFor: int,
    allowedAlgorithms: seq<int>,
    deniedAlgorithms: seq<int>,
    deniedSuites: seq<int>,
    checkSerial: bool,
    checkSignature: bool,
    checkCipherSuite: bool,
    checkZeroSerialNumbers: bool,
    expand: bool,
    ipv4Only: bool)

  ghost predicate IssuerOk(o: Options, issuer: string) {
    o.issuers == [] || exists i | 0 <= i < |o.issuers| :: o.issuers[i](issuer)
  }

  /** One connection passes on its own. */
  ghost predicate ConnOk(o: Options, now: int, c: Conn) {
    && c.certs != []
    && var leaf := c.certs[0];
       && IssuerOk(o, leaf.issuer)
       && (o.validFor > 0 ==> leaf.notAfter - now >= o.validFor)
       && (o.allowedAlgorithms != [] ==> leaf.algorithm in o.allowedAlgorithms)
       && leaf.algorithm !in o.deniedAlgorithms
       && c.suite !in o.deniedSuites
  }

  method ValidateConnectionState(o: Options, now: int, c: Conn) returns (ok: bool)
    ensures ok <==> ConnOk(o, now, c)
  {
    if |c.certs| == 0 {
      return false;
    }
    var leaf := c.certs[0];
    if |o.issuers| > 0 {
      var matched := false;
      for i := 0 to |o.issuers|
        invariant !matched
        invariant forall j | 0 <= j < i :: !o.issuers[j](leaf.issuer)
      {
        if o.issuers[i](leaf.issuer) {
          matched := true;
          break;
        }
      }
      if !matched {
        return false;
      }
    }
    if o.validFor > 0 {
      if leaf.notAfter - now < o.validFor {
        return false;
      }
    }
    if |o.allowedAlgorithms| > 0 {
      if leaf.algorithm !in o.allowedAlgorithms {
        return false;
      }
    }
    if |o.deniedAlgorithms| > 0 {
      if leaf.algorithm in o.deniedAlgorithms {
        return false;
      }
    }
    if |o.deniedSuites| > 0 {
      if c.suite in o.deniedSuites {
        return false;
      }
    }
    return true;
  }

  predicate SerialsNonZero(c: Conn) {
    forall i | 0 <= i < |c.certs| :: c.certs[i].serial.Some? && c.certs[i].serial.value != 0
  }

  method EnsureNonZeroSerialNumbers(o: Options, c: Conn) returns (ok: bool)
    ensures ok <==> (o.checkZeroSerialNumbers ==> SerialsNonZero(c))
  {
    if !o.checkZeroSerialNumbers {
      return true;
    }
    for i := 0 to |c.certs|
      invariant forall j | 0 <= j < i :: c.certs[j].serial.Some? && c.certs[j].serial.value != 0
    {
      if c.certs[i].serial.None? || c.certs[i].serial.value == 0 {
        return false;
      }
    }
    return true;
  }

  datatype Outcome = Clean | Errors | Crash

  /** Two leaves agree on every attribute whose check is enabled. */
  predicate Agree(o: Options, a: Conn, b: Conn)
    requires a.certs != [] && b.certs != []
  {
    && (o.checkSerial ==> a.certs[0].serial == b.certs[0].serial)
    && (o.checkSignature ==> a.certs[0].algorithm == b.certs[0].algorithm)
    && (o.checkCipherSuite ==> a.suite == b.suite)
  }

  predicate HasLeafSerial(c: Conn) {
    c.certs != [] && c.certs[0].serial.Some?
  }

  method VerifyAcrossHosts(o: Options, states: seq<Conn>) returns (r: Outcome)
    ensures states == [] || states[0].certs == [] ==> r == Clean
    ensures states != [] && states[0].certs != [] ==>
              && (r == Clean <==> forall i | 0 < i < |states| :: HasLeafSerial(states[i]) && Agree(o, states[0], states[i]))
              && (r == Crash <==> o.checkSerial && states[0].certs[0].serial.None? &&
                                  exists i | 0 < i < |states| :: HasLeafSerial(states[i]))
  {
    if |states| == 0 || |states[0].certs| == 0 {
      return Clean;
    }
    var first := states[0];
    var serial, alg, suite := first.certs[0].serial, first.certs[0].algorithm, first.suite;
    r := Clean;
    for i := 1 to |states|
      invariant r != Crash
      invariant r == Clean <==> forall j | 0 < j < i :: HasLeafSerial(states[j]) && Agree(o, first, states[j])
      invariant o.checkSerial && serial.None? ==> forall j | 0 < j < i :: !HasLeafSerial(states[j])
    {
      var cs := states[i];
      if |cs.certs| == 0 {
        r := Errors;
        continue;
      }
      if cs.certs[0].serial.None? {
        r := Errors;
        continue;
      }
      if o.checkSerial {
        if serial.None? {
          return Crash;
        }
        if serial.value != cs.certs[0].serial.value {
          r := Errors;
        }
      }
      if o.checkSignature && alg != cs.certs[0].algorithm {
        r := Errors;
      }
      if o.checkCipherSuite && suite != cs.suite {
        r := Errors;
      }
    }
  }

  /** Every connection passes on its own. */
  ghost predicate AllOk(o: Options, now: int, states: seq<Conn>) {
    forall i | 0 <= i < |states| :: ConnOk(o, now, states[i])
  }

  /** All pairs agree on each enabled attribute; this does not mention any order. */
  ghost predicate AllAgree(o: Options, states: seq<Conn>)
    requires forall i | 0 <= i < |states| :: states[i].certs != []
  {
    forall i, j | 0 <= i < |states| && 0 <= j < |states| :: Agree(o, states[i], states[j])
  }

  /** All that succeeds, but for the zero serial check, said of the first state and the others. */
  ghost predicate Consistent(o: Options, now: int, states: seq<Conn>) {
    && AllOk(o, now, states)
    && forall i | 0 < i < |states| :: HasLeafSerial(states[i]) && Agree(o, states[0], states[i])
  }

  ghost predicate Succeeds(o: Options, now: int, states: seq<Conn>) {
    states != [] && Consistent(o, now, states) && (o.checkZeroSerialNumbers ==> SerialsNonZero(states[0]))
  }

  /** The first state is missing, or its serial is compared although it is missing. */
  ghost predicate Crashes(o: Options, states: seq<Conn>) {
    || states == []
    || (&& o.checkSerial && states[0].certs != [] && states[0].certs[0].serial.None?
        && exists i | 0 < i < |states| :: HasLeafSerial(states[i]))
  }

  /** Validate, once the states have been collected. */
  method ValidateStates(o: Options, now: int, states: seq<Conn>) returns (r: Outcome)
    ensures r == Clean <==> Succeeds(o, now, states)
    ensures r == Crash <==> Crashes(o, states)
  {
    var failed := false;
    for i := 0 to |states|
      invariant !failed <==> AllOk(o, now, states[..i])
    {
      var ok := ValidateConnectionState(o, now, states[i]);
      assert states[..i + 1] == states[..i] + [states[i]];
      if !ok {
        assert !ConnOk(o, now, states[..i + 1][i]);
        failed := true;
      }
    }
    assert states[..|states|] == states;
    if |states| == 0 {
      return Crash;
    }
    var nonZero := EnsureNonZeroSerialNumbers(o, states[0]);
    var across := VerifyAcrossHosts(o, states);
    assert !failed ==> states[0].certs != [] by {
      assert !failed ==> ConnOk(o, now, states[0]);
    }
    if across == Crash {
      return Crash;
    }
    r := if failed || !nonZero || across == Errors then Errors else Clean;
  }

  /** What the network answers: the addresses of a name, whether a text is an IPv4 address, and the
      connection made to an address, the i-th that is dialed. */
  datatype Network = Network(
    lookup: string -> Option<seq<string>>,
    isIPv4: string -> bool,
    dial: (string, nat) -> Option<Conn>)

  function Addresses(o: Options, net: Network, host: string): Option<seq<string>> {
    if o.expand then net.lookup(host) else Some([host])
  }

  /** The addresses that are dialed. */
  function Targets(o: Options, net: Network, host: string): Option<seq<string>> {
    match Addresses(o, net, host)
    case None => None
    case Some(addrs) => Some(if o.ipv4Only then Filter(addrs, net.isIPv4) else addrs)
  }

  method ExpandHost(o: Options, net: Network, host: string) returns (addrs: Option<seq<string>>)
    ensures addrs == Addresses(o, net, host)
    ensures o.expand ==> addrs == net.lookup(host)
    ensures !o.expand ==> addrs == Some([host])
  {
    if o.expand {
      return net.lookup(host);
    }
    return Some([host]);
  }

  method IgnoreIPv6(o: Options, net: Network, addrs: seq<string>) returns (r: seq<string>)
    ensures r == if o.ipv4Only then Filter(addrs, net.isIPv4) else addrs
  {
    if !o.ipv4Only {
      return addrs;
    }
    r := [];
    for i := 0 to |addrs|
      invariant r == Filter(addrs[..i], net.isIPv4)
    {
      assert addrs[..i + 1] == addrs[..i] + [addrs[i]];
      FilterLast(addrs[..i], addrs[i], net.isIPv4);
      if net.isIPv4(addrs[i]) {
        r := r + [addrs[i]];
      }
    }
    assert addrs[..|addrs|] == addrs;
  }

  /** The order in which `n` dials complete. */
  ghost predicate Completes(order: seq<nat>, n: nat) {
    && |order| == n
    && (forall k | 0 <= k < n :: order[k] < n)
    && (forall i | 0 <= i < n :: i in order)
  }

  predicate AllDialed(net: Network, addrs: seq<string>) {
    forall i | 0 <= i < |addrs| :: net.dial(addrs[i], i).Some?
  }

  function StatesOf(net: Network, addrs: seq<string>, order: seq<nat>): seq<Conn>
    requires Completes(order, |addrs|) && AllDialed(net, addrs)
  {
    seq(|order|, k requires 0 <= k < |order| => net.dial(addrs[order[k]], order[k]).value)
  }

  method GetStates(net: Network, addrs: seq<string>, order: seq<nat>) returns (states: Option<seq<Conn>>)
    requires Completes(order, |addrs|)
    ensures states == if AllDialed(net, addrs) then Some(StatesOf(net, addrs, order)) else None
  {
    var all: seq<Conn> := [];
    for k := 0 to |order|
      invariant |all| == k
      invariant forall j | 0 <= j < k :: net.dial(addrs[order[j]], order[j]) == Some(all[j])
    {
      var s := net.dial(addrs[order[k]], order[k]);
      if s.None? {
        return None;
      }
      all := all + [s.value];
    }
    forall i | 0 <= i < |addrs|
      ensures net.dial(addrs[i], i).Some?
    {
      assert i in order;
      var k :| 0 <= k < |order| && order[k] == i;
    }
    assert all == StatesOf(net, addrs, order);
    return Some(all);
  }

  /** Validate: `order` is the order in which the dials complete. */
  method Validate(o: Options, now: int, net: Network, host: string, order: seq<nat>) returns (r: Outcome)
    requires Targets(o, net, host).Some? ==> Completes(order, |Targets(o, net, host).value|)
    ensures o.expand && net.lookup(host).None? ==> r == Errors
    ensures var targets := Targets(o, net, host);
            if targets.Some? && AllDialed(net, targets.value)
            then && (r == Clean <==> Succeeds(o, now, StatesOf(net, targets.value, order)))
                 && (r == Crash <==> Crashes(o, StatesOf(net, targets.value, order)))
            else r == Errors
  {
    var addrs := ExpandHost(o, net, host);
    if addrs.None? {
      return Errors;
    }
    var targets := IgnoreIPv6(o, net, addrs.value);
    var states := GetStates(net, targets, order);
    if states.None? {
      return Errors;
    }
    r := ValidateStates(o, now, states.value);
  }

  /** There is nothing to dial exactly when every address found is ignored; Validate then crashes. */
  lemma NothingToDial(o: Options, net: Network, host: string)
    ensures Targets(o, net, host) == Some([]) <==>
              && Addresses(o, net, host).Some?
              && forall a | a in Addresses(o, net, host).value :: o.ipv4Only && !net.isIPv4(a)
    ensures Targets(o, net, host) == Some([]) ==> AllDialed(net, []) && Crashes(o, StatesOf(net, [], []))
  {
    if Addresses(o, net, host).Some? {
      var addrs := Addresses(o, net, host).value;
      FilterKeeps(addrs, net.isIPv4);
      if Targets(o, net, host) != Some([]) {
        var a := Targets(o, net, host).value[0];
        assert a in Targets(o, net, host).value;
        assert a in addrs && (o.ipv4Only ==> net.isIPv4(a));
      } else {
        forall a | a in addrs
          ensures o.ipv4Only && !net.isIPv4(a)
        {
          assert a !in Targets(o, net, host).value;
        }
      }
    }
  }

  /** A host name that is not expanded is not an IPv4 address: restricted to IPv4, Validate crashes. */
  lemma UnexpandedNameCrashes(o: Options, net: Network, host: string)
    requires !o.expand && o.ipv4Only
    ensures Targets(o, net, host) == Some([]) <==> !net.isIPv4(host)
  {
    NothingToDial(o, net, host);
  }

  ghost predicate SerialsPresent(states: seq<Conn>) {
    forall c | c in states && c.certs != [] :: HasLeafSerial(c)
  }

  /**
   With leaf serials present, the checks on each connection and across connections report nothing
   exactly when every connection passes alone and all pairs agree.
   */
  lemma ConsistentIsPairwise(o: Options, now: int, states: seq<Conn>)
    requires SerialsPresent(states)
    ensures Consistent(o, now, states) <==> AllOk(o, now, states) && AllAgree(o, states)
  {
    if AllOk(o, now, states) {
      assert forall i | 0 <= i < |states| :: ConnOk(o, now, states[i]);
      if forall i | 0 < i < |states| :: Agree(o, states[0], states[i]) {
        forall i, j | 0 <= i < |states| && 0 <= j < |states|
          ensures Agree(o, states[i], states[j])
        {
          assert Agree(o, states[0], states[i]) && Agree(o, states[0], states[j]);
        }
      }
    }
  }

  lemma SameMembers(a: seq<Conn>, b: seq<Conn>)
    requires multiset(a) == multiset(b)
    ensures forall c :: c in a <==> c in b
  {
    forall c
      ensures c in a <==> c in b
    {
      assert c in a <==> c in multiset(a);
      assert c in b <==> c in multiset(b);
    }
  }

  /** These checks do not depend on the order in which the dials completed. */
  lemma ConsistentInAnyOrder(o: Options, now: int, a: seq<Conn>, b: seq<Conn>)
    requires multiset(a) == multiset(b) && SerialsPresent(a)
    ensures Consistent(o, now, a) <==> Consistent(o, now, b)
  {
    SameMembers(a, b);
    ConsistentIsPairwise(o, now, a);
    ConsistentIsPairwise(o, now, b);
    if Consistent(o, now, a) {
      PairwiseTransfers(o, now, a, b);
    }
    if Consistent(o, now, b) {
      PairwiseTransfers(o, now, b, a);
    }
  }

  lemma PairwiseTransfers(o: Options, now: int, a: seq<Conn>, b: seq<Conn>)
    requires forall c :: c in a <==> c in b
    requires AllOk(o, now, a) && AllAgree(o, a)
    ensures AllOk(o, now, b) && AllAgree(o, b)
  {
    forall i | 0 <= i < |b|
      ensures ConnOk(o, now, b[i])
    {
      assert b[i] in a;
    }
    forall i, j | 0 <= i < |b| && 0 <= j < |b|
      ensures Agree(o, b[i], b[j])
    {
      assert b[i] in a && b[j] in a;
    }
  }

  lemma BringToFront(states: seq<Conn>, k: nat) returns (other: seq<Conn>)
    requires k < |states|
    ensures multiset(other) == multiset(states) && other != [] && other[0] == states[k]
  {
    other := states[0 := states[k]][k := states[0]];
  }

  /**
   The zero serial check looks at the first state only. So the verdict is the same in every order
   exactly when that check is off, or something else fails anyway, or the states agree on it.
   */
  lemma VerdictInAnyOrder(o: Options, now: int, states: seq<Conn>)
    requires states != [] && SerialsPresent(states)
    ensures (forall other | multiset(other) == multiset(states) :: Succeeds(o, now, other) <==> Succeeds(o, now, states))
       <==> || !o.checkZeroSerialNumbers
            || !Consistent(o, now, states)
            || (forall c | c in states :: SerialsNonZero(c) <==> SerialsNonZero(states[0]))
  {
    forall other | multiset(other) == multiset(states)
      ensures other != [] && other[0] in states
      ensures Succeeds(o, now, other) <==>
                Consistent(o, now, states) && (o.checkZeroSerialNumbers ==> SerialsNonZero(other[0]))
    {
      ConsistentInAnyOrder(o, now, states, other);
      SameMembers(states, other);
      assert |multiset(other)| == |other| && |multiset(states)| == |states|;
    }
    forall c | c in states
      ensures exists other :: multiset(other) == multiset(states) && other != [] && other[0] == c
    {
      var k :| 0 <= k < |states| && states[k] == c;
      var other := BringToFront(states, k);
    }
  }

  /** Without the serial check the order matters: two connections, one with a zero serial. */
  lemma OrderChangesVerdict(o: Options, now: int, passing: Conn)
    requires o.checkZeroSerialNumbers && !o.checkSerial && ConnOk(o, now, passing) && SerialsNonZero(passing)
    ensures var zero := passing.(certs := [passing.certs[0].(serial := Some(0))]);
            && multiset([passing, zero]) == multiset([zero, passing])
            && Succeeds(o, now, [passing, zero]) && !Succeeds(o, now, [zero, passing])
  {
    var zero := passing.(certs := [passing.certs[0].(serial := Some(0))]);
    assert ConnOk(o, now, zero);
    assert !SerialsNonZero(zero) by {
      assert zero.certs[0].serial == Some(0);
    }
  }

  predicate LeafNonZero(c: Conn) {
    c.certs != [] && c.certs[0].serial.Some? && c.certs[0].serial.value != 0
  }

  /** With the serial and zero checks on, success means that every leaf serial is non-zero. */
  lemma SuccessMeansNonZero(o: Options, now: int, states: seq<Conn>, c: Conn)
    requires o.checkSerial && o.checkZeroSerialNumbers && Succeeds(o, now, states) && c in states
    ensures LeafNonZero(c)
  {
    var i :| 0 <= i < |states| && states[i] == c;
    assert ConnOk(o, now, states[0]);
  }

  /**
   The zero check promises non-zero serials on all addresses. For options under which some
   connection passes, it keeps that promise for leaves exactly when the serial check is on too.
   */
  lemma ZeroCheckCoversAllExactly(o: Options, now: int, passing: Conn)
    requires o.checkZeroSerialNumbers && ConnOk(o, now, passing) && SerialsNonZero(passing)
    ensures o.checkSerial <==>
              forall states, c | Succeeds(o, now, states) && c in states :: LeafNonZero(c)
  {
    if o.checkSerial {
      forall states, c | Succeeds(o, now, states) && c in states
        ensures LeafNonZero(c)
      {
        SuccessMeansNonZero(o, now, states, c);
      }
    } else {
      var zero := passing.(certs := [passing.certs[0].(serial := Some(0))]);
      var states := [passing, zero];
      assert ConnOk(o, now, zero);
      assert Succeeds(o, now, states) && zero in states && !LeafNonZero(zero);
    }
  }
}
