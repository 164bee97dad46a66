/**
 Every interleaving of the relay's handlers, scans and clock (webhooks/relay.go).

 A delivery carries the number of its acceptance, a ticket that no step reads; together with the
 fate recorded for every ticket it tells deliveries apart even when their bodies are equal.
 */
module RelayRuns {
  import opened Common
  import opened RelayQueue
  import opened Relay

  datatype Item = Item(ticket: nat, delivery: Delivery)

  datatype Fate = Queued | Polled | Overflowed | Expired

  /** The queue with its history: what was accepted in order, what became of each, what was polled. */
  datatype Pipe = Pipe(queue: seq<Item>, accepted: seq<Delivery>, fates: seq<Fate>, polled: seq<Item>)

  function Mark(fates: seq<Fate>, ticket: nat, fate: Fate): (r: seq<Fate>)
    ensures |r| == |fates|
  {
    if ticket < |fates| then fates[ticket := fate] else fates
  }

  function Expiration(i: Item): int {
    i.delivery.expiration
  }

  function Accept(p: Pipe, d: Delivery, size: nat): Pipe {
    var fates := if p.queue != [] && |p.queue| >= size then Mark(p.fates, p.queue[0].ticket, Overflowed) else p.fates;
    Pipe(Pushed(p.queue, Item(|p.accepted|, d), size), p.accepted + [d], fates + [Queued], p.polled)
  }

  function Take(p: Pipe): Pipe
    requires p.queue != []
  {
    p.(queue := p.queue[1..], fates := Mark(p.fates, p.queue[0].ticket, Polled), polled := p.polled + [p.queue[0]])
  }

  function Sweep(p: Pipe, times: seq<int>): Pipe
    requires |times| == |p.queue|
  {
    var kept := Kept(p.queue, times, Expiration);
    p.(queue := kept,
       fates := seq(|p.fates|, i requires 0 <= i < |p.fates| =>
         if p.fates[i] == Queued && !HasTicket(kept, i) then Expired else p.fates[i]))
  }

  predicate HasTicket(items: seq<Item>, ticket: nat) {
    exists k | 0 <= k < |items| :: items[k].ticket == ticket
  }

  predicate Ordered(items: seq<Item>) {
    forall i, j | 0 <= i < j < |items| :: items[i].ticket < items[j].ticket
  }

  /** The items are, in ticket order, exactly the accepted deliveries with this fate. */
  ghost predicate Lists(items: seq<Item>, p: Pipe, fate: Fate) {
    && Ordered(items)
    && (forall k | 0 <= k < |items| ::
          items[k].ticket < |p.accepted| && p.accepted[items[k].ticket] == items[k].delivery)
    && (forall t | 0 <= t < |p.fates| :: p.fates[t] == fate <==> HasTicket(items, t))
  }

  ghost predicate PipeInv(p: Pipe, c: Config, clock: int) {
    && |p.fates| == |p.accepted|
    && |p.queue| <= c.size
    && Lists(p.queue, p, Queued)
    && Lists(p.polled, p, Polled)
    && (forall i, j | 0 <= i < |p.polled| && 0 <= j < |p.queue| :: p.polled[i].ticket < p.queue[j].ticket)
    && (forall t | 0 <= t < |p.fates| && p.fates[t] == Overflowed :: t + c.size < |p.accepted|)
    && (forall t | 0 <= t < |p.fates| && p.fates[t] == Expired ::
          c.expiry > 0 && p.accepted[t].expiration < clock)
  }

  lemma {:induction false} OrderedGap(items: seq<Item>, i: nat, j: nat)
    requires Ordered(items) && i <= j < |items|
    ensures items[i].ticket + (j - i) <= items[j].ticket
  {
    if i < j {
      OrderedGap(items, i, j - 1);
      assert items[j - 1].ticket < items[j].ticket;
    }
  }

  lemma HasTicketTail(items: seq<Item>, t: nat)
    requires items != [] && Ordered(items)
    ensures HasTicket(items[1..], t) <==> HasTicket(items, t) && t != items[0].ticket
  {
    if HasTicket(items, t) && t != items[0].ticket {
      var k :| 0 <= k < |items| && items[k].ticket == t;
      assert items[1..][k - 1].ticket == t;
    }
    if HasTicket(items[1..], t) {
      var k :| 0 <= k < |items[1..]| && items[1..][k].ticket == t;
      assert items[k + 1].ticket == t && items[0].ticket < items[k + 1].ticket;
    }
  }

  lemma HasTicketLast(items: seq<Item>, x: Item, t: nat)
    ensures HasTicket(items + [x], t) <==> HasTicket(items, t) || t == x.ticket
  {
    if HasTicket(items, t) {
      var k :| 0 <= k < |items| && items[k].ticket == t;
      assert (items + [x])[k].ticket == t;
    }
    assert (items + [x])[|items|] == x;
  }

  /** Taking the head away, with any fate but Queued, leaves the rest listed. */
  lemma DropHead(p: Pipe, fate: Fate)
    requires |p.fates| == |p.accepted| && p.queue != [] && Lists(p.queue, p, Queued) && fate != Queued
    ensures Lists(p.queue[1..], p.(fates := Mark(p.fates, p.queue[0].ticket, fate)), Queued)
  {
    var fates := Mark(p.fates, p.queue[0].ticket, fate);
    forall t | 0 <= t < |fates|
      ensures fates[t] == Queued <==> HasTicket(p.queue[1..], t)
    {
      HasTicketTail(p.queue, t);
    }
  }

  lemma AddLast(items: seq<Item>, p: Pipe, d: Delivery)
    requires |p.fates| == |p.accepted| && Lists(items, p, Queued)
    ensures Lists(items + [Item(|p.accepted|, d)], p.(accepted := p.accepted + [d], fates := p.fates + [Queued]), Queued)
  {
    var item := Item(|p.accepted|, d);
    forall t | 0 <= t < |p.fates + [Queued]|
      ensures (p.fates + [Queued])[t] == Queued <==> HasTicket(items + [item], t)
    {
      HasTicketLast(items, item, t);
    }
  }

  lemma OtherListKept(p: Pipe, p': Pipe)
    requires |p.fates| == |p.accepted| && Lists(p.polled, p, Polled)
    requires p.accepted <= p'.accepted && |p.fates| <= |p'.fates| && p'.polled == p.polled
    requires forall t | 0 <= t < |p'.fates| :: p'.fates[t] == Polled <==> t < |p.fates| && p.fates[t] == Polled
    ensures Lists(p'.polled, p', Polled)
  {
    forall t | 0 <= t < |p'.fates|
      ensures p'.fates[t] == Polled <==> HasTicket(p'.polled, t)
    {
      if HasTicket(p.polled, t) {
        var k :| 0 <= k < |p.polled| && p.polled[k].ticket == t;
      }
    }
  }

  lemma AcceptLists(p: Pipe, d: Delivery, size: nat)
    requires |p.fates| == |p.accepted| && Lists(p.queue, p, Queued)
    ensures Lists(Accept(p, d, size).queue, Accept(p, d, size), Queued)
  {
    if p.queue != [] && |p.queue| >= size {
      DropHead(p, Overflowed);
      AddLast(p.queue[1..], p.(fates := Mark(p.fates, p.queue[0].ticket, Overflowed)), d);
    } else {
      AddLast(p.queue, p, d);
    }
  }

  /** Only the head of a full queue overflows, and then a queue's worth of newer tickets exists. */
  lemma AcceptFates(p: Pipe, d: Delivery, size: nat, t: nat)
    requires |p.fates| == |p.accepted| && |p.queue| <= size && Lists(p.queue, p, Queued) && t < |p.fates|
    ensures var f := Accept(p, d, size).fates[t];
            || f == p.fates[t]
            || (p.fates[t] == Queued && f == Overflowed && t + size < |p.accepted| + 1)
  {
    if p.queue != [] && |p.queue| >= size {
      OrderedGap(p.queue, 0, |p.queue| - 1);
      assert HasTicket(p.queue, p.queue[0].ticket);
    }
  }

  lemma AcceptKeeps(p: Pipe, d: Delivery, c: Config, clock: int)
    requires PipeInv(p, c, clock) && c.size > 0
    ensures PipeInv(Accept(p, d, c.size), c, clock)
  {
    var p' := Accept(p, d, c.size);
    AcceptLists(p, d, c.size);
    forall t | 0 <= t < |p.fates|
      ensures p'.fates[t] == p.fates[t] ||
              (p.fates[t] == Queued && p'.fates[t] == Overflowed && t + c.size < |p'.accepted|)
    {
      AcceptFates(p, d, c.size, t);
    }
    OtherListKept(p, p');
  }

  lemma TakeKeeps(p: Pipe, c: Config, clock: int)
    requires PipeInv(p, c, clock) && p.queue != []
    ensures PipeInv(Take(p), c, clock)
  {
    var p', head := Take(p), p.queue[0];
    DropHead(p, Polled);
    assert HasTicket(p.queue, head.ticket);
    forall t | 0 <= t < |p'.fates|
      ensures p'.fates[t] == Polled <==> HasTicket(p'.polled, t)
    {
      HasTicketLast(p.polled, head, t);
    }
  }

  /** A scan keeps an element exactly when its stamp had not passed as it was examined. */
  lemma {:induction false} KeptExactly(items: seq<Item>, times: seq<int>, k: nat)
    requires |times| == |items| && Ordered(items) && k < |items|
    ensures HasTicket(Kept(items, times, Expiration), items[k].ticket) <==> !(times[k] > Expiration(items[k]))
  {
    var rest := Kept(items[1..], times[1..], Expiration);
    var all := Kept(items, times, Expiration);
    KeptFrom(items[1..], times[1..]);
    if k == 0 {
      assert forall x | x in rest :: items[0].ticket < x.ticket;
      assert times[0] <= Expiration(items[0]) ==> all[0] == items[0];
    } else {
      KeptExactly(items[1..], times[1..], k - 1);
      assert items[1..][k - 1] == items[k] && items[0].ticket < items[k].ticket;
      if times[0] <= Expiration(items[0]) {
        assert all == [items[0]] + rest;
        HasTicketRest(items[0], rest, items[k].ticket);
      } else {
        assert all == rest;
      }
    }
  }

  lemma HasTicketRest(x: Item, rest: seq<Item>, t: nat)
    requires x.ticket != t
    ensures HasTicket([x] + rest, t) <==> HasTicket(rest, t)
  {
    if HasTicket(rest, t) {
      var k :| 0 <= k < |rest| && rest[k].ticket == t;
      assert ([x] + rest)[k + 1].ticket == t;
    }
    if HasTicket([x] + rest, t) {
      var k :| 0 <= k < |[x] + rest| && ([x] + rest)[k].ticket == t;
      assert rest[k - 1].ticket == t;
    }
  }

  lemma KeptMember(items: seq<Item>, times: seq<int>, k: nat)
    requires |times| == |items| && Ordered(items) && k < |items|
    ensures items[k] in Kept(items, times, Expiration) <==> !(times[k] > Expiration(items[k]))
  {
    KeptExactly(items, times, k);
    KeptFrom(items, times);
    var kept := Kept(items, times, Expiration);
    if HasTicket(kept, items[k].ticket) {
      var j :| 0 <= j < |kept| && kept[j].ticket == items[k].ticket;
      assert kept[j] in items;
    }
  }

  /** What a scan keeps is a sublist: in order, and nothing new. */
  lemma {:induction false} KeptFrom(items: seq<Item>, times: seq<int>)
    requires |times| == |items| && Ordered(items)
    ensures Ordered(Kept(items, times, Expiration))
    ensures |Kept(items, times, Expiration)| <= |items|
    ensures forall x | x in Kept(items, times, Expiration) :: x in items
  {
    if items != [] {
      KeptFrom(items[1..], times[1..]);
      assert forall x | x in items[1..] :: items[0].ticket < x.ticket;
    }
  }

  predicate Monotone(from: int, times: seq<int>) {
    forall i | 0 <= i < |times| :: from <= times[i] && (i > 0 ==> times[i - 1] <= times[i])
  }

  function ClockAfter(clock: int, times: seq<int>): int {
    if times == [] then clock else times[|times| - 1]
  }

  lemma {:induction false} MonotoneBound(from: int, times: seq<int>, k: nat, j: nat)
    requires Monotone(from, times) && k <= j < |times|
    ensures from <= times[k] <= times[j]
  {
    if k < j {
      MonotoneBound(from, times, k, j - 1);
    }
  }

  lemma SweepLists(p: Pipe, times: seq<int>)
    requires |p.fates| == |p.accepted| && |times| == |p.queue| && Lists(p.queue, p, Queued)
    ensures Lists(Sweep(p, times).queue, Sweep(p, times), Queued)
    ensures forall t | 0 <= t < |p.fates| && p.fates[t] == Queued && Sweep(p, times).fates[t] == Expired ::
              exists k | 0 <= k < |p.queue| :: p.queue[k].ticket == t && times[k] > Expiration(p.queue[k])
  {
    var p' := Sweep(p, times);
    KeptFrom(p.queue, times);
    forall k | 0 <= k < |p'.queue|
      ensures p'.queue[k].ticket < |p.accepted| && p.accepted[p'.queue[k].ticket] == p'.queue[k].delivery
      ensures p.fates[p'.queue[k].ticket] == Queued
    {
      assert p'.queue[k] in p.queue;
      var j :| 0 <= j < |p.queue| && p.queue[j] == p'.queue[k];
      assert HasTicket(p.queue, p.queue[j].ticket);
    }
    forall t | 0 <= t < |p.fates| && p.fates[t] == Queued && p'.fates[t] == Expired
      ensures exists k | 0 <= k < |p.queue| :: p.queue[k].ticket == t && times[k] > Expiration(p.queue[k])
    {
      assert HasTicket(p.queue, t);
      var k :| 0 <= k < |p.queue| && p.queue[k].ticket == t;
      KeptExactly(p.queue, times, k);
    }
  }

  lemma SweepKeeps(p: Pipe, times: seq<int>, c: Config, clock: int)
    requires PipeInv(p, c, clock) && |times| == |p.queue| && Monotone(clock, times) && c.expiry > 0
    ensures clock <= ClockAfter(clock, times)
    ensures PipeInv(Sweep(p, times), c, ClockAfter(clock, times))
  {
    var p', clock' := Sweep(p, times), ClockAfter(clock, times);
    if times != [] {
      MonotoneBound(clock, times, |times| - 1, |times| - 1);
    }
    SweepLists(p, times);
    OtherListKept(p, p');
    KeptFrom(p.queue, times);
    forall t | 0 <= t < |p'.fates| && p'.fates[t] == Expired
      ensures p'.accepted[t].expiration < clock'
    {
      if p.fates[t] == Queued {
        var k :| 0 <= k < |p.queue| && p.queue[k].ticket == t && times[k] > Expiration(p.queue[k]);
        MonotoneBound(clock, times, k, |times| - 1);
      }
    }
    forall i, j | 0 <= i < |p'.polled| && 0 <= j < |p'.queue|
      ensures p'.polled[i].ticket < p'.queue[j].ticket
    {
      assert p'.queue[j] in p.queue;
    }
  }

  /** A handler between its blocking points. Sent and Received are the gaps between a channel
      operation and the counter that follows it. */
  datatype Phase =
    | Sending(d: Delivery)
    | Sent
    | Answered202
    | Rejected(status: int, denied: bool)
    | Abandoned
    | Polling
    | Received(item: Item)
    | Delivered(item: Item)
    | PollRefused
    | PollEnded

  datatype Kind = IsSent | IsAnswered | IsDenied | IsReceived | IsDelivered | IsOther

  function KindOf(p: Phase): Kind {
    match p
    case Sent => IsSent
    case Answered202 => IsAnswered
    case Rejected(_, denied) => if denied then IsDenied else IsOther
    case Received(_) => IsReceived
    case Delivered(_) => IsDelivered
    case _ => IsOther
  }

  datatype State = State(
    clock: int, pipe: Pipe, handlers: map<nat, Phase>, stopped: bool, denied: nat, relayed: nat, read: nat)

  datatype Event =
    | Tick(time: int)
    | Serve(h: nat, request: Request)
    | Send(h: nat)
    | CountRelayed(h: nat)
    | Poll(h: nat, verb: string)
    | Receive(h: nat)
    | CountRead(h: nat)
    | Cancel(h: nat)
    | Scan(times: seq<int>)
    | Stop
    | SeeClosed(h: nat)

  const START := State(0, Pipe([], [], [], []), map[], false, 0, 0, 0)

  /** One step; a step that is not enabled changes nothing, so every event sequence is a run. After
      a Stop a poll may find the FIFO closed; whether what it holds is still handed out is the
      FIFO's own affair, so both may happen. */
  function Step(c: Config, s: State, e: Event): State {
    match e
    case Tick(time) => if s.clock <= time then s.(clock := time) else s
    case Serve(h, request) =>
      if h in s.handlers then s
      else (match Screen(c, request)
            case Fail(status, denied) =>
              s.(handlers := s.handlers[h := Rejected(status, denied)], denied := s.denied + if denied then 1 else 0)
            case Gone => s.(handlers := s.handlers[h := Abandoned])
            case Pass(_) => s.(handlers := s.handlers[h := Sending(Stamped(c, request, s.clock))]))
    case Send(h) =>
      if h in s.handlers && s.handlers[h].Sending?
      then s.(pipe := Accept(s.pipe, s.handlers[h].d, c.size), handlers := s.handlers[h := Sent])
      else s
    case CountRelayed(h) =>
      if h in s.handlers && s.handlers[h].Sent? then s.(relayed := s.relayed + 1, handlers := s.handlers[h := Answered202]) else s
    case Poll(h, verb) =>
      if h in s.handlers then s else s.(handlers := s.handlers[h := if verb == "GET" then Polling else PollRefused])
    case Receive(h) =>
      if h in s.handlers && s.handlers[h].Polling? && s.pipe.queue != []
      then s.(pipe := Take(s.pipe), handlers := s.handlers[h := Received(s.pipe.queue[0])])
      else s
    case CountRead(h) =>
      if h in s.handlers && s.handlers[h].Received?
      then s.(read := s.read + 1, handlers := s.handlers[h := Delivered(s.handlers[h].item)])
      else s
    case Cancel(h) =>
      if h in s.handlers && s.handlers[h].Sending? then s.(handlers := s.handlers[h := Abandoned])
      else if h in s.handlers && s.handlers[h].Polling? then s.(handlers := s.handlers[h := PollEnded])
      else s
    case Scan(times) =>
      if c.expiry > 0 && |times| == |s.pipe.queue| && Monotone(s.clock, times)
      then s.(pipe := Sweep(s.pipe, times), clock := ClockAfter(s.clock, times))
      else s
    case Stop => s.(stopped := true)
    case SeeClosed(h) =>
      if s.stopped && h in s.handlers && s.handlers[h].Polling? then s.(handlers := s.handlers[h := PollEnded]) else s
  }

  function Exec(c: Config, run: seq<Event>): State {
    if run == [] then START else Step(c, Exec(c, run[..|run| - 1]), run[|run| - 1])
  }

  ghost function InKind(handlers: map<nat, Phase>, k: Kind): set<nat> {
    set h | h in handlers && KindOf(handlers[h]) == k
  }

  function One(b: bool): nat {
    if b then 1 else 0
  }

  /** Moving one handler to another phase moves one unit between the two kinds. */
  lemma KindMoves(handlers: map<nat, Phase>, h: nat, p: Phase, k: Kind)
    ensures |InKind(handlers[h := p], k)| + One(h in handlers && KindOf(handlers[h]) == k)
         == |InKind(handlers, k)| + One(KindOf(p) == k)
  {
    var before, after := InKind(handlers, k), InKind(handlers[h := p], k);
    assert before - {h} == after - {h};
    SizeWithout(before, h);
    SizeWithout(after, h);
    assert h in after <==> KindOf(p) == k;
  }

  lemma SizeWithout(hs: set<nat>, h: nat)
    ensures |hs| == |hs - {h}| + One(h in hs)
  {
    if h !in hs {
      assert hs - {h} == hs;
    }
  }

  ghost predicate Balanced(s: State) {
    && |InKind(s.handlers, IsSent)| + |InKind(s.handlers, IsAnswered)| == |s.pipe.accepted|
    && |InKind(s.handlers, IsAnswered)| == s.relayed
    && |InKind(s.handlers, IsReceived)| + |InKind(s.handlers, IsDelivered)| == |s.pipe.polled|
    && |InKind(s.handlers, IsDelivered)| == s.read
    && |InKind(s.handlers, IsDenied)| == s.denied
  }

  predicate Holds(p: Phase) {
    p.Received? || p.Delivered?
  }

  /** Every polled delivery that a handler holds was polled by that handler alone. */
  ghost predicate Exclusive(s: State) {
    && (forall h | h in s.handlers && Holds(s.handlers[h]) :: s.handlers[h].item in s.pipe.polled)
    && (forall g, h | g in s.handlers && h in s.handlers && g != h && Holds(s.handlers[g]) && Holds(s.handlers[h]) ::
          s.handlers[g].item.ticket != s.handlers[h].item.ticket)
  }

  /** Balance survives when the counters and histories move as the one handler's kind does. */
  lemma Rebalance(s: State, s': State, h: nat)
    requires Balanced(s) && h in s'.handlers && s'.handlers == s.handlers[h := s'.handlers[h]]
    requires var was := if h in s.handlers then KindOf(s.handlers[h]) else IsOther;
             var now := KindOf(s'.handlers[h]);
             && |s'.pipe.accepted| + One(was == IsSent || was == IsAnswered)
                == |s.pipe.accepted| + One(now == IsSent || now == IsAnswered)
             && s'.relayed + One(was == IsAnswered) == s.relayed + One(now == IsAnswered)
             && |s'.pipe.polled| + One(was == IsReceived || was == IsDelivered)
                == |s.pipe.polled| + One(now == IsReceived || now == IsDelivered)
             && s'.read + One(was == IsDelivered) == s.read + One(now == IsDelivered)
             && s'.denied + One(was == IsDenied) == s.denied + One(now == IsDenied)
    ensures Balanced(s')
  {
    var p := s'.handlers[h];
    KindMoves(s.handlers, h, p, IsSent);
    KindMoves(s.handlers, h, p, IsAnswered);
    KindMoves(s.handlers, h, p, IsReceived);
    KindMoves(s.handlers, h, p, IsDelivered);
    KindMoves(s.handlers, h, p, IsDenied);
  }

  lemma ServeBalances(c: Config, s: State, h: nat, r: Request)
    requires Balanced(s) && h !in s.handlers
    ensures Balanced(Step(c, s, Serve(h, r)))
  {
    Rebalance(s, Step(c, s, Serve(h, r)), h);
  }

  lemma SendBalances(c: Config, s: State, h: nat)
    requires Balanced(s) && h in s.handlers
    ensures Balanced(Step(c, s, Send(h))) && Balanced(Step(c, s, CountRelayed(h)))
  {
    if s.handlers[h].Sending? {
      Rebalance(s, Step(c, s, Send(h)), h);
    } else if s.handlers[h].Sent? {
      Rebalance(s, Step(c, s, CountRelayed(h)), h);
    }
  }

  lemma ReceiveBalances(c: Config, s: State, h: nat)
    requires Balanced(s) && h in s.handlers
    ensures Balanced(Step(c, s, Receive(h))) && Balanced(Step(c, s, CountRead(h)))
  {
    if s.handlers[h].Polling? && s.pipe.queue != [] {
      Rebalance(s, Step(c, s, Receive(h)), h);
    } else if s.handlers[h].Received? {
      Rebalance(s, Step(c, s, CountRead(h)), h);
    }
  }

  lemma EndBalances(c: Config, s: State, e: Event)
    requires Balanced(s) && (e.Poll? || e.Cancel? || e.SeeClosed?)
    ensures Balanced(Step(c, s, e))
  {
    if Step(c, s, e) != s {
      Rebalance(s, Step(c, s, e), e.h);
    }
  }

  lemma BalanceStep(c: Config, s: State, e: Event)
    requires Balanced(s)
    ensures Balanced(Step(c, s, e))
  {
    hide InKind, Screen;
    match e {
      case Serve(h, r) =>
        if h !in s.handlers {
          ServeBalances(c, s, h, r);
        }
      case Send(h) =>
        if h in s.handlers {
          SendBalances(c, s, h);
        }
      case CountRelayed(h) =>
        if h in s.handlers {
          SendBalances(c, s, h);
        }
      case Receive(h) =>
        if h in s.handlers {
          ReceiveBalances(c, s, h);
        }
      case CountRead(h) =>
        if h in s.handlers {
          ReceiveBalances(c, s, h);
        }
      case Tick(_) =>
      case Scan(_) =>
      case Stop =>
      case _ => EndBalances(c, s, e);
    }
  }

  lemma HoldersAfter(c: Config, s: State, e: Event, h: nat)
    requires h in Step(c, s, e).handlers && Holds(Step(c, s, e).handlers[h])
    ensures var s' := Step(c, s, e);
            || (&& e == Receive(h) && s.pipe.queue != [] && s'.handlers[h].item == s.pipe.queue[0]
                && s'.pipe.polled == s.pipe.polled + [s.pipe.queue[0]])
            || (h in s.handlers && Holds(s.handlers[h]) && s.handlers[h].item == s'.handlers[h].item)
    ensures s.pipe.polled <= Step(c, s, e).pipe.polled
  {
  }

  lemma ExclusiveStep(c: Config, s: State, e: Event)
    requires Exclusive(s) && PipeInv(s.pipe, c, s.clock)
    ensures Exclusive(Step(c, s, e))
  {
    var s' := Step(c, s, e);
    forall h | h in s'.handlers && Holds(s'.handlers[h])
      ensures s'.handlers[h].item in s'.pipe.polled
    {
      HoldersAfter(c, s, e, h);
    }
    forall g, h | g in s'.handlers && h in s'.handlers && g != h && Holds(s'.handlers[g]) && Holds(s'.handlers[h])
      ensures s'.handlers[g].item.ticket != s'.handlers[h].item.ticket
    {
      HoldersAfter(c, s, e, g);
      HoldersAfter(c, s, e, h);
    }
  }

  lemma PipeStep(c: Config, s: State, e: Event)
    requires PipeInv(s.pipe, c, s.clock) && c.size > 0
    ensures PipeInv(Step(c, s, e).pipe, c, Step(c, s, e).clock)
  {
    match e {
      case Send(h) =>
        if h in s.handlers && s.handlers[h].Sending? {
          AcceptKeeps(s.pipe, s.handlers[h].d, c, s.clock);
        }
      case Receive(_) =>
        if s.pipe.queue != [] {
          TakeKeeps(s.pipe, c, s.clock);
        }
      case Scan(times) =>
        if c.expiry > 0 && |times| == |s.pipe.queue| && Monotone(s.clock, times) {
          SweepKeeps(s.pipe, times, c, s.clock);
        }
      case _ =>
    }
  }

  lemma {:induction false} InvHolds(c: Config, run: seq<Event>)
    requires c.size > 0
    ensures var s := Exec(c, run); PipeInv(s.pipe, c, s.clock) && Balanced(s) && Exclusive(s)
  {
    if run != [] {
      var s, e := Exec(c, run[..|run| - 1]), run[|run| - 1];
      InvHolds(c, run[..|run| - 1]);
      PipeStep(c, s, e);
      BalanceStep(c, s, e);
      ExclusiveStep(c, s, e);
    }
  }

  function Count(fates: seq<Fate>, f: Fate): nat {
    if fates == [] then 0 else Count(fates[..|fates| - 1], f) + One(fates[|fates| - 1] == f)
  }

  lemma {:induction false} CountListed(items: seq<Item>, fates: seq<Fate>, f: Fate)
    requires Ordered(items)
    requires forall k | 0 <= k < |items| :: items[k].ticket < |fates|
    requires forall t | 0 <= t < |fates| :: fates[t] == f <==> HasTicket(items, t)
    ensures |items| == Count(fates, f)
    decreases |fates|
  {
    if items != [] {
      assert items[0].ticket < |fates|;
    }
    if fates != [] {
      var n := |fates| - 1;
      if fates[n] == f {
        assert HasTicket(items, n);
        var front := DropTop(items, n);
        CountListed(front, fates[..n], f);
      } else {
        forall k | 0 <= k < |items|
          ensures items[k].ticket < n
        {
          assert HasTicket(items, items[k].ticket);
        }
        CountListed(items, fates[..n], f);
      }
    }
  }

  /** The highest ticket is on the last item. */
  lemma DropTop(items: seq<Item>, n: nat) returns (front: seq<Item>)
    requires Ordered(items) && HasTicket(items, n) && forall k | 0 <= k < |items| :: items[k].ticket <= n
    ensures Ordered(front) && |items| == |front| + 1
    ensures forall k | 0 <= k < |front| :: front[k].ticket < n
    ensures forall t | 0 <= t < n :: HasTicket(front, t) <==> HasTicket(items, t)
  {
    var k :| 0 <= k < |items| && items[k].ticket == n;
    var last := items[|items| - 1];
    assert items[k].ticket <= last.ticket;
    front := items[..|items| - 1];
    assert items == front + [last];
    forall t | 0 <= t < n
      ensures HasTicket(front, t) <==> HasTicket(items, t)
    {
      HasTicketLast(front, last, t);
    }
  }

  lemma {:induction false} CountsAddUp(fates: seq<Fate>)
    ensures Count(fates, Queued) + Count(fates, Polled) + Count(fates, Overflowed) + Count(fates, Expired) == |fates|
  {
    if fates != [] {
      CountsAddUp(fates[..|fates| - 1]);
    }
  }

  /** Polled deliveries are a subsequence of the accepted ones: in order, each at most once. */
  lemma PolledIsSubsequence(c: Config, run: seq<Event>)
    requires c.size > 0
    ensures var p := Exec(c, run).pipe;
            && (forall i, j | 0 <= i < j < |p.polled| :: p.polled[i].ticket < p.polled[j].ticket)
            && (forall i | 0 <= i < |p.polled| ::
                  p.polled[i].ticket < |p.accepted| && p.accepted[p.polled[i].ticket] == p.polled[i].delivery)
    ensures var s := Exec(c, run);
            forall g, h | g in s.handlers && h in s.handlers && Holds(s.handlers[g]) && Holds(s.handlers[h]) &&
                          s.handlers[g].item.ticket == s.handlers[h].item.ticket :: g == h
  {
    InvHolds(c, run);
  }

  /** Accepted deliveries split exactly into polled, overflowed, expired and queued. */
  lemma AcceptedSplits(c: Config, run: seq<Event>)
    requires c.size > 0
    ensures var p := Exec(c, run).pipe;
            && |p.fates| == |p.accepted|
            && |p.queue| == Count(p.fates, Queued) && |p.polled| == Count(p.fates, Polled)
            && |p.accepted| == |p.polled| + Count(p.fates, Overflowed) + Count(p.fates, Expired) + |p.queue|
            && |p.queue| <= c.size
            && (forall t | 0 <= t < |p.fates| ::
                  && (p.fates[t] == Queued <==> HasTicket(p.queue, t))
                  && (p.fates[t] == Polled <==> HasTicket(p.polled, t)))
  {
    InvHolds(c, run);
    var p := Exec(c, run).pipe;
    CountListed(p.queue, p.fates, Queued);
    CountListed(p.polled, p.fates, Polled);
    CountsAddUp(p.fates);
  }

  /** As long as nothing was lost, and only then, the relay is a plain FIFO: what was polled followed
      by what is queued is what was accepted. */
  lemma LosslessIsFifo(c: Config, run: seq<Event>)
    requires c.size > 0
    ensures var p := Exec(c, run).pipe;
            Count(p.fates, Overflowed) == 0 && Count(p.fates, Expired) == 0 <==>
              Deliveries(p.polled) + Deliveries(p.queue) == p.accepted
  {
    hide Exec;
    InvHolds(c, run);
    AcceptedSplits(c, run);
    var s := Exec(c, run);
    if |s.pipe.polled| + |s.pipe.queue| == |s.pipe.accepted| {
      FullPipe(s.pipe, c, s.clock);
    }
  }

  lemma FullPipe(p: Pipe, c: Config, clock: int)
    requires PipeInv(p, c, clock) && |p.polled| + |p.queue| == |p.accepted|
    ensures Deliveries(p.polled) + Deliveries(p.queue) == p.accepted
  {
    var items := p.polled + p.queue;
    forall k | 0 <= k < |items|
      ensures (Deliveries(p.polled) + Deliveries(p.queue))[k] == p.accepted[k]
    {
      OrderedGap(items, 0, k);
      OrderedGap(items, k, |items| - 1);
      assert items[|items| - 1].ticket < |p.accepted|;
      assert items[k].ticket == k;
    }
  }

  function Deliveries(items: seq<Item>): seq<Delivery> {
    seq(|items|, i requires 0 <= i < |items| => items[i].delivery)
  }

  /** Event `m` served a request that passed every check, and the delivery is that request with its
      forwarded headers, stamped with the time of the event plus the ttl. */
  ghost predicate Served(c: Config, run: seq<Event>, m: nat, d: Delivery) {
    && m < |run| && run[m].Serve? && Acceptable(c, run[m].request)
    && d == Stamped(c, run[m].request, Exec(c, run[..m]).clock)
  }

  /** `origins` lists the events that served the accepted deliveries; handlers about to send have
      such an event too. */
  ghost predicate Originate(c: Config, run: seq<Event>, s: State, origins: seq<nat>) {
    && |origins| == |s.pipe.accepted|
    && (forall i, j | 0 <= i < j < |origins| :: origins[i] != origins[j])
    && (forall t | 0 <= t < |origins| ::
          && Served(c, run, origins[t], s.pipe.accepted[t])
          && run[origins[t]].h in s.handlers
          && (s.handlers[run[origins[t]].h].Sent? || s.handlers[run[origins[t]].h].Answered202?))
    && (forall h | h in s.handlers && s.handlers[h].Sending? :: HasServed(c, run, h, s.handlers[h].d))
  }

  ghost predicate HasServed(c: Config, run: seq<Event>, h: nat, d: Delivery) {
    exists m: nat :: Served(c, run, m, d) && run[m].h == h
  }

  lemma ServedExtends(c: Config, run: seq<Event>, e: Event, m: nat, d: Delivery)
    requires Served(c, run, m, d)
    ensures Served(c, run + [e], m, d) && (run + [e])[m] == run[m]
  {
    assert (run + [e])[..m] == run[..m];
  }

  /** A handler past its send stays there, and only a send adds to what was accepted. */
  lemma SenderAfter(c: Config, s: State, e: Event, h: nat)
    requires h in s.handlers && (s.handlers[h].Sent? || s.handlers[h].Answered202?)
    ensures h in Step(c, s, e).handlers
    ensures Step(c, s, e).handlers[h].Sent? || Step(c, s, e).handlers[h].Answered202?
  {
  }

  lemma SendingAfter(c: Config, s: State, e: Event, h: nat)
    requires h in Step(c, s, e).handlers && Step(c, s, e).handlers[h].Sending?
    ensures || (h in s.handlers && s.handlers[h] == Step(c, s, e).handlers[h])
            || (&& e.Serve? && e.h == h && Acceptable(c, e.request)
                && Step(c, s, e).handlers[h].d == Stamped(c, e.request, s.clock))
  {
    if e.Serve? {
      ScreenExactly(c, e.request);
    }
  }

  lemma AcceptedAfter(c: Config, s: State, e: Event)
    ensures if e.Send? && e.h in s.handlers && s.handlers[e.h].Sending?
            then && Step(c, s, e).pipe.accepted == s.pipe.accepted + [s.handlers[e.h].d]
                 && e.h in Step(c, s, e).handlers && Step(c, s, e).handlers[e.h].Sent?
            else Step(c, s, e).pipe.accepted == s.pipe.accepted
  {
  }

  lemma OriginsStep(c: Config, run: seq<Event>, s: State, e: Event, origins: seq<nat>) returns (origins': seq<nat>)
    requires s == Exec(c, run) && Originate(c, run, s, origins)
    ensures Originate(c, run + [e], Step(c, s, e), origins')
  {
    hide Step, Exec, Screen, Stamped;
    var run', s' := run + [e], Step(c, s, e);
    AcceptedAfter(c, s, e);
    origins' := origins;
    if e.Send? && e.h in s.handlers && s.handlers[e.h].Sending? {
      var m: nat :| Served(c, run, m, s.handlers[e.h].d) && run[m].h == e.h;
      origins' := origins + [m];
      ServedExtends(c, run, e, m, s.handlers[e.h].d);
      assert m !in origins by {
        assert forall t | 0 <= t < |origins| :: run[origins[t]].h != e.h;
      }
      assert s'.pipe.accepted[|origins|] == s.handlers[e.h].d;
      assert Served(c, run', m, s'.pipe.accepted[|origins|]) && run'[m].h == e.h;
    }
    forall t | 0 <= t < |origins|
      ensures Served(c, run', origins[t], s'.pipe.accepted[t]) && run'[origins[t]] == run[origins[t]]
      ensures run'[origins[t]].h in s'.handlers
      ensures s'.handlers[run'[origins[t]].h].Sent? || s'.handlers[run'[origins[t]].h].Answered202?
    {
      ServedExtends(c, run, e, origins[t], s.pipe.accepted[t]);
      SenderAfter(c, s, e, run[origins[t]].h);
    }
    forall h | h in s'.handlers && s'.handlers[h].Sending?
      ensures HasServed(c, run', h, s'.handlers[h].d)
    {
      StillSending(c, run, s, e, h);
    }
  }

  lemma StillSending(c: Config, run: seq<Event>, s: State, e: Event, h: nat)
    requires s == Exec(c, run) && h in Step(c, s, e).handlers && Step(c, s, e).handlers[h].Sending?
    requires h in s.handlers && s.handlers[h].Sending? ==> HasServed(c, run, h, s.handlers[h].d)
    ensures HasServed(c, run + [e], h, Step(c, s, e).handlers[h].d)
  {
    hide Step, Exec, Screen, Stamped;
    SendingAfter(c, s, e, h);
    var d := Step(c, s, e).handlers[h].d;
    if h in s.handlers && s.handlers[h] == Step(c, s, e).handlers[h] {
      var m: nat :| Served(c, run, m, d) && run[m].h == h;
      ServedExtends(c, run, e, m, d);
    } else {
      assert (run + [e])[..|run|] == run;
      assert Served(c, run + [e], |run|, d);
    }
  }

  lemma {:induction false} Origins(c: Config, run: seq<Event>) returns (origins: seq<nat>)
    ensures Originate(c, run, Exec(c, run), origins)
    decreases |run|
  {
    hide Step;
    if run == [] {
      origins := [];
    } else {
      var front, e := run[..|run| - 1], run[|run| - 1];
      origins := Origins(c, front);
      origins := OriginsStep(c, front, Exec(c, front), e, origins);
      assert run == front + [e];
    }
  }

  /**
   Nothing unvalidated is relayed: every accepted delivery comes from a request of its own that the
   validator answered with 200 and that passed every other check. It carries the validated payload,
   expires one ttl after it was served, and has the configured headers of that request.
   */
  lemma AcceptedWereServed(c: Config, run: seq<Event>) returns (origins: seq<nat>)
    ensures |origins| == |Exec(c, run).pipe.accepted|
    ensures forall i, j | 0 <= i < j < |origins| :: origins[i] != origins[j]
    ensures forall t | 0 <= t < |origins| :: origins[t] < |run| && run[origins[t]].Serve?
    ensures forall t | 0 <= t < |origins| ::
              ComesFrom(c, run[origins[t]].request, Exec(c, run[..origins[t]]).clock, Exec(c, run).pipe.accepted[t])
  {
    hide Exec, Stamped, ComesFrom;
    origins := Origins(c, run);
    forall t | 0 <= t < |origins|
      ensures ComesFrom(c, run[origins[t]].request, Exec(c, run[..origins[t]]).clock, Exec(c, run).pipe.accepted[t])
    {
      assert Served(c, run, origins[t], Exec(c, run).pipe.accepted[t]);
      StampedComesFrom(c, run[origins[t]].request, Exec(c, run[..origins[t]]).clock);
    }
  }

  /** The delivery `d` is the request `r`, served at `now`, on their fields. */
  ghost predicate ComesFrom(c: Config, r: Request, now: int, d: Delivery) {
    && r.validated.1 == 200 && d.body == r.validated.0
    && r.contentLength <= c.payloadLimit && IsJson(r.header) && r.verb == "POST" && r.hasBody && !r.cancelled
    && d.expiration == now + c.expiry
    && (forall k :: k in d.header <==>
          k in r.header && |r.header[k]| > 0 && exists n :: n in c.forwarded && c.canon(n) == k)
    && (forall k | k in d.header :: d.header[k] == r.header[k])
  }

  lemma StampedComesFrom(c: Config, r: Request, now: int)
    requires Acceptable(c, r)
    ensures ComesFrom(c, r, now, Stamped(c, r, now))
  {
    StampedExactly(c, r, now);
  }

  /** So is every polled one: no two polled deliveries come from one request. */
  lemma PolledWereServed(c: Config, run: seq<Event>) returns (origins: seq<nat>)
    requires c.size > 0
    ensures var polled := Exec(c, run).pipe.polled;
            && |origins| == |polled|
            && (forall i | 0 <= i < |polled| :: origins[i] < |run| && run[origins[i]].Serve?)
            && (forall i | 0 <= i < |polled| ::
                  ComesFrom(c, run[origins[i]].request, Exec(c, run[..origins[i]]).clock, polled[i].delivery))
            && (forall i, j | 0 <= i < j < |polled| :: origins[i] != origins[j])
  {
    hide Exec, ComesFrom;
    PolledIsSubsequence(c, run);
    var all := AcceptedWereServed(c, run);
    var polled := Exec(c, run).pipe.polled;
    origins := seq(|polled|, i requires 0 <= i < |polled| => all[polled[i].ticket]);
  }

  /** A handler that was counted as denied served a request that the validator turned down. */
  lemma {:induction false} DeniedWereRefused(c: Config, run: seq<Event>, h: nat) returns (m: nat)
    requires h in Exec(c, run).handlers && Exec(c, run).handlers[h].Rejected?
    ensures m < |run| && run[m].Serve? && run[m].h == h
    ensures var p := Exec(c, run).handlers[h];
            && Screen(c, run[m].request) == Fail(p.status, p.denied)
            && (p.denied <==> Validates(c, run[m].request) && 400 <= run[m].request.validated.1 <= 499)
    decreases |run|
  {
    hide Screen;
    assert run != [] by { assert run == [] ==> Exec(c, run) == START; }
    var front, e := run[..|run| - 1], run[|run| - 1];
    RejectedAfter(c, Exec(c, front), e, h);
    if h in Exec(c, front).handlers && Exec(c, front).handlers[h] == Exec(c, run).handlers[h] {
      m := DeniedWereRefused(c, front, h);
    } else {
      m := |front|;
      ScreenExactly(c, e.request);
    }
  }

  lemma RejectedAfter(c: Config, s: State, e: Event, h: nat)
    requires h in Step(c, s, e).handlers && Step(c, s, e).handlers[h].Rejected?
    ensures var p := Step(c, s, e).handlers[h];
            || (h in s.handlers && s.handlers[h] == p)
            || (e.Serve? && e.h == h && Screen(c, e.request) == Fail(p.status, p.denied))
  {
    hide Screen;
  }

  /** The counters, plus the handlers between a channel operation and its increment, balance. */
  lemma CountersBalance(c: Config, run: seq<Event>)
    requires c.size > 0
    ensures var s := Exec(c, run);
            && s.relayed + |InKind(s.handlers, IsSent)| == |s.pipe.accepted|
            && s.read + |InKind(s.handlers, IsReceived)| == |s.pipe.polled|
            && s.relayed == |InKind(s.handlers, IsAnswered)|
            && s.denied == |InKind(s.handlers, IsDenied)|
  {
    InvHolds(c, run);
  }

  /** A delivery is lost to overflow only after a queue's worth of newer ones was accepted, and
      to expiry only with a positive ttl and a stamp in the past. */
  lemma LossesAreJustified(c: Config, run: seq<Event>, t: nat)
    requires c.size > 0 && t < |Exec(c, run).pipe.fates|
    ensures var s := Exec(c, run);
            && (s.pipe.fates[t] == Overflowed ==> t + c.size < |s.pipe.accepted|)
            && (s.pipe.fates[t] == Expired ==>
                  t < |s.pipe.accepted| && c.expiry > 0 && s.pipe.accepted[t].expiration < s.clock)
  {
    InvHolds(c, run);
  }

  /** A delivery alone in the queue is removed by the next scan exactly when the clock has then moved
      more than one ttl from the time it was served. */
  lemma DeliveryExpires(c: Config, s: State, h: nat, r: Request, later: int)
    requires h !in s.handlers && s.pipe.queue == [] && |s.pipe.fates| == |s.pipe.accepted| && Acceptable(c, r)
    requires c.size > 0 && c.expiry > 0
    requires s.clock <= later
    ensures var s1 := Step(c, Step(c, s, Serve(h, r)), Send(h));
            var s2 := Step(c, Step(c, s1, Tick(later)), Scan([later]));
            && s1.pipe.accepted == s.pipe.accepted + [Stamped(c, r, s.clock)]
            && s2.clock == later && |s2.pipe.fates| == |s.pipe.fates| + 1
            && s2.pipe.fates[|s.pipe.fates|] == (if later > s.clock + c.expiry then Expired else Queued)
            && |s2.pipe.queue| == (if later > s.clock + c.expiry then 0 else 1)
  {
    hide Screen, Forwarded;
    ScreenExactly(c, r);
    var d := Stamped(c, r, s.clock);
    var item := Item(|s.pipe.accepted|, d);
    var s1 := Step(c, Step(c, s, Serve(h, r)), Send(h));
    assert s1.pipe == Accept(s.pipe, d, c.size) && s1.clock == s.clock;
    assert s1.pipe.queue == [item];
    var s2 := Step(c, s1, Tick(later));
    assert s2 == s1.(clock := later);
    assert Kept([item], [later], Expiration) == (if later > Expiration(item) then [] else [item]) by {
      assert [item][1..] == [] && [later][1..] == [];
    }
    assert Step(c, s2, Scan([later])).pipe == Sweep(s1.pipe, [later]);
    assert later <= Expiration(item) ==> HasTicket([item], |s.pipe.fates|) by {
      assert [item][0].ticket == |s.pipe.fates|;
    }
  }

  /** What one scan does to element `k` of the queue. */
  ghost predicate ScanExact(s: State, s': State, times: seq<int>, k: nat)
    requires k < |s.pipe.queue| == |times|
  {
    var item := s.pipe.queue[k];
    && Ordered(s'.pipe.queue) && (forall x | x in s'.pipe.queue :: x in s.pipe.queue)
    && (item in s'.pipe.queue <==> times[k] <= item.delivery.expiration)
    && (item.delivery.expiration < s.clock ==> item !in s'.pipe.queue)
    && (s'.clock <= item.delivery.expiration ==> item in s'.pipe.queue)
  }

  /**
   One scan in any reachable state: what had expired when it began is removed, what is unexpired
   when it ends is kept, and what is kept keeps its order, whatever the order of the stamps.
   */
  lemma ScanRemovesExpired(c: Config, run: seq<Event>, times: seq<int>, k: nat)
    requires c.size > 0 && c.expiry > 0
    requires var s := Exec(c, run); k < |s.pipe.queue| == |times| && Monotone(s.clock, times)
    ensures ScanExact(Exec(c, run), Step(c, Exec(c, run), Scan(times)), times, k)
  {
    InvHolds(c, run);
    ScanStep(c, Exec(c, run), times, k);
  }

  lemma ScanStep(c: Config, s: State, times: seq<int>, k: nat)
    requires c.expiry > 0 && Ordered(s.pipe.queue) && k < |s.pipe.queue| == |times| && Monotone(s.clock, times)
    ensures ScanExact(s, Step(c, s, Scan(times)), times, k)
  {
    KeptFrom(s.pipe.queue, times);
    KeptMember(s.pipe.queue, times, k);
    MonotoneBound(s.clock, times, k, |times| - 1);
  }

  /** The response that a handler has written, if any. */
  function Response(p: Phase): Option<int> {
    match p
    case Rejected(status, _) => Some(status)
    case Answered202 => Some(202)
    case PollRefused => Some(405)
    case Received(_) => Some(200)
    case Delivered(_) => Some(200)
    case _ => None
  }

  /** The steps of one delivery. */
  function ServeSteps(c: Config, s: State, h: nat, r: Request, gaveUp: bool): State {
    var s1 := Step(c, s, Serve(h, r));
    if gaveUp then Step(c, s1, Cancel(h)) else Step(c, Step(c, s1, Send(h)), CountRelayed(h))
  }

  /** The steps of one poll. */
  function PollSteps(c: Config, s: State, h: nat, verb: string, wait: Wait): State {
    var s1 := Step(c, s, Poll(h, verb));
    match wait
    case Ready => Step(c, Step(c, s1, Receive(h)), CountRead(h))
    case Closed => Step(c, Step(c, s1, Stop), SeeClosed(h))
    case Cancelled => Step(c, s1, Cancel(h))
  }

  /** Without interruption, the steps of a delivery do what ServeWebhook does, on every path. */
  lemma UninterruptedServe(c: Config, s: State, h: nat, r: Request, gaveUp: bool)
    requires h !in s.handlers
    ensures var s' := ServeSteps(c, s, h, r, gaveUp);
            var v := Screen(c, r);
            var sent := v.Pass? && !gaveUp;
            && h in s'.handlers && s'.handlers == s.handlers[h := s'.handlers[h]]
            && Response(s'.handlers[h]) == (if v.Fail? then Some(v.status) else if sent then Some(202) else None)
            && (v.Gone? || (v.Pass? && gaveUp) ==> s'.handlers[h] == Abandoned)
            && s'.denied == s.denied + (if v.Fail? && v.denied then 1 else 0)
            && s'.relayed == s.relayed + (if sent then 1 else 0)
            && s'.read == s.read
            && Deliveries(s'.pipe.queue) ==
               if sent then Pushed(Deliveries(s.pipe.queue), Stamped(c, r, s.clock), c.size) else Deliveries(s.pipe.queue)
  {
    hide Screen, Stamped;
    var s1 := Step(c, s, Serve(h, r));
    assert s1.pipe == s.pipe && s1.handlers == s.handlers[h := s1.handlers[h]];
    if Screen(c, r).Pass? && !gaveUp {
      var s2 := Step(c, s1, Send(h));
      assert s2.handlers == s.handlers[h := Sent] && s2.pipe == Accept(s.pipe, Stamped(c, r, s.clock), c.size);
    }
  }

  /** And the steps of a poll do what WaitForWebhook does. */
  lemma UninterruptedPoll(c: Config, s: State, h: nat, verb: string, wait: Wait)
    requires h !in s.handlers
    ensures var s' := PollSteps(c, s, h, verb, wait);
            var got := verb == "GET" && wait.Ready? && s.pipe.queue != [];
            && h in s'.handlers && s'.handlers == s.handlers[h := s'.handlers[h]]
            && Response(s'.handlers[h]) == (if verb != "GET" then Some(405) else if got then Some(200) else None)
            && (got ==> s'.handlers[h] == Delivered(s.pipe.queue[0]))
            && (verb == "GET" && !wait.Ready? ==> s'.handlers[h] == PollEnded)
            && s'.read == s.read + (if got then 1 else 0) && s'.denied == s.denied && s'.relayed == s.relayed
            && Deliveries(s'.pipe.queue) == if got then Deliveries(s.pipe.queue)[1..] else Deliveries(s.pipe.queue)
  {
    var s1 := Step(c, s, Poll(h, verb));
    assert s1.pipe == s.pipe && s1.handlers == s.handlers[h := s1.handlers[h]];
    if verb == "GET" && wait.Ready? && s.pipe.queue != [] {
      var s2 := Step(c, s1, Receive(h));
      assert s2.handlers == s.handlers[h := Received(s.pipe.queue[0])] && s2.pipe == Take(s.pipe);
    }
  }

  /** A poll ends without an answer only when it was cancelled or the relay was stopped. */
  lemma {:induction false} UnansweredPolls(c: Config, run: seq<Event>, h: nat)
    ensures h in Exec(c, run).handlers && Exec(c, run).handlers[h].PollEnded? ==> Cancel(h) in run || Stop in run
    ensures Exec(c, run).stopped ==> Stop in run
  {
    if run != [] {
      var front, e := run[..|run| - 1], run[|run| - 1];
      UnansweredPolls(c, front, h);
      EndedAfter(c, Exec(c, front), e, h);
      assert run == front + [e];
    }
  }

  lemma EndedAfter(c: Config, s: State, e: Event, h: nat)
    ensures Step(c, s, e).stopped <==> s.stopped || e.Stop?
    ensures h in Step(c, s, e).handlers && Step(c, s, e).handlers[h].PollEnded? ==>
              || (h in s.handlers && s.handlers[h].PollEnded?) || e == Cancel(h) || s.stopped
  {
    hide Screen;
  }

  /** And a scan step removes what the relay's Scan removes. */
  lemma {:induction false} SweepIsScan(items: seq<Item>, times: seq<int>)
    requires |times| == |items|
    ensures Deliveries(Kept(items, times, Expiration)) ==
            Kept(Deliveries(items), times, (d: Delivery) => d.expiration)
  {
    if items != [] {
      SweepIsScan(items[1..], times[1..]);
      assert Deliveries(items)[1..] == Deliveries(items[1..]);
    }
  }
}
