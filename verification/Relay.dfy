/**
 The webhook relay (webhooks/relay.go): a bounded queue between delivery handlers and polling
 handlers, with drop-oldest overflow, an expiry scan and counters.

 `RelayQueue` is what the relay states of the library FIFO; `Relay` is the relay object with the
 atomic sections its handlers execute.
 */
module RelayQueue {

  /** Sending to the FIFO: a full queue loses its oldest element. */
  function Pushed<T>(queue: seq<T>, x: T, size: nat): (r: seq<T>)
    ensures |queue| <= size && size > 0 ==> |r| <= size
  {
    if queue != [] && |queue| >= size then queue[1..] + [x] else queue + [x]
  }

  /** What a scan leaves, when the clock shows `times[i]` as it examines element `i`. */
  function Kept<T>(queue: seq<T>, times: seq<int>, expiration: T -> int): seq<T>
    requires |times| == |queue|
  {
    if queue == [] then []
    else (if times[0] > expiration(queue[0]) then [] else [queue[0]]) + Kept(queue[1..], times[1..], expiration)
  }

  lemma {:induction false} KeptLast<T>(queue: seq<T>, times: seq<int>, x: T, t: int, expiration: T -> int)
    requires |times| == |queue|
    ensures Kept(queue + [x], times + [t], expiration)
         == Kept(queue, times, expiration) + (if t > expiration(x) then [] else [x])
  {
    if queue == [] {
      assert ([x])[1..] == [] && ([t])[1..] == [];
    } else {
      assert (queue + [x])[1..] == queue[1..] + [x] && (times + [t])[1..] == times[1..] + [t];
      KeptLast(queue[1..], times[1..], x, t, expiration);
    }
  }
}

module Relay {
  import opened Common
  import opened RelayQueue

  type Header = map<string, seq<string>>

  datatype Delivery = Delivery(header: Header, body: seq<Byte>, expiration: int)

  /** `canon` is http.CanonicalHeaderKey. */
  datatype Config = Config(size: nat, payloadLimit: int, forwarded: seq<string>, expiry: int, canon: string -> string)

  const DEFAULT_QUEUE_SIZE := 100
  const DEFAULT_PAYLOAD_LIMIT := 1024 * 1024
  const DEFAULT_FORWARDED := ["X-GitHub-Event", "X-GitHub-Delivery", "X-GitHub-Hook-ID"]

  /** NewRelay: zero means unset, and an explicitly empty header list stays empty. */
  function NewConfig(size: nat, payloadLimit: int, forwarded: Option<seq<string>>, expiry: int,
                     canon: string -> string): (c: Config)
    ensures c.size == size > 0 || (size == 0 && c.size == 100)
    ensures c.payloadLimit == payloadLimit != 0 || (payloadLimit == 0 && c.payloadLimit == 1048576)
    ensures || forwarded == Some(c.forwarded)
            || (forwarded == None && c.forwarded == ["X-GitHub-Event", "X-GitHub-Delivery", "X-GitHub-Hook-ID"])
    ensures c.expiry == expiry && c.canon == canon
  {
    Config(
      if size == 0 then DEFAULT_QUEUE_SIZE else size,
      if payloadLimit == 0 then DEFAULT_PAYLOAD_LIMIT else payloadLimit,
      if forwarded.None? then DEFAULT_FORWARDED else forwarded.value,
      expiry, canon)
  }

  /** A request as the handler sees it; `validated` is what the validator would answer. */
  datatype Request = Request(
    contentLength: int, header: Header, verb: string, hasBody: bool,
    validated: (seq<Byte>, int), cancelled: bool)

  datatype Screening = Pass(body: seq<Byte>) | Fail(status: int, denied: bool) | Gone

  function FirstValue(h: Header, key: string): string {
    if key in h && h[key] != [] then h[key][0] else ""
  }

  function Screen(c: Config, r: Request): Screening {
    if r.contentLength > c.payloadLimit then Fail(413, false)
    else if FirstValue(r.header, "Content-Type") != "application/json" then Fail(415, false)
    else if r.verb != "POST" then Fail(405, false)
    else if !r.hasBody then Fail(400, false)
    else if r.validated.1 != 200 then Fail(r.validated.1, 400 <= r.validated.1 < 500)
    else if r.cancelled then Gone
    else Pass(r.validated.0)
  }

  /** A request whose every field is as the relay wants it. */
  predicate Acceptable(c: Config, r: Request) {
    && r.contentLength <= c.payloadLimit && IsJson(r.header) && r.verb == "POST" && r.hasBody
    && r.validated.1 == 200 && !r.cancelled
  }

  /** The first value of the content type. */
  predicate IsJson(h: Header) {
    && "Content-Type" in h && |h["Content-Type"]| > 0 && h["Content-Type"][0] == "application/json"
  }

  /** Exactly the acceptable requests pass, with the validated payload; the first field that is not
      as it should be decides the status. */
  lemma ScreenExactly(c: Config, r: Request)
    ensures Screen(c, r).Pass? <==> Acceptable(c, r)
    ensures Screen(c, r).Pass? ==> Screen(c, r).body == r.validated.0
    ensures Screen(c, r) == Fail(413, false) <== r.contentLength > c.payloadLimit
    ensures Screen(c, r) == Fail(415, false) <== r.contentLength <= c.payloadLimit && !IsJson(r.header)
    ensures r.contentLength <= c.payloadLimit && IsJson(r.header) ==>
              && (r.verb != "POST" ==> Screen(c, r) == Fail(405, false))
              && (r.verb == "POST" && !r.hasBody ==> Screen(c, r) == Fail(400, false))
    ensures Validates(c, r) ==>
              && (r.validated.1 != 200 ==> Screen(c, r) == Fail(r.validated.1, 400 <= r.validated.1 <= 499))
              && (r.validated.1 == 200 && r.cancelled ==> Screen(c, r) == Gone)
    ensures Screen(c, r).Fail? && Screen(c, r).denied <==> Validates(c, r) && 400 <= r.validated.1 <= 499
  {
  }

  /** The request gets as far as the validator. */
  predicate Validates(c: Config, r: Request) {
    r.contentLength <= c.payloadLimit && IsJson(r.header) && r.verb == "POST" && r.hasBody
  }

  /** A delivery is the validated payload of a request, stamped with a time plus the ttl, with those
      of its headers that carry values and whose names are configured. */
  lemma StampedExactly(c: Config, r: Request, now: int)
    ensures Stamped(c, r, now).body == r.validated.0 && Stamped(c, r, now).expiration == now + c.expiry
    ensures var h := Stamped(c, r, now).header;
            && (forall k :: k in h <==> k in r.header && |r.header[k]| > 0 && exists n :: n in c.forwarded && c.canon(n) == k)
            && (forall k | k in h :: h[k] == r.header[k])
  {
  }

  /** The configured subset of a header, restricted to names that carry a value. */
  function Forwarded(c: Config, src: Header): Header {
    map k | k in src && src[k] != [] && exists n :: n in c.forwarded && c.canon(n) == k :: src[k]
  }

  /** Forwarded headers have canonical names and carry values, as PollResponse expects. */
  lemma ForwardedIsCanonical(c: Config, src: Header)
    requires forall n :: c.canon(c.canon(n)) == c.canon(n)
    ensures forall k | k in Forwarded(c, src) :: c.canon(k) == k && Forwarded(c, src)[k] != []
  {
    forall k | k in Forwarded(c, src)
      ensures c.canon(k) == k
    {
      var n :| n in c.forwarded && c.canon(n) == k;
      assert c.canon(c.canon(n)) == c.canon(n);
    }
  }

  /** The delivery that a screened request becomes at clock `now`. */
  function Stamped(c: Config, r: Request, now: int): Delivery {
    Delivery(Forwarded(c, r.header), r.validated.0, now + c.expiry)
  }

  /** The response header of a poll: what was forwarded, with the content type replaced. */
  function PollHeader(h: Header): Header {
    h["Content-Type" := ["application/json"]]
  }

  /** What ends the wait of a poll: the FIFO, its closing after a Stop, or the request's context. */
  datatype Wait = Ready | Closed | Cancelled

  class Relay {
    const config: Config
    var queue: seq<Delivery>
    var denied: nat
    var relayed: nat
    var read: nat

    constructor (config: Config)
      ensures this.config == config && queue == [] && denied == relayed == read == 0
    {
      this.config := config;
      queue, denied, relayed, read := [], 0, 0, 0;
    }

    method ForwardedHeaders(src: Header) returns (out: Header)
      ensures out == Forwarded(config, src)
    {
      out := map[];
      var names := config.forwarded;
      for i := 0 to |names|
        invariant forall k :: k in out <==>
                    k in src && src[k] != [] && exists n :: n in names[..i] && config.canon(n) == k
        invariant forall k | k in out :: out[k] == src[k]
      {
        var key := config.canon(names[i]);
        assert names[..i + 1] == names[..i] + [names[i]];
        if key in src && |src[key]| > 0 {
          out := out[key := src[key]];
        }
      }
      assert names[..|names|] == names;
    }

    /** ServeWebhook up to the send: a stamped delivery to send, or the reason to stop. */
    method Prepare(r: Request, now: int) returns (v: Screening, d: Delivery)
      modifies this`denied
      ensures v == Screen(config, r)
      ensures denied == old(denied) + if v.Fail? && v.denied then 1 else 0
      ensures v.Pass? ==> d == Stamped(config, r, now)
    {
      d := Delivery(map[], [], 0);
      if r.contentLength > config.payloadLimit {
        return Fail(413, false), d;
      }
      var contentType := if "Content-Type" in r.header then r.header["Content-Type"] else [];
      if |contentType| == 0 || contentType[0] != "application/json" {
        return Fail(415, false), d;
      }
      if r.verb != "POST" {
        return Fail(405, false), d;
      }
      if !r.hasBody {
        return Fail(400, false), d;
      }
      var (payload, status) := r.validated;
      if status != 200 {
        var counted := status >= 400 && status < 500;
        if counted {
          denied := denied + 1;
        }
        return Fail(status, counted), d;
      }
      if r.cancelled {
        return Gone, d;
      }
      var header := ForwardedHeaders(r.header);
      return Pass(payload), Delivery(header, payload, now + config.expiry);
    }

    method Send(d: Delivery)
      modifies this`queue
      ensures queue == Pushed(old(queue), d, config.size)
    {
      if queue != [] && |queue| >= config.size {
        queue := queue[1..];
      }
      queue := queue + [d];
    }

    method Receive() returns (d: Option<Delivery>)
      modifies this`queue
      ensures old(queue) == [] ==> d == None && queue == []
      ensures old(queue) != [] ==> d == Some(old(queue)[0]) && queue == old(queue)[1..]
    {
      if queue == [] {
        return None;
      }
      d := Some(queue[0]);
      queue := queue[1..];
    }

    /** The periodic scan; the clock is read anew for every element. */
    method Scan(times: seq<int>)
      requires |times| == |queue|
      modifies this`queue
      ensures queue == if config.expiry <= 0 then old(queue) else Kept(old(queue), times, (d: Delivery) => d.expiration)
    {
      if config.expiry <= 0 {
        return;
      }
      var all, kept := queue, [];
      for i := 0 to |all|
        invariant kept == Kept(all[..i], times[..i], (d: Delivery) => d.expiration)
      {
        assert all[..i + 1] == all[..i] + [all[i]] && times[..i + 1] == times[..i] + [times[i]];
        KeptLast(all[..i], times[..i], all[i], times[i], (d: Delivery) => d.expiration);
        if !(times[i] > all[i].expiration) {
          kept := kept + [all[i]];
        }
      }
      assert all[..|all|] == all && times[..|all|] == times;
      queue := kept;
    }

    /** ServeWebhook with nothing interleaved. `gaveUp` says that the request was cancelled while
        the send was blocked; no status means that no response is written. */
    method ServeWebhook(r: Request, now: int, gaveUp: bool) returns (status: Option<int>)
      modifies this
      ensures var v := Screen(config, r);
              var sent := v.Pass? && !gaveUp;
              && status == (if v.Fail? then Some(v.status) else if sent then Some(202) else None)
              && denied == old(denied) + (if v.Fail? && v.denied then 1 else 0)
              && (v.Pass? <==> Acceptable(config, r))
              && relayed == old(relayed) + (if sent then 1 else 0)
              && read == old(read)
              && queue == if sent then Pushed(old(queue), Stamped(config, r, now), config.size) else old(queue)
    {
      var v, d := Prepare(r, now);
      ScreenExactly(config, r);
      if v.Fail? {
        return Some(v.status);
      }
      if v.Gone? || gaveUp {
        return None;
      }
      Send(d);
      relayed := relayed + 1;
      return Some(202);
    }

    /** WaitForWebhook with nothing interleaved; an empty queue makes it wait for an outcome other
        than a delivery. No status means that no response is written. */
    method WaitForWebhook(verb: string, wait: Wait) returns (status: Option<int>, d: Option<Delivery>)
      modifies this
      ensures var got := verb == "GET" && wait.Ready? && old(queue) != [];
              && status == (if verb != "GET" then Some(405) else if got then Some(200) else None)
              && d == (if got then Some(old(queue)[0]) else None)
              && queue == (if got then old(queue)[1..] else old(queue))
              && read == old(read) + (if got then 1 else 0)
              && denied == old(denied) && relayed == old(relayed)
    {
      if verb != "GET" {
        return Some(405), None;
      }
      match wait {
        case Ready =>
          d := Receive();
          if d.None? {
            return None, None;
          }
          read := read + 1;
          status := Some(200);
        case Closed => return None, None;
        case Cancelled => return None, None;
      }
    }

    method AddAll(h: Header, name: string, values: seq<string>) returns (r: Header)
      requires config.canon(name) == name && name !in h && values != []
      ensures r == h[name := values]
    {
      r := h;
      for j := 0 to |values|
        invariant r == if j == 0 then h else h[name := values[..j]]
      {
        var key := config.canon(name);
        r := r[key := (if key in r then r[key] else []) + [values[j]]];
        assert values[..j + 1] == values[..j] + [values[j]];
      }
      assert values[..|values|] == values;
    }

    /** WaitForWebhook's header loop, over the delivery's names in any order. */
    method PollResponse(d: Delivery, order: seq<string>) returns (h: Header)
      requires forall k :: k in order <==> k in d.header
      requires forall i, j | 0 <= i < j < |order| :: order[i] != order[j]
      requires forall k | k in d.header :: config.canon(k) == k && d.header[k] != []
      ensures h == PollHeader(d.header)
    {
      h := map[];
      for i := 0 to |order|
        invariant h.Keys == set k | k in order[..i]
        invariant forall k | k in order[..i] :: h[k] == d.header[k]
      {
        var name, values := order[i], d.header[order[i]];
        assert order[..i + 1] == order[..i] + [name] && name !in order[..i];
        h := AddAll(h, name, values);
      }
      assert order[..|order|] == order;
      assert h == d.header;
      h := h["Content-Type" := ["application/json"]];
    }
  }
}
