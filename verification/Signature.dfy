/**
 Signed webhook payloads (webhooks/signature.go). HMAC (RFC 2104) is a function argument, and
 `canon` is http.CanonicalHeaderKey.
 */
module Signature {
  import opened Common
  import Hex

  type Header = map<string, string>

  datatype Http = Http(canon: string -> string, mac: (seq<Byte>, seq<Byte>) -> seq<Byte>)

  function Get(h: Http, header: Header, name: string): string {
    if h.canon(name) in header then header[h.canon(name)] else ""
  }

  /** Decimal digits of a length. */
  function Decimal(n: nat): string {
    if n < 10 then ['0' + n as char] else Decimal(n / 10) + ['0' + (n % 10) as char]
  }

  const SCHEME: string := "sha256"

  function SignatureText(h: Http, payload: seq<Byte>, secret: seq<Byte>): string {
    SCHEME + "=" + Hex.Encode(h.mac(secret, payload))
  }

  function SignHTTPRequest(h: Http, header: Header, payload: seq<Byte>, secret: seq<Byte>, headerName: string): Header {
    header[h.canon(headerName) := SignatureText(h, payload, secret)]
          [h.canon("Content-Length") := Decimal(|payload|)]
  }

  /** strings.SplitN(s, "=", 2). */
  function SplitAtEquals(s: string): seq<string> {
    if s == "" then [""]
    else if s[0] == '=' then ["", s[1..]]
    else var rest := SplitAtEquals(s[1..]); [[s[0]] + rest[0]] + rest[1..]
  }

  const OK := 200
  const BAD_REQUEST := 400
  const UNAUTHORIZED := 401
  const INTERNAL_ERROR := 500

  /** SHA256SignatureFromHeader: the decoded signature and its status. */
  function SignatureFromHeader(h: Http, header: Header, headerName: string): (seq<Byte>, int) {
    var text := Get(h, header, headerName);
    var parts := SplitAtEquals(text);
    if text == "" || |parts| != 2 || parts[0] != SCHEME then ([], BAD_REQUEST)
    else
      match Hex.Decode(parts[1])
      case None => ([], BAD_REQUEST)
      case Some(sig) => (sig, OK)
  }

  lemma {:induction false} SplitAtFirstEquals(a: string, b: string)
    requires '=' !in a
    ensures SplitAtEquals(a + "=" + b) == [a, b]
  {
    var s := a + "=" + b;
    if a == "" {
      assert s[1..] == b;
    } else {
      assert s[1..] == a[1..] + "=" + b;
      SplitAtFirstEquals(a[1..], b);
      assert [a[0]] + a[1..] == a;
    }
  }

  lemma {:induction false} NoEquals(s: string)
    requires '=' !in s
    ensures |SplitAtEquals(s)| == 1
  {
    if s != "" {
      NoEquals(s[1..]);
    }
  }

  lemma {:induction false} DecimalHasNoEquals(n: nat)
    ensures '=' !in Decimal(n)
  {
    if n >= 10 {
      DecimalHasNoEquals(n / 10);
    }
  }

  /** The number that decimal digits denote. */
  function FromDecimal(s: string): Option<nat> {
    if s == "" then Some(0)
    else
      var c := s[|s| - 1];
      match FromDecimal(s[..|s| - 1])
      case None => None
      case Some(n) => if '0' <= c <= '9' then Some(10 * n + (c as int - '0' as int)) else None
  }

  lemma {:induction false} DecimalReadsBack(n: nat)
    ensures FromDecimal(Decimal(n)) == Some(n) && |Decimal(n)| >= 1
    ensures Decimal(n)[0] == '0' ==> n == 0
  {
    if n >= 10 {
      DecimalReadsBack(n / 10);
      assert Decimal(n)[..|Decimal(n)| - 1] == Decimal(n / 10);
    } else {
      assert Decimal(n)[..0] == "";
      assert FromDecimal("") == Some(0);
    }
  }

  /** A signed request says how long its payload is, keeps its other headers, and carries the
      scheme and the MAC in hexadecimal. */
  lemma SignedHeaders(h: Http, header: Header, payload: seq<Byte>, secret: seq<Byte>, headerName: string)
    ensures var signed := SignHTTPRequest(h, header, payload, secret, headerName);
            && FromDecimal(Get(h, signed, "Content-Length")) == Some(|payload|)
            && (h.canon(headerName) != h.canon("Content-Length") ==>
                  Get(h, signed, headerName) == "sha256=" + Hex.Encode(h.mac(secret, payload)))
            && (forall k | k in header && k != h.canon(headerName) && k != h.canon("Content-Length") ::
                  k in signed && signed[k] == header[k])
  {
    DecimalReadsBack(|payload|);
    assert SCHEME + "=" == "sha256=";
  }

  /** A signature is read exactly from a header that says "sha256=" and hexadecimal digits. */
  lemma SignatureReadExactly(h: Http, header: Header, headerName: string, sig: seq<Byte>)
    ensures SignatureFromHeader(h, header, headerName) == (sig, 200) <==>
              exists hex :: Get(h, header, headerName) == "sha256=" + hex && Hex.Decode(hex) == Some(sig)
    ensures SignatureFromHeader(h, header, headerName).1 != 200 ==> SignatureFromHeader(h, header, headerName) == ([], 400)
  {
    var text := Get(h, header, headerName);
    SplitRejoins(text);
    if SignatureFromHeader(h, header, headerName) == (sig, 200) {
      var hex := SplitAtEquals(text)[1];
      assert text == SCHEME + "=" + hex == "sha256=" + hex;
    }
    if hex :| text == "sha256=" + hex && Hex.Decode(hex) == Some(sig) {
      assert "sha256=" + hex == SCHEME + "=" + hex;
      SplitAtFirstEquals(SCHEME, hex);
    }
  }

  lemma {:induction false} SplitRejoins(s: string)
    ensures 1 <= |SplitAtEquals(s)| <= 2
    ensures |SplitAtEquals(s)| == 2 ==> s == SplitAtEquals(s)[0] + "=" + SplitAtEquals(s)[1]
  {
    if s != "" {
      SplitRejoins(s[1..]);
      assert s == [s[0]] + s[1..];
    }
  }

  /** The header as signed decodes to the MAC, unless it is the header that the length overwrites. */
  lemma SignedHeaderDecodes(h: Http, header: Header, payload: seq<Byte>, secret: seq<Byte>, headerName: string)
    ensures SignatureFromHeader(h, SignHTTPRequest(h, header, payload, secret, headerName), headerName) ==
            if h.canon(headerName) == h.canon("Content-Length") then ([], BAD_REQUEST) else (h.mac(secret, payload), OK)
  {
    if h.canon(headerName) == h.canon("Content-Length") {
      DecimalHasNoEquals(|payload|);
      NoEquals(Decimal(|payload|));
    } else {
      SplitAtFirstEquals(SCHEME, Hex.Encode(h.mac(secret, payload)));
      Hex.RoundTrip(h.mac(secret, payload));
    }
  }

  /** A key token whose value can be wiped; the validator wipes what it has examined. */
  class Token {
    var value: seq<Byte>

    method Clear()
      modifies this
      ensures Cleared(old(value), value)
    {
      value := seq(|value|, _ => 0);
    }
  }

  predicate Cleared(before: seq<Byte>, after: seq<Byte>) {
    |after| == |before| && forall i | 0 <= i < |after| :: after[i] == 0
  }

  ghost predicate Examined(tokens: seq<Token>, n: nat, t: Token) {
    exists i | 0 <= i < n && i < |tokens| :: tokens[i] == t
  }

  /**
   SignatureValidator: `body`, `signature` and `tokens` are what reading the request, the given
   signature function and fetching the tokens answer; a signature comes with a status, which is
   passed on unless it is 200. Clearing is deferred to the return, so a token that is listed twice
   is still compared with its value; the tokens behind the match are left alone.
   */
  method Validate(h: Http, body: Option<seq<Byte>>, signature: (seq<Byte>, int), tokens: Option<seq<Token>>)
    returns (payload: seq<Byte>, status: int, ghost examined: nat)
    modifies if tokens.Some? then set t | t in tokens.value else {}
    ensures body.None? ==> status == 400
    ensures body.Some? && signature.1 != 200 ==> status == signature.1
    ensures body.Some? && signature.1 == 200 && tokens.None? ==> status == 500
    ensures body.Some? && signature.1 == 200 && tokens.Some? ==>
              && (status == 200 <==> exists t | t in tokens.value :: old(h.mac(t.value, body.value)) == signature.0)
              && (status == 200 || status == 401)
              && (status == 401 ==> examined == |tokens.value|)
    ensures if status == 200 then body == Some(payload) else payload == []
    ensures body.None? || signature.1 != 200 || tokens.None? ==> examined == 0
    ensures tokens.Some? ==> examined <= |tokens.value|
    ensures tokens.Some? ==> forall t | t in tokens.value ::
              if Examined(tokens.value, examined, t) then Cleared(old(t.value), t.value) else t.value == old(t.value)
  {
    examined := 0;
    if body.None? {
      return [], BAD_REQUEST, 0;
    }
    if signature.1 != OK {
      return [], signature.1, 0;
    }
    if tokens.None? {
      return [], INTERNAL_ERROR, 0;
    }
    payload, status := [], UNAUTHORIZED;
    var n := 0;
    var all := tokens.value;
    while n < |all|
      invariant 0 <= n <= |all|
      invariant forall i | 0 <= i < n :: h.mac(all[i].value, body.value) != signature.0
    {
      n := n + 1;
      if h.mac(all[n - 1].value, body.value) == signature.0 {
        payload, status := body.value, OK;
        break;
      }
    }
    assert status == OK ==> n > 0 && all[n - 1] in all && h.mac(all[n - 1].value, body.value) == signature.0;
    examined := n;
    ClearFirst(all, n);
  }

  method ClearFirst(tokens: seq<Token>, n: nat)
    requires n <= |tokens|
    modifies set t | t in tokens
    ensures forall t | t in tokens ::
              if Examined(tokens, n, t) then Cleared(old(t.value), t.value) else t.value == old(t.value)
  {
    for i := 0 to n
      invariant forall t | t in tokens ::
                  if Examined(tokens, i, t) then Cleared(old(t.value), t.value) else t.value == old(t.value)
    {
      tokens[i].Clear();
      assert forall t :: Examined(tokens, i + 1, t) <==> Examined(tokens, i, t) || t == tokens[i];
    }
  }

  /** A request signed with one of the tokens is accepted with its payload. */
  method SignedRequestIsAccepted(h: Http, header: Header, payload: seq<Byte>, secret: seq<Byte>,
                                 headerName: string, tokens: seq<Token>) returns (received: seq<Byte>, status: int)
    requires exists t | t in tokens :: t.value == secret
    modifies set t | t in tokens
    ensures h.canon(headerName) != h.canon("Content-Length") ==> status == OK && received == payload
    ensures h.canon(headerName) == h.canon("Content-Length") ==> status == BAD_REQUEST
  {
    var signed := SignHTTPRequest(h, header, payload, secret, headerName);
    SignedHeaderDecodes(h, header, payload, secret, headerName);
    ghost var examined;
    received, status, examined := Validate(h, Some(payload), SignatureFromHeader(h, signed, headerName), Some(tokens));
  }
}
