/** Hexadecimal text of byte strings (encoding/hex as certs.go and webhooks/signature.go use it). */
module Hex {
  import opened Common

  function Digit(n: nat): (c: char)
    requires n < 16
    ensures Value(c) == Some(n)
    ensures c != ':' && c != '-'
  {
    if n < 10 then '0' + n as char else 'a' + (n - 10) as char
  }

  /** hex.DecodeString accepts both letter cases. */
  function Value(c: char): Option<nat> {
    if '0' <= c <= '9' then Some(c as int - '0' as int)
    else if 'a' <= c <= 'f' then Some(c as int - 'a' as int + 10)
    else if 'A' <= c <= 'F' then Some(c as int - 'A' as int + 10)
    else None
  }

  /** Digits are written from the lower-case table; both cases are read. */
  lemma DigitTable(n: nat, c: char)
    requires n < 16
    ensures Digit(n) == "0123456789abcdef"[n]
    ensures Value(c) == Some(n) <==> c == "0123456789abcdef"[n] || c == "0123456789ABCDEF"[n]
  {
  }

  function Pair(b: Byte): string {
    [Digit(b / 16), Digit(b % 16)]
  }

  function Encode(bytes: seq<Byte>): (s: string)
    ensures |s| == 2 * |bytes|
  {
    if bytes == [] then "" else Pair(bytes[0]) + Encode(bytes[1..])
  }

  function Decode(s: string): Option<seq<Byte>> {
    if s == "" then Some([])
    else if |s| == 1 then None
    else
      match (Value(s[0]), Value(s[1]), Decode(s[2..]))
      case (Some(hi), Some(lo), Some(rest)) => Some([16 * hi + lo] + rest)
      case _ => None
  }

  function Lower(s: string): (r: string)
    ensures |r| == |s|
  {
    if s == "" then "" else [LowerChar(s[0])] + Lower(s[1..])
  }

  function LowerChar(c: char): char {
    if 'A' <= c <= 'Z' then (c as int + 32) as char else c
  }

  lemma {:induction false} EncodeAppend(a: seq<Byte>, b: seq<Byte>)
    ensures Encode(a + b) == Encode(a) + Encode(b)
  {
    if a == [] {
      assert a + b == b;
    } else {
      assert (a + b)[1..] == a[1..] + b;
      EncodeAppend(a[1..], b);
    }
  }

  /** A text decodes to some bytes exactly when, up to letter case, it is their encoding. */
  lemma {:induction false} DecodesExactly(s: string, bytes: seq<Byte>)
    ensures Decode(s) == Some(bytes) <==> Lower(s) == Encode(bytes)
  {
    if |s| <= 1 || bytes == [] {
      assert bytes != [] ==> |Encode(bytes)| >= 2;
    } else {
      var t, c := Lower(s), Encode(bytes);
      var b, tail := bytes[0], bytes[1..];
      DecodesExactly(s[2..], tail);
      DigitsAgree(s[0], b / 16);
      DigitsAgree(s[1], b % 16);
      assert s[1..][1..] == s[2..];
      assert t == [LowerChar(s[0]), LowerChar(s[1])] + Lower(s[2..]);
      assert c == [Digit(b / 16), Digit(b % 16)] + Encode(tail);
      assert t[2..] == Lower(s[2..]) && c[2..] == Encode(tail);
      assert t == c <==> t[0] == c[0] && t[1] == c[1] && t[2..] == c[2..];
      assert bytes == [b] + tail;
      PairAgrees(s[0], s[1], b);
      if Decode(s) == Some(bytes) {
        var rest := Decode(s[2..]).value;
        assert bytes[0] == 16 * Value(s[0]).value + Value(s[1]).value;
        assert bytes[1..] == rest;
      }
    }
  }

  lemma DigitsAgree(c: char, n: nat)
    requires n < 16
    ensures Value(c) == Some(n) <==> LowerChar(c) == Digit(n)
  {
  }

  lemma PairAgrees(hi: char, lo: char, b: Byte)
    ensures Value(hi).Some? && Value(lo).Some? && 16 * Value(hi).value + Value(lo).value == b
       <==> Value(hi) == Some(b / 16) && Value(lo) == Some(b % 16)
  {
  }

  lemma {:induction false} LowerEncode(bytes: seq<Byte>)
    ensures Lower(Encode(bytes)) == Encode(bytes)
  {
    if bytes != [] {
      LowerEncode(bytes[1..]);
      var c := Encode(bytes);
      assert c[1..][1..] == Encode(bytes[1..]);
    }
  }

  lemma RoundTrip(bytes: seq<Byte>)
    ensures Decode(Encode(bytes)) == Some(bytes)
  {
    LowerEncode(bytes);
    DecodesExactly(Encode(bytes), bytes);
  }
}
