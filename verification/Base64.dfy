/**
 base64url without padding, section 5 of RFC 4648, as user identifiers and session keys use it
 (webauth/webauthn/passkeys/user.go and session.go). Decoding follows the Go package: line
 breaks are skipped and unused trailing bits are ignored.

 Bytes are regrouped into six-bit values first, and those are written in the alphabet.
 */
module Base64 {
  import opened Common

  type Sextet = n: int | 0 <= n < 64

  function Char(n: Sextet): (c: char)
    ensures Value(c) == Some(n) && c != '\r' && c != '\n'
  {
    if n < 26 then 'A' + n as char
    else if n < 52 then 'a' + (n - 26) as char
    else if n < 62 then '0' + (n - 52) as char
    else if n == 62 then '-' else '_'
  }

  function Value(c: char): Option<Sextet> {
    if 'A' <= c <= 'Z' then Some(c as int - 'A' as int)
    else if 'a' <= c <= 'z' then Some(c as int - 'a' as int + 26)
    else if '0' <= c <= '9' then Some(c as int - '0' as int + 52)
    else if c == '-' then Some(62)
    else if c == '_' then Some(63)
    else None
  }

  lemma CharOfValue(c: char)
    requires Value(c).Some?
    ensures Char(Value(c).value) == c
  {
  }

  /** The table of section 5 of RFC 4648, in its four parts. */
  const UPPER: string := "ABCDEFGHIJKLMNOPQRSTUVWXYZ"
  const LOWER: string := "abcdefghijklmnopqrstuvwxyz"
  const DIGITS: string := "0123456789"
  const MARKS: string := "-_"

  lemma UpperTable(i: nat)
    requires i < 26
    ensures UPPER[i] == 'A' + i as char
  {
  }

  lemma LowerTable(i: nat)
    requires i < 26
    ensures LOWER[i] == 'a' + i as char
  {
  }

  function Listed(n: Sextet): char {
    if n < 26 then UPPER[n] else if n < 52 then LOWER[n - 26] else if n < 62 then DIGITS[n - 52] else MARKS[n - 62]
  }

  /** Characters are written from that table, and nothing else is read. */
  lemma Alphabet(n: Sextet, c: char)
    ensures Char(n) == Listed(n)
    ensures Value(c) == Some(n) <==> c == Listed(n)
  {
    CharIsListed(n);
    if Value(c) == Some(n) {
      CharOfValue(c);
    }
  }

  lemma CharIsListed(n: Sextet)
    ensures Char(n) == Listed(n)
  {
    if n < 26 {
      UpperTable(n);
    } else if n < 52 {
      LowerTable(n - 26);
    }
  }

  function Text(sextets: seq<Sextet>): string {
    seq(|sextets|, i requires 0 <= i < |sextets| => Char(sextets[i]))
  }

  predicate InAlphabet(s: string) {
    forall i | 0 <= i < |s| :: Value(s[i]).Some?
  }

  function Values(s: string): seq<Sextet>
    requires InAlphabet(s)
  {
    seq(|s|, i requires 0 <= i < |s| => Value(s[i]).value)
  }

  function First(a: Byte): Sextet { a / 4 }

  function Second(a: Byte, b: Byte): Sextet { a % 4 * 16 + b / 16 }

  function Third(b: Byte, c: Byte): Sextet { b % 16 * 4 + c / 64 }

  function Fourth(c: Byte): Sextet { c % 64 }

  function Sextets(bytes: seq<Byte>): seq<Sextet> {
    if |bytes| == 0 then []
    else if |bytes| == 1 then [First(bytes[0]), Second(bytes[0], 0)]
    else if |bytes| == 2 then [First(bytes[0]), Second(bytes[0], bytes[1]), Third(bytes[1], 0)]
    else [First(bytes[0]), Second(bytes[0], bytes[1]), Third(bytes[1], bytes[2]), Fourth(bytes[2])]
         + Sextets(bytes[3..])
  }

  function Byte0(p: Sextet, q: Sextet): Byte { p * 4 + q / 16 }

  function Byte1(q: Sextet, r: Sextet): Byte { q % 16 * 16 + r / 4 }

  function Byte2(r: Sextet, s: Sextet): Byte { r % 4 * 64 + s }

  function Bytes(sextets: seq<Sextet>): Option<seq<Byte>> {
    if |sextets| == 0 then Some([])
    else if |sextets| == 1 then None
    else if |sextets| == 2 then Some([Byte0(sextets[0], sextets[1])])
    else if |sextets| == 3 then Some([Byte0(sextets[0], sextets[1]), Byte1(sextets[1], sextets[2])])
    else
      match Bytes(sextets[4..])
      case None => None
      case Some(rest) =>
        Some([Byte0(sextets[0], sextets[1]), Byte1(sextets[1], sextets[2]), Byte2(sextets[2], sextets[3])] + rest)
  }

  function Encode(bytes: seq<Byte>): string {
    Text(Sextets(bytes))
  }

  function Decode(s: string): Option<seq<Byte>> {
    if InAlphabet(s) then Bytes(Values(s)) else None
  }

  function StripLines(s: string): string {
    if s == "" then "" else (if s[0] == '\r' || s[0] == '\n' then "" else [s[0]]) + StripLines(s[1..])
  }

  /** base64.RawURLEncoding.Decode. */
  function DecodeText(s: string): Option<seq<Byte>> {
    Decode(StripLines(s))
  }

  lemma Div4(y: int, u: int)
    requires 0 <= u < 4
    ensures (4 * y + u) / 4 == y && (4 * y + u) % 4 == u
  {
  }

  lemma Div16(y: int, u: int)
    requires 0 <= u < 16
    ensures (16 * y + u) / 16 == y && (16 * y + u) % 16 == u
  {
  }

  lemma Div64(y: int, u: int)
    requires 0 <= u < 64
    ensures (64 * y + u) / 64 == y && (64 * y + u) % 64 == u
  {
  }

  lemma FirstByte(a: Byte, b: Byte)
    ensures Byte0(First(a), Second(a, b)) == a
  {
    Div16(a % 4, b / 16);
  }

  lemma BytesOfSextets(a: Byte, b: Byte, c: Byte)
    ensures Byte0(First(a), Second(a, b)) == a
    ensures Byte1(Second(a, b), Third(b, c)) == b
    ensures Byte2(Third(b, c), Fourth(c)) == c
  {
    Div16(a % 4, b / 16);
    Div4(b % 16, c / 64);
  }

  lemma SextetsOfBytes(p: Sextet, q: Sextet, r: Sextet, s: Sextet)
    ensures First(Byte0(p, q)) == p
    ensures Second(Byte0(p, q), Byte1(q, r)) == q
    ensures Third(Byte1(q, r), Byte2(r, s)) == r
    ensures Fourth(Byte2(r, s)) == s
  {
    Div4(p, q / 16);
    Div16(q % 16, r / 4);
    Div64(r % 4, s);
  }

  lemma BytesOfTwo(p: Sextet, q: Sextet)
    ensures Bytes([p, q]) == Some([Byte0(p, q)])
  {
  }

  lemma BytesOfThree(p: Sextet, q: Sextet, r: Sextet)
    ensures Bytes([p, q, r]) == Some([Byte0(p, q), Byte1(q, r)])
  {
  }

  lemma BytesOfFour(p: Sextet, q: Sextet, r: Sextet, s: Sextet, rest: seq<Sextet>)
    requires Bytes(rest).Some?
    ensures Bytes([p, q, r, s] + rest) == Some([Byte0(p, q), Byte1(q, r), Byte2(r, s)] + Bytes(rest).value)
  {
    assert ([p, q, r, s] + rest)[4..] == rest;
  }

  lemma OneByte(a: Byte, b: Byte)
    ensures Bytes([First(a), Second(a, b)]) == Some([a])
  {
    BytesOfTwo(First(a), Second(a, b));
    FirstByte(a, b);
  }

  lemma TwoBytes(a: Byte, b: Byte, c: Byte)
    ensures Bytes([First(a), Second(a, b), Third(b, c)]) == Some([a, b])
  {
    BytesOfThree(First(a), Second(a, b), Third(b, c));
    BytesOfSextets(a, b, c);
  }

  lemma {:induction false} BytesInvertsSextets(bytes: seq<Byte>)
    ensures Bytes(Sextets(bytes)) == Some(bytes)
  {
    if |bytes| == 1 {
      OneByte(bytes[0], 0);
      assert bytes == [bytes[0]];
    } else if |bytes| == 2 {
      TwoBytes(bytes[0], bytes[1], 0);
      assert Sextets(bytes) == [First(bytes[0]), Second(bytes[0], bytes[1]), Third(bytes[1], 0)];
      assert bytes == [bytes[0], bytes[1]];
    } else if |bytes| >= 3 {
      var a, b, c, rest := bytes[0], bytes[1], bytes[2], bytes[3..];
      BytesInvertsSextets(rest);
      BytesOfSextets(a, b, c);
      BytesOfFour(First(a), Second(a, b), Third(b, c), Fourth(c), Sextets(rest));
      assert bytes == [a, b, c] + rest;
    }
  }

  /** The trailing bits that decoding drops are zero. */
  predicate TrailingBitsZero(sextets: seq<Sextet>) {
    && (|sextets| % 4 == 2 ==> sextets[|sextets| - 1] % 16 == 0)
    && (|sextets| % 4 == 3 ==> sextets[|sextets| - 1] % 4 == 0)
  }

  lemma TwoSextets(p: Sextet, q: Sextet)
    ensures First(Byte0(p, q)) == p
    ensures Second(Byte0(p, q), 0) == q <==> q % 16 == 0
  {
    Div4(p, q / 16);
  }

  lemma ThreeSextets(p: Sextet, q: Sextet, r: Sextet)
    ensures Third(Byte1(q, r), 0) == r <==> r % 4 == 0
  {
    Div16(q % 16, r / 4);
  }

  lemma SameTail<T>(head: seq<T>, a: seq<T>, b: seq<T>)
    ensures head + a == head + b <==> a == b
  {
    assert (head + a)[|head|..] == a && (head + b)[|head|..] == b;
  }

  lemma SextetsOfThree(a: Byte, b: Byte, c: Byte, rest: seq<Byte>)
    ensures Sextets([a, b, c] + rest) == [First(a), Second(a, b), Third(b, c), Fourth(c)] + Sextets(rest)
  {
    assert ([a, b, c] + rest)[3..] == rest;
  }

  lemma {:induction false} SextetsInvertBytes(sextets: seq<Sextet>)
    requires Bytes(sextets).Some?
    ensures Sextets(Bytes(sextets).value) == sextets <==> TrailingBitsZero(sextets)
  {
    if |sextets| == 2 {
      TwoSextets(sextets[0], sextets[1]);
    } else if |sextets| == 3 {
      SextetsOfBytes(sextets[0], sextets[1], sextets[2], 0);
      ThreeSextets(sextets[0], sextets[1], sextets[2]);
    } else if |sextets| >= 4 {
      var p, q, r, s, tail := sextets[0], sextets[1], sextets[2], sextets[3], sextets[4..];
      assert sextets == [p, q, r, s] + tail;
      SextetsOfBytes(p, q, r, s);
      SextetsOfThree(Byte0(p, q), Byte1(q, r), Byte2(r, s), Bytes(tail).value);
      SameTail([p, q, r, s], Sextets(Bytes(tail).value), tail);
      SextetsInvertBytes(tail);
      TrailingBitsOfTail(sextets);
    }
  }

  lemma TrailingBitsOfTail(sextets: seq<Sextet>)
    requires |sextets| >= 4
    ensures TrailingBitsZero(sextets) <==> TrailingBitsZero(sextets[4..])
  {
    assert |sextets| > 4 ==> sextets[4..][|sextets| - 5] == sextets[|sextets| - 1];
  }

  lemma ValuesOfText(sextets: seq<Sextet>)
    ensures InAlphabet(Text(sextets)) && Values(Text(sextets)) == sextets
    ensures '\r' !in Text(sextets) && '\n' !in Text(sextets)
  {
  }

  lemma TextOfValues(s: string)
    requires InAlphabet(s)
    ensures Text(Values(s)) == s
  {
    forall i | 0 <= i < |s|
      ensures Text(Values(s))[i] == s[i]
    {
      CharOfValue(s[i]);
    }
  }

  lemma {:induction false} StripNothing(s: string)
    requires '\r' !in s && '\n' !in s
    ensures StripLines(s) == s
  {
    if s != "" {
      StripNothing(s[1..]);
    }
  }

  lemma {:induction false} StripAppend(s: string, u: string)
    ensures StripLines(s + u) == StripLines(s) + StripLines(u)
  {
    if s == "" {
      assert s + u == u;
    } else {
      assert (s + u)[1..] == s[1..] + u;
      StripAppend(s[1..], u);
    }
  }

  /** Every byte string comes back from its text, so no two share a text. */
  lemma RoundTrip(bytes: seq<Byte>)
    ensures DecodeText(Encode(bytes)) == Some(bytes)
  {
    ValuesOfText(Sextets(bytes));
    StripNothing(Encode(bytes));
    BytesInvertsSextets(bytes);
  }

  /** A text that decodes is the text of what it decodes to exactly when it is canonical. */
  lemma TextRoundTrip(s: string)
    requires DecodeText(s).Some?
    ensures Encode(DecodeText(s).value) == s <==>
              '\r' !in s && '\n' !in s && InAlphabet(s) && TrailingBitsZero(Values(s))
  {
    var bytes := DecodeText(s).value;
    ValuesOfText(Sextets(bytes));
    if '\r' !in s && '\n' !in s {
      StripNothing(s);
      SextetsInvertBytes(Values(s));
      TextOfValues(s);
    }
  }

  /** The number that digits in some base denote, the most significant first. */
  function Number(digits: seq<nat>, base: nat): nat {
    if digits == [] then 0 else Number(digits[..|digits| - 1], base) * base + digits[|digits| - 1]
  }

  function Power(base: nat, n: nat): nat {
    if n == 0 then 1 else Power(base, n - 1) * base
  }

  lemma {:induction false} NumberAppend(a: seq<nat>, b: seq<nat>, base: nat)
    ensures Number(a + b, base) == Number(a, base) * Power(base, |b|) + Number(b, base)
  {
    if b == [] {
      assert a + b == a;
    } else {
      var front, last := b[..|b| - 1], b[|b| - 1];
      assert (a + b)[..|a + b| - 1] == a + front;
      NumberAppend(a, front, base);
      Distribute(Number(a, base), Power(base, |front|), Number(front, base), base);
    }
  }

  lemma Distribute(a: nat, p: nat, b: nat, base: nat)
    ensures (a * p + b) * base == a * (p * base) + b * base
  {
  }

  lemma NumberLast(digits: seq<nat>, d: nat, base: nat)
    ensures Number(digits + [d], base) == Number(digits, base) * base + d
  {
    assert (digits + [d])[..|digits|] == digits;
  }

  lemma NumberOfTwo(p: nat, q: nat, base: nat)
    ensures Number([p], base) == p && Number([p, q], base) == p * base + q
  {
    NumberLast([], p, base);
    assert [] + [p] == [p];
    NumberLast([p], q, base);
    assert [p] + [q] == [p, q];
  }

  lemma NumberOfFour(p: nat, q: nat, r: nat, s: nat, base: nat)
    ensures Number([p, q, r], base) == (p * base + q) * base + r
    ensures Number([p, q, r, s], base) == ((p * base + q) * base + r) * base + s
  {
    hide Number;
    NumberOfTwo(p, q, base);
    NumberLast([p, q], r, base);
    assert [p, q] + [r] == [p, q, r];
    NumberLast([p, q, r], s, base);
    assert [p, q, r] + [s] == [p, q, r, s];
  }

  /** How the last group is filled up with zero bits. */
  function Padding(n: nat): nat {
    if n % 3 == 0 then 1 else if n % 3 == 1 then 16 else 4
  }

  lemma {:induction false} PowersAgree(bytes: seq<Byte>)
    ensures Power(64, |Sextets(bytes)|) == Power(256, |bytes|) * Padding(|bytes|)
  {
    if |bytes| >= 3 {
      PowersAgree(bytes[3..]);
      var n, k := |bytes|, |Sextets(bytes)|;
      PowerOfThree(n);
      PowerOfFour(k);
      assert |Sextets(bytes[3..])| == k - 4;
      assert Padding(n) == Padding(n - 3);
      Regroup(Power(256, n - 3), Padding(n));
    } else {
      SmallPowers();
    }
  }

  lemma SmallPowers()
    ensures Power(64, 0) == 1 && Power(64, 2) == 4096 && Power(64, 3) == 262144
    ensures Power(256, 0) == 1 && Power(256, 1) == 256 && Power(256, 2) == 65536
  {
    assert Power(64, 1) == 64;
  }

  lemma PowerOfThree(n: nat)
    requires n >= 3
    ensures Power(256, n) == Power(256, n - 3) * 16777216
  {
    assert Power(256, n - 1) == Power(256, n - 2) * 256 && Power(256, n - 2) == Power(256, n - 3) * 256;
  }

  lemma PowerOfFour(n: nat)
    requires n >= 4
    ensures Power(64, n) == Power(64, n - 4) * 16777216
  {
    assert Power(64, n - 1) == Power(64, n - 2) * 64 && Power(64, n - 2) == Power(64, n - 3) * 64;
    assert Power(64, n - 3) == Power(64, n - 4) * 64;
  }

  lemma Regroup(a: nat, b: nat)
    ensures a * b * 16777216 == a * 16777216 * b
  {
  }

  /** The sextets say the number that the bytes say, moved up by the zero bits of the padding. */
  lemma {:induction false} SameNumber(bytes: seq<Byte>)
    ensures Number(Sextets(bytes), 64) == Number(bytes, 256) * Padding(|bytes|)
  {
    hide Number, Power, First, Second, Third, Fourth;
    if bytes == [] {
      EmptyNumber(64);
      EmptyNumber(256);
    } else if |bytes| == 1 {
      OneByteNumber(bytes[0], 0);
      assert bytes == [bytes[0]];
    } else if |bytes| == 2 {
      TwoByteNumber(bytes[0], bytes[1], 0);
      assert bytes == [bytes[0], bytes[1]];
    } else {
      var a, b, c, rest := bytes[0], bytes[1], bytes[2], bytes[3..];
      SameNumber(rest);
      GroupNumber(a, b, c);
      PowersAgree(rest);
      NumberAppend([First(a), Second(a, b), Third(b, c), Fourth(c)], Sextets(rest), 64);
      NumberAppend([a, b, c], rest, 256);
      assert bytes == [a, b, c] + rest;
      assert Padding(|bytes|) == Padding(|rest|);
      Regroup3(Number([a, b, c], 256), Power(256, |rest|), Number(rest, 256), Padding(|rest|));
    }
  }

  lemma EmptyNumber(base: nat)
    ensures Number([], base) == 0
  {
  }

  lemma OneByteNumber(a: Byte, b: Byte)
    ensures Number([First(a), Second(a, b)], 64) == Number([a], 256) * 16 + b / 16
  {
    hide Number;
    NumberOfTwo(First(a), Second(a, b), 64);
    NumberOfTwo(a, 0, 256);
  }

  lemma TwoByteNumber(a: Byte, b: Byte, c: Byte)
    ensures Number([First(a), Second(a, b), Third(b, c)], 64) == Number([a, b], 256) * 4 + c / 64
  {
    hide Number;
    NumberOfFour(First(a), Second(a, b), Third(b, c), 0, 64);
    NumberOfTwo(a, b, 256);
  }

  lemma Regroup3(x: nat, p: nat, y: nat, k: nat)
    ensures x * (p * k) + y * k == (x * p + y) * k
  {
  }

  lemma GroupNumber(a: Byte, b: Byte, c: Byte)
    ensures Number([First(a), Second(a, b), Third(b, c), Fourth(c)], 64) == Number([a, b, c], 256)
  {
    hide Number;
    NumberOfFour(First(a), Second(a, b), Third(b, c), Fourth(c), 64);
    NumberOfFour(a, b, c, 0, 256);
  }

  /** Line breaks in a text do not matter, wherever they are. */
  lemma LineBreaksAreSkipped(s: string, t: string)
    ensures DecodeText(s + "\n" + t) == DecodeText(s + "\r" + t) == DecodeText(s + t)
  {
    StripAppend(s, t);
    StripAppend(s + "\n", t);
    StripAppend(s, "\n");
    StripAppend(s + "\r", t);
    StripAppend(s, "\r");
    assert StripLines(s) + "" == StripLines(s);
  }

  /** How many bytes a text has room for. */
  lemma {:induction false} DecodedLength(sextets: seq<Sextet>)
    ensures Bytes(sextets).Some? <==> |sextets| % 4 != 1
    ensures Bytes(sextets).Some? ==> |Bytes(sextets).value| == |sextets| * 3 / 4
  {
    if |sextets| >= 4 {
      DecodedLength(sextets[4..]);
    }
  }

  /** Decoding into a slice of fixed length. */
  datatype Decoded = Done(bytes: seq<Byte>) | Corrupt | Overrun

  /** Up to four characters at a time are checked, and then written without a check for room. Line
      breaks are skipped before. */
  function DecodeInto(s: string, room: nat): Decoded {
    if s == "" then Done([])
    else if !InAlphabet(Quantum(s)) || |s| == 1 then Corrupt
    else if room < |Quantum(s)| - 1 then Overrun
    else if |s| < 4 then Done(Bytes(Values(s)).value)
    else
      match DecodeInto(s[4..], room - 3)
      case Done(rest) => Done(QuantumBytes(Values(s[..4])) + rest)
      case Corrupt => Corrupt
      case Overrun => Overrun
  }

  function QuantumBytes(v: seq<Sextet>): seq<Byte>
    requires |v| == 4
  {
    [Byte0(v[0], v[1]), Byte1(v[1], v[2]), Byte2(v[2], v[3])]
  }

  function Quantum(s: string): string {
    if |s| < 4 then s else s[..4]
  }

  lemma ValuesSplit(s: string)
    requires |s| >= 4
    ensures InAlphabet(s) <==> InAlphabet(s[..4]) && InAlphabet(s[4..])
    ensures InAlphabet(s) ==> Values(s)[4..] == Values(s[4..]) && Values(s)[..4] == Values(s[..4])
  {
    assert s == s[..4] + s[4..];
  }

  /** With enough room it is Decode. */
  lemma {:induction false} DecodeIntoDone(s: string, room: nat, bytes: seq<Byte>)
    ensures DecodeInto(s, room) == Done(bytes) <==> Decode(s) == Some(bytes) && |bytes| <= room
  {
    if |s| >= 4 && InAlphabet(s[..4]) {
      ValuesSplit(s);
      var head := QuantumBytes(Values(s[..4]));
      if InAlphabet(s) && Bytes(Values(s)).Some? {
        assert Bytes(Values(s)).value == head + Bytes(Values(s[4..])).value;
      }
      if room >= 3 {
        DecodeIntoDone(s[4..], room - 3, if Decode(s[4..]).Some? then Decode(s[4..]).value else []);
        match DecodeInto(s[4..], room - 3) {
          case Done(rest) => DecodeIntoDone(s[4..], room - 3, rest);
          case Corrupt =>
          case Overrun =>
        }
      }
    } else if |s| >= 4 {
      ValuesSplit(s);
    }
  }

  /** The text has more valid characters than fit, up to the end of the first quantum that does not
      fit. */
  predicate Overruns(s: string, room: nat) {
    var whole := 4 * (room / 3);
    && |s| >= whole + room % 3 + 2
    && InAlphabet(s[..if |s| < whole + 4 then |s| else whole + 4])
  }

  lemma {:induction false} OverrunsExactly(s: string, room: nat)
    ensures DecodeInto(s, room).Overrun? <==> Overruns(s, room)
  {
    if room >= 3 && |s| >= 4 {
      OverrunsExactly(s[4..], room - 3);
      assert (room - 3) / 3 == room / 3 - 1;
      var n := if |s| < 4 * (room / 3) + 4 then |s| else 4 * (room / 3) + 4;
      ValuesSplit(s[..n]);
      assert s[..n][..4] == s[..4] && s[..n][4..] == s[4..][..n - 4];
    }
  }

  lemma {:induction false} SextetsPrefix(bytes: seq<Byte>, k: nat)
    requires 3 * k <= |bytes|
    ensures 4 * k <= |Sextets(bytes)|
    ensures Sextets(bytes)[..4 * k] == Sextets(bytes[..3 * k])
  {
    if k > 0 {
      SextetsPrefix(bytes[3..], k - 1);
      assert bytes[3..][..3 * (k - 1)] == bytes[..3 * k][3..];
      var head := [First(bytes[0]), Second(bytes[0], bytes[1]), Third(bytes[1], bytes[2]), Fourth(bytes[2])];
      assert Sextets(bytes) == head + Sextets(bytes[3..]);
      assert Sextets(bytes[..3 * k]) == head + Sextets(bytes[..3 * k][3..]);
    }
  }

  /** The key of generateSecureRandomString: a prefix of the text of that many random bytes. */
  function SessionKey(random: seq<Byte>): string {
    var text := Encode(random);
    if |random| <= |text| then text[..|random|] else text
  }

  /** A key of length 4k shows exactly the first 3k of its 4k random bytes: 24 of 32. */
  lemma SessionKeyShowsThreeQuarters(a: seq<Byte>, b: seq<Byte>, k: nat)
    requires |a| == |b| == 4 * k
    ensures |SessionKey(a)| == 4 * k
    ensures SessionKey(a) == SessionKey(b) <==> a[..3 * k] == b[..3 * k]
  {
    SextetsPrefix(a, k);
    SextetsPrefix(b, k);
    TextPrefix(Sextets(a), 4 * k);
    TextPrefix(Sextets(b), 4 * k);
    RoundTrip(a[..3 * k]);
    RoundTrip(b[..3 * k]);
  }

  lemma TextPrefix(sextets: seq<Sextet>, n: nat)
    requires n <= |sextets|
    ensures Text(sextets)[..n] == Text(sextets[..n])
  {
  }
}
