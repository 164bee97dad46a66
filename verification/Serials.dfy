/** Certificate serial numbers as text (certs.go). A serial is a big.Int pointer: None is nil. */
module Serials {
  import opened Common
  import Hex

  function Abs(n: int): nat {
    if n < 0 then -n else n
  }

  /** big.Int.Bytes: the absolute value, big-endian, without leading zero bytes. */
  function Bytes(n: nat): seq<Byte> {
    if n == 0 then [] else Bytes(n / 256) + [n % 256]
  }

  /** Base-16 digits as fmt prints them: no leading zeros, and "0" for zero. */
  function Digits(n: nat): (s: string)
    ensures |s| >= 1
  {
    if n < 16 then [Hex.Digit(n)] else Digits(n / 16) + [Hex.Digit(n % 16)]
  }

  function Zeros(k: nat): string {
    seq(k, _ => '0')
  }

  /** The verb `%0*x`: a sign, zeros up to the width, the digits. */
  function PaddedHex(width: nat, n: int): string {
    var sign := if n < 0 then "-" else "";
    var digits := Digits(Abs(n));
    var used := |sign| + |digits|;
    sign + Zeros(if used < width then width - used else 0) + digits
  }

  function SerialNumberHex(serial: Option<int>): string {
    match serial
    case None => ""
    case Some(n) => PaddedHex(2 * |Bytes(Abs(n))|, n)
  }

  function ColonPairs(hex: string): string {
    if |hex| <= 2 then hex else hex[..2] + ":" + ColonPairs(hex[2..])
  }

  /** What the printing loop below computes for a serial that is present. */
  function OpenSSLForm(n: int): string {
    ColonPairs(Hex.Encode(Bytes(Abs(n))))
  }

  method SerialNumberOpenSSL(serial: Option<int>) returns (formatted: string)
    ensures serial.None? ==> formatted == "nil"
    ensures serial.Some? ==> formatted == OpenSSLForm(serial.value)
  {
    if serial.None? {
      return "nil";
    }
    var hexStr := Hex.Encode(Bytes(Abs(serial.value)));
    formatted := "";
    var i := 0;
    while i < |hexStr|
      invariant 0 <= i <= |hexStr| && i % 2 == 0
      invariant formatted + Remaining(hexStr, i) == ColonPairs(hexStr)
    {
      RemainingStep(hexStr, i);
      if i > 0 {
        formatted := formatted + ":";
      }
      formatted := formatted + hexStr[i..i + 2];
      i := i + 2;
    }
  }

  /** What is still to be written after the first `i` digits. */
  function Remaining(hex: string, i: nat): string
    requires i <= |hex|
  {
    if i == 0 then ColonPairs(hex) else if i == |hex| then "" else ":" + ColonPairs(hex[i..])
  }

  lemma RemainingStep(hex: string, i: nat)
    requires i + 2 <= |hex|
    ensures Remaining(hex, i) == (if i > 0 then ":" else "") + hex[i..i + 2] + Remaining(hex, i + 2)
  {
    var tail := hex[i..];
    assert tail[..2] == hex[i..i + 2] && tail[2..] == hex[i + 2..];
    assert i == 0 ==> tail == hex;
    ColonPairsStep(tail);
  }

  lemma ColonPairsStep(hex: string)
    requires |hex| >= 2
    ensures ColonPairs(hex) == hex[..2] + if |hex| == 2 then "" else ":" + ColonPairs(hex[2..])
  {
  }

  function StripColons(s: string): string {
    if s == "" then "" else (if s[0] == ':' then "" else [s[0]]) + StripColons(s[1..])
  }

  /** The number a string of hexadecimal digits denotes. */
  function Parse(s: string): Option<nat> {
    if s == "" then Some(0)
    else
      match (Parse(s[..|s| - 1]), Hex.Value(s[|s| - 1]))
      case (Some(front), Some(last)) => Some(16 * front + last)
      case _ => None
  }

  lemma {:induction false} ParseDigits(k: nat, n: nat)
    ensures Parse(Zeros(k) + Digits(n)) == Some(n)
    decreases n
  {
    var s := Zeros(k) + Digits(n);
    if n < 16 {
      assert s[..|s| - 1] == Zeros(k);
      ParseZeros(k);
    } else {
      assert s[..|s| - 1] == Zeros(k) + Digits(n / 16);
      ParseDigits(k, n / 16);
    }
  }

  lemma {:induction false} ParseZeros(k: nat)
    ensures Parse(Zeros(k)) == Some(0)
  {
    if k > 0 {
      assert Zeros(k)[..k - 1] == Zeros(k - 1);
      ParseZeros(k - 1);
    }
  }

  lemma PaddedNatural(width: nat, n: nat)
    requires |Digits(n)| <= width
    ensures PaddedHex(width, n) == Zeros(width - |Digits(n)|) + Digits(n)
  {
  }

  lemma DigitsOfByte(n: nat)
    requires 256 <= n
    ensures Digits(n) == Digits(n / 256) + Hex.Pair(n % 256)
  {
    assert n / 16 / 16 == n / 256 && n / 16 % 16 == n % 256 / 16 && n % 16 == n % 256 % 16;
    assert Digits(n / 16) == Digits(n / 256) + [Hex.Digit(n % 256 / 16)];
  }

  lemma EncodeByte(b: Byte)
    ensures Hex.Encode([b]) == Hex.Pair(b)
  {
    assert Hex.Encode([b][1..]) == "";
  }

  lemma EncodeSmall(n: nat)
    requires 0 < n < 256
    ensures Bytes(n) == [n] && |Digits(n)| <= 2
    ensures Zeros(2 - |Digits(n)|) + Digits(n) == Hex.Pair(n)
  {
    assert Bytes(n / 256) == [];
    if n < 16 {
      assert Digits(n) == [Hex.Digit(n)];
      assert Zeros(1) + [Hex.Digit(n)] == [Hex.Digit(0), Hex.Digit(n)];
    } else {
      assert Digits(n) == [Hex.Digit(n / 16)] + [Hex.Digit(n % 16)];
      assert Zeros(0) + Digits(n) == Digits(n);
    }
  }

  /** The zero-padded digits of a positive serial are the hex text of its bytes. */
  lemma {:induction false} PaddedIsEncoded(n: nat)
    requires n > 0
    ensures |Digits(n)| <= 2 * |Bytes(n)|
    ensures Zeros(2 * |Bytes(n)| - |Digits(n)|) + Digits(n) == Hex.Encode(Bytes(n))
  {
    if n < 256 {
      EncodeSmall(n);
      EncodeByte(n);
    } else {
      var q, r := n / 256, n % 256;
      PaddedIsEncoded(q);
      DigitsOfByte(n);
      Hex.EncodeAppend(Bytes(q), [r]);
      EncodeByte(r);
      AppendAssociative(Zeros(2 * |Bytes(q)| - |Digits(q)|), Digits(q), Hex.Pair(r));
    }
  }

  lemma HexIsEncodedBytes(n: nat)
    requires n > 0
    ensures SerialNumberHex(Some(n)) == Hex.Encode(Bytes(n))
  {
    PaddedIsEncoded(n);
    PaddedNatural(2 * |Bytes(n)|, n);
  }

  lemma {:induction false} StripColonPairs(hex: string)
    requires ':' !in hex
    ensures StripColons(ColonPairs(hex)) == hex
  {
    if |hex| <= 2 {
      StripNothing(hex);
    } else {
      StripAppend(hex[..2] + ":", ColonPairs(hex[2..]));
      StripAppend(hex[..2], ":");
      StripNothing(hex[..2]);
      StripColonPairs(hex[2..]);
    }
  }

  lemma {:induction false} StripAppend(s: string, t: string)
    ensures StripColons(s + t) == StripColons(s) + StripColons(t)
  {
    if s == "" {
      assert s + t == t;
    } else {
      assert (s + t)[1..] == s[1..] + t;
      StripAppend(s[1..], t);
    }
  }

  lemma {:induction false} StripNothing(s: string)
    requires ':' !in s
    ensures StripColons(s) == s
  {
    if s != "" {
      StripNothing(s[1..]);
    }
  }

  lemma {:induction false} EncodeIsDigits(bytes: seq<Byte>)
    ensures ':' !in Hex.Encode(bytes) && '-' !in Hex.Encode(bytes)
  {
    if bytes != [] {
      EncodeIsDigits(bytes[1..]);
    }
  }

  /** The two printers agree up to colons on positive serials and on no others. */
  lemma PrintersAgreeExactly(n: int)
    ensures StripColons(OpenSSLForm(n)) == SerialNumberHex(Some(n)) <==> n > 0
  {
    var encoded := Hex.Encode(Bytes(Abs(n)));
    EncodeIsDigits(Bytes(Abs(n)));
    StripColonPairs(encoded);
    if n > 0 {
      HexIsEncodedBytes(n);
    } else if n < 0 {
      assert SerialNumberHex(Some(n))[0] == '-';
    }
  }

  /** A positive serial prints with even length and parses back, with and without colons. */
  lemma PositiveSerialRoundTrip(n: int)
    requires n > 0
    ensures |SerialNumberHex(Some(n))| % 2 == 0
    ensures Parse(SerialNumberHex(Some(n))) == Some(n)
    ensures Parse(StripColons(OpenSSLForm(n))) == Some(n)
  {
    hide SerialNumberHex, OpenSSLForm, StripColons, Parse, Bytes, Digits;
    var magnitude := HexShape(n);
    HexIsEncodedBytes(n);
    PrintersAgreeExactly(n);
  }

  /** The hex form tells all integers apart, signs included. */
  lemma HexInjective(m: int, n: int)
    ensures SerialNumberHex(Some(m)) == SerialNumberHex(Some(n)) <==> m == n
  {
    var s := HexShape(m);
    var t := HexShape(n);
    if SerialNumberHex(Some(m)) == SerialNumberHex(Some(n)) {
      assert m < 0 <==> n < 0;
      assert (['-'] + s)[1..] == s && (['-'] + t)[1..] == t;
      assert s == t;
    }
  }

  /** The hex form is empty exactly for a missing serial, and says "-" exactly for a negative one. */
  lemma HexOfNil(serial: Option<int>)
    ensures SerialNumberHex(serial) == "" <==> serial.None?
    ensures serial.Some? ==> (SerialNumberHex(serial)[0] == '-' <==> serial.value < 0)
  {
    if serial.Some? {
      var magnitude := HexShape(serial.value);
    }
  }

  lemma HexShape(n: int) returns (magnitude: string)
    ensures Parse(magnitude) == Some(Abs(n))
    ensures magnitude != "" && magnitude[0] != '-'
    ensures SerialNumberHex(Some(n)) == if n < 0 then ['-'] + magnitude else magnitude
  {
    hide Bytes, Digits, Parse;
    var width, used := 2 * |Bytes(Abs(n))|, (if n < 0 then 1 else 0) + |Digits(Abs(n))|;
    var k := if used < width then width - used else 0;
    magnitude := Zeros(k) + Digits(Abs(n));
    ParseDigits(k, Abs(n));
    DigitsHaveNoSign(Abs(n));
  }

  lemma {:induction false} DigitsHaveNoSign(n: nat)
    ensures '-' !in Digits(n)
  {
    if n >= 16 {
      DigitsHaveNoSign(n / 16);
    }
  }

  /** The OpenSSL form loses exactly the sign. */
  lemma OpenSSLInjectiveUpToSign(m: int, n: int)
    ensures OpenSSLForm(m) == OpenSSLForm(n) <==> Abs(m) == Abs(n)
  {
    EncodeIsDigits(Bytes(Abs(m)));
    EncodeIsDigits(Bytes(Abs(n)));
    StripColonPairs(Hex.Encode(Bytes(Abs(m))));
    StripColonPairs(Hex.Encode(Bytes(Abs(n))));
    if OpenSSLForm(m) == OpenSSLForm(n) {
      assert |Bytes(Abs(m))| == |Bytes(Abs(n))|;
      if Abs(m) != 0 && Abs(n) != 0 {
        PositiveSerialRoundTrip(Abs(m));
        PositiveSerialRoundTrip(Abs(n));
      }
    }
  }
}
