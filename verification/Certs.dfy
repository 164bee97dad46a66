/**
 PEM files and certificate chains (certs.go, and the loading half of servingcache.go).

 A PEM file is the list of blocks that pem.Decode finds in it. The x509 and tls library calls
 are function-valued fields, so every statement holds for all of their behaviours.
 */
module Certs {
  import opened Common

  datatype Block = Block(kind: string, bytes: seq<Byte>)

  datatype Certificate = Certificate(raw: seq<Byte>, isCA: bool)

  /** A tls.Certificate: the DER bytes to present, leaf first, and the private key. */
  datatype KeyPair = KeyPair(chain: seq<seq<Byte>>, key: seq<Byte>)

  datatype X509 = X509(
    parse: seq<Byte> -> Option<Certificate>,
    verify: (Certificate, seq<Certificate>, string, int) -> bool,
    keyMatches: (seq<Block>, Block) -> bool)

  predicate IsCertificate(b: Block) { b.kind == "CERTIFICATE" }

  predicate IsPrivateKey(b: Block) { HasSuffix(b.kind, "PRIVATE KEY") }

  predicate IsPublicKey(b: Block) { HasSuffix(b.kind, "PUBLIC KEY") }

  predicate IsAuthority(c: Certificate) { c.isCA }

  predicate IsLeaf(c: Certificate) { !c.isCA }

  /** The three lists of ParsePEM are exclusive, so the order of its switch does not matter. */
  lemma KindsExclusive(b: Block)
    ensures !(IsCertificate(b) && IsPrivateKey(b))
    ensures !(IsCertificate(b) && IsPublicKey(b))
    ensures !(IsPrivateKey(b) && IsPublicKey(b))
  {
    var n := |b.kind|;
    if IsPrivateKey(b) {
      assert b.kind[n - 11..][6] == "PRIVATE KEY"[6] == 'E';
      assert b.kind[n - 5] == 'E';
    }
    if IsPublicKey(b) {
      assert b.kind[n - 10..][5] == "PUBLIC KEY"[5] == 'C';
      assert b.kind[n - 5] == 'C';
    }
    if IsCertificate(b) {
      assert b.kind[n - 5] == 'I';
    }
  }

  method ParsePEM(data: seq<Block>) returns (privateKeys: seq<Block>, publicKeys: seq<Block>, certs: seq<Block>)
    ensures certs == Filter(data, IsCertificate)
    ensures privateKeys == Filter(data, IsPrivateKey)
    ensures publicKeys == Filter(data, IsPublicKey)
  {
    privateKeys, publicKeys, certs := [], [], [];
    var n := 0;
    while n < |data|
      invariant 0 <= n <= |data|
      invariant certs == Filter(data[..n], IsCertificate)
      invariant privateKeys == Filter(data[..n], IsPrivateKey)
      invariant publicKeys == Filter(data[..n], IsPublicKey)
    {
      var block := data[n];
      assert data[..n + 1] == data[..n] + [block];
      KindsExclusive(block);
      FilterLast(data[..n], block, IsCertificate);
      FilterLast(data[..n], block, IsPrivateKey);
      FilterLast(data[..n], block, IsPublicKey);
      if block.kind == "CERTIFICATE" {
        certs := certs + [block];
      } else if HasSuffix(block.kind, "PRIVATE KEY") {
        privateKeys := privateKeys + [block];
      } else if HasSuffix(block.kind, "PUBLIC KEY") {
        publicKeys := publicKeys + [block];
      }
      n := n + 1;
    }
    assert data[..|data|] == data;
  }

  /** The lists hold exactly the blocks of these types. */
  lemma PEMTypes(data: seq<Block>, b: Block)
    ensures b in Filter(data, IsCertificate) <==> b in data && b.kind == "CERTIFICATE"
    ensures b in Filter(data, IsPrivateKey) <==> b in data && exists stem :: b.kind == stem + "PRIVATE KEY"
    ensures b in Filter(data, IsPublicKey) <==> b in data && exists stem :: b.kind == stem + "PUBLIC KEY"
  {
    FilterKeeps(data, IsCertificate);
    FilterKeeps(data, IsPrivateKey);
    FilterKeeps(data, IsPublicKey);
    SuffixExactly(b.kind, "PRIVATE KEY");
    SuffixExactly(b.kind, "PUBLIC KEY");
  }

  predicate AllParse(x: X509, blocks: seq<Block>) {
    forall i | 0 <= i < |blocks| :: x.parse(blocks[i].bytes).Some?
  }

  function CertsOf(x: X509, blocks: seq<Block>): seq<Certificate>
    requires AllParse(x, blocks)
  {
    seq(|blocks|, i requires 0 <= i < |blocks| => x.parse(blocks[i].bytes).value)
  }

  method ParseCertsPEM(x: X509, blocks: seq<Block>) returns (r: Option<seq<Certificate>>)
    ensures r.Some? <==> blocks != [] && AllParse(x, blocks)
    ensures r.Some? ==> r.value == CertsOf(x, blocks)
  {
    var certs := [];
    for i := 0 to |blocks|
      invariant AllParse(x, blocks[..i])
      invariant certs == CertsOf(x, blocks[..i])
    {
      var cert := x.parse(blocks[i].bytes);
      if cert.None? {
        return None;
      }
      certs := certs + [cert.value];
    }
    assert blocks[..|blocks|] == blocks;
    if |certs| == 0 {
      return None;
    }
    return Some(certs);
  }

  /** Exactly one leaf, and it verifies against the authorities in the list. */
  predicate ChainVerifies(x: X509, certs: seq<Certificate>, name: string, now: int) {
    var leaves := Filter(certs, IsLeaf);
    |leaves| == 1 && x.verify(leaves[0], Filter(certs, IsAuthority), name, now)
  }

  method VerifyCertChain(x: X509, certs: seq<Certificate>, name: string, now: int) returns (ok: bool)
    ensures ok <==> ChainVerifies(x, certs, name, now)
  {
    FilterEmpty(certs[..0], IsLeaf);
    FilterEmpty(certs[..0], IsAuthority);
    hide Filter;
    if |certs| == 0 {
      assert certs == certs[..0];
      return false;
    }
    var intermediates: seq<Certificate> := [];
    var leaf: Option<Certificate> := None;
    for i := 0 to |certs|
      invariant intermediates == Filter(certs[..i], IsAuthority)
      invariant Filter(certs[..i], IsLeaf) == if leaf.Some? then [leaf.value] else []
    {
      var cert := certs[i];
      assert certs[..i + 1] == certs[..i] + [cert];
      FilterLast(certs[..i], cert, IsAuthority);
      FilterLast(certs[..i], cert, IsLeaf);
      if cert.isCA {
        intermediates := intermediates + [cert];
        continue;
      }
      if leaf.Some? {
        assert certs == certs[..i + 1] + certs[i + 1..];
        FilterAppend(certs[..i + 1], certs[i + 1..], IsLeaf);
        return false;
      }
      leaf := Some(cert);
    }
    assert certs[..|certs|] == certs;
    if leaf.None? {
      return false;
    }
    return x.verify(leaf.value, intermediates, name, now);
  }

  function Payloads(blocks: seq<Block>): seq<seq<Byte>> {
    seq(|blocks|, i requires 0 <= i < |blocks| => blocks[i].bytes)
  }

  /** What GetCertificate makes of a file: the key pair to serve, or an error. */
  function LoadOf(x: X509, name: string, now: int, data: seq<Block>): Option<KeyPair> {
    var certs, keys := Filter(data, IsCertificate), Filter(data, IsPrivateKey);
    if && certs != [] && keys != [] && AllParse(x, certs)
       && ChainVerifies(x, CertsOf(x, certs), name, now)
       && !CertsOf(x, certs)[0].isCA && x.keyMatches(certs, keys[0])
    then Some(KeyPair(Payloads(certs), keys[0].bytes)) else None
  }

  method EncodeChain(certsPEM: seq<Block>) returns (chain: seq<seq<Byte>>)
    ensures chain == Payloads(certsPEM)
  {
    chain := [];
    for i := 0 to |certsPEM|
      invariant chain == Payloads(certsPEM[..i])
    {
      chain := chain + [certsPEM[i].bytes];
    }
    assert certsPEM[..|certsPEM|] == certsPEM;
  }

  method LoadCertificate(x: X509, name: string, now: int, data: seq<Block>) returns (r: Option<KeyPair>)
    ensures r == LoadOf(x, name, now, data)
  {
    var privPEM, _, certsPEM := ParsePEM(data);
    if |certsPEM| == 0 || |privPEM| == 0 {
      return None;
    }
    var certs := ParseCertsPEM(x, certsPEM);
    if certs.None? {
      return None;
    }
    var ok := VerifyCertChain(x, certs.value, name, now);
    if !ok || certs.value[0].isCA {
      return None;
    }
    var chain := EncodeChain(certsPEM);
    if !x.keyMatches(certsPEM, privPEM[0]) {
      return None;
    }
    return Some(KeyPair(chain, privPEM[0].bytes));
  }

  lemma {:induction false} FilterAll<T>(s: seq<T>, keep: T -> bool)
    requires forall x | x in s :: keep(x)
    ensures Filter(s, keep) == s
  {
    if s != [] {
      FilterAll(s[1..], keep);
    }
  }

  lemma LeafFirst(certs: seq<Certificate>)
    requires certs != [] && !certs[0].isCA && |Filter(certs, IsLeaf)| == 1
    ensures forall i | 0 < i < |certs| :: certs[i].isCA
    ensures Filter(certs, IsLeaf)[0] == certs[0] && Filter(certs, IsAuthority) == certs[1..]
  {
    var tail := certs[1..];
    assert Filter(certs, IsLeaf) == [certs[0]] + Filter(tail, IsLeaf);
    FilterKeeps(tail, IsLeaf);
    forall c | c in tail
      ensures c.isCA
    {
      assert c !in Filter(tail, IsLeaf);
    }
    FilterAll(tail, IsAuthority);
  }

  /**
   A loaded chain presents every CERTIFICATE block of the file in file order, starts with its one
   non-CA certificate, and that certificate verified for the name against the rest of the chain.
   */
  lemma LoadedChainShape(x: X509, name: string, now: int, data: seq<Block>, pair: KeyPair)
    requires LoadOf(x, name, now, data) == Some(pair)
    ensures pair.chain == Payloads(Filter(data, IsCertificate)) && pair.chain != []
    ensures forall i | 0 <= i < |pair.chain| ::
              x.parse(pair.chain[i]).Some? && (x.parse(pair.chain[i]).value.isCA <==> i > 0)
    ensures var certs := CertsOf(x, Filter(data, IsCertificate));
            x.verify(certs[0], certs[1..], name, now)
  {
    var certs := CertsOf(x, Filter(data, IsCertificate));
    LeafFirst(certs);
    forall i | 0 <= i < |pair.chain|
      ensures x.parse(pair.chain[i]).Some? && (x.parse(pair.chain[i]).value.isCA <==> i > 0)
    {
      assert x.parse(pair.chain[i]).value == certs[i];
    }
  }

  /** The key that is served is that of the first PRIVATE KEY block, and it matches the chain. */
  lemma LoadedKey(x: X509, name: string, now: int, data: seq<Block>, pair: KeyPair) returns (i: nat)
    requires LoadOf(x, name, now, data) == Some(pair)
    ensures i < |data| && HasSuffix(data[i].kind, "PRIVATE KEY") && pair.key == data[i].bytes
    ensures forall j | 0 <= j < i :: !HasSuffix(data[j].kind, "PRIVATE KEY")
    ensures x.keyMatches(Filter(data, IsCertificate), data[i])
  {
    i := FirstKept(data, IsPrivateKey);
    assert IsPrivateKey(data[i]) && forall j | 0 <= j < i :: !IsPrivateKey(data[j]);
  }

  lemma {:induction false} FirstKept<T>(s: seq<T>, keep: T -> bool) returns (i: nat)
    requires Filter(s, keep) != []
    ensures i < |s| && s[i] == Filter(s, keep)[0] && keep(s[i]) && forall j | 0 <= j < i :: !keep(s[j])
  {
    if keep(s[0]) {
      i := 0;
    } else {
      var n := FirstKept(s[1..], keep);
      i := n + 1;
      assert forall j | 1 <= j < i :: s[j] == s[1..][j - 1];
    }
  }
}
