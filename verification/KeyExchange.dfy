/**
 Diffie-Hellman key agreement (dh/dh.go) with the prime of section 6.1 of RFC 2409 and
 generator 2; the agreement is that of section 2.1.1 of RFC 2631.
 */
module KeyExchange {
  import opened Positional

  const GENERATOR: nat := 2
  const PRIVATE_KEY_SIZE := 95

  const PRIME_BYTES: seq<byte> := [
    0xff, 0xff, 0xff, 0xff, 0xff, 0xff, 0xff, 0xff, 0xc9, 0x0f, 0xda, 0xa2, 0x21, 0x68, 0xc2, 0x34,
    0xc4, 0xc6, 0x62, 0x8b, 0x80, 0xdc, 0x1c, 0xd1, 0x29, 0x02, 0x4e, 0x08, 0x8a, 0x67, 0xcc, 0x74,
    0x02, 0x0b, 0xbe, 0xa6, 0x3b, 0x13, 0x9b, 0x22, 0x51, 0x4a, 0x08, 0x79, 0x8e, 0x34, 0x04, 0xdd,
    0xef, 0x95, 0x19, 0xb3, 0xcd, 0x3a, 0x43, 0x1b, 0x30, 0x2b, 0x0a, 0x6d, 0xf2, 0x5f, 0x14, 0x37,
    0x4f, 0xe1, 0x35, 0x6d, 0x6d, 0x51, 0xc2, 0x45, 0xe4, 0x85, 0xb5, 0x76, 0x62, 0x5e, 0x7e, 0xc6,
    0xf4, 0x4c, 0x42, 0xe9, 0xa6, 0x3a, 0x36, 0x20, 0xff, 0xff, 0xff, 0xff, 0xff, 0xff, 0xff, 0xff]

  function Prime(): (p: nat)
    ensures p > 1
  {
    var k := |PRIME_BYTES| - 1;
    ValueSnoc(256, PRIME_BYTES[..k], PRIME_BYTES[k]);
    assert PRIME_BYTES == PRIME_BYTES[..k] + [PRIME_BYTES[k]];
    Value(256, PRIME_BYTES)
  }

  /** big.Int.Exp with a modulus */
  function ModExp(x: nat, e: nat, m: nat): (r: nat)
    requires m > 0
    ensures r < m
  {
    Pow(x, e) % m
  }

  // ----- powers modulo m

  lemma ModOfMultiple(k: nat, r: nat, m: nat)
    requires m > 0
    ensures (k * m + r) % m == r % m
  {
    var q := r / m;
    DivModSplit(r, m);
    assert k * m + r == (k + q) * m + r % m;
    DivModUnique(k + q, r % m, m);
  }

  lemma MulMod(x: nat, y: nat, m: nat)
    requires m > 0
    ensures ((x % m) * y) % m == (x * y) % m
  {
    var q, r := x / m, x % m;
    DivModSplit(x, m);
    assert x * y == (q * y) * m + r * y;
    ModOfMultiple(q * y, r * y, m);
  }

  /** Reducing the base does not change a power's residue. */
  lemma {:induction false} PowModBase(x: nat, e: nat, m: nat)
    requires m > 0
    ensures Pow(x % m, e) % m == Pow(x, e) % m
  {
    if e > 0 {
      var r, p := x % m, Pow(x, e - 1);
      PowModBase(x, e - 1, m);
      MulMod(Pow(r, e - 1), r, m);
      MulMod(p, r, m);
      MulMod(x, p, m);
      assert Pow(r, e - 1) * r == r * Pow(r, e - 1) && p * r == r * p;
    }
  }

  lemma {:induction false} PowMul(x: nat, a: nat, b: nat)
    ensures Pow(Pow(x, a), b) == Pow(x, a * b)
  {
    if b > 0 {
      PowMul(x, a, b - 1);
      PowAdd(x, a, a * (b - 1));
      assert a + a * (b - 1) == a * b;
    } else {
      assert a * b == 0;
    }
  }

  /** (x^a mod m)^b mod m is x^(a b) mod m. */
  lemma ExpTwice(x: nat, a: nat, b: nat, m: nat)
    requires m > 0
    ensures ModExp(ModExp(x, a, m), b, m) == ModExp(x, a * b, m)
  {
    PowModBase(Pow(x, a), b, m);
    PowMul(x, a, b);
  }

  /** Raising is multiplying so many times, reduced at each step. */
  lemma ExpSteps(x: nat, e: nat, m: nat)
    requires m > 0
    ensures ModExp(x, 0, m) == 1 % m
    ensures ModExp(x, e + 1, m) == (x * ModExp(x, e, m)) % m
  {
    MulMod(Pow(x, e), x, m);
    assert Pow(x, e) * x == x * Pow(x, e);
    assert (Pow(x, e) % m) * x == x * (Pow(x, e) % m);
  }

  // ----- the agreement

  function PublicKey(m: nat, private: nat): nat
    requires m > 1
  {
    ModExp(GENERATOR, private, m)
  }

  /** What goes over the wire: big-endian, without leading zeros. */
  function PublicKeyBytes(m: nat, private: nat): seq<byte>
    requires m > 1
  {
    Minimal(256, PublicKey(m, private))
  }

  function SharedSecret(m: nat, private: nat, remoteKeyBytes: seq<byte>): seq<byte>
    requires m > 1
  {
    Minimal(256, ModExp(Value(256, remoteKeyBytes), private, m))
  }

  /**
   Both sides compute the same secret, byte for byte, for all private keys and whatever
   the modulus, and it is the one of the common exponent.
   */
  lemma Agreement(m: nat, a: nat, b: nat)
    requires m > 1
    ensures SharedSecret(m, a, PublicKeyBytes(m, b)) == SharedSecret(m, b, PublicKeyBytes(m, a))
    ensures SharedSecret(m, a, PublicKeyBytes(m, b)) == Minimal(256, ModExp(GENERATOR, a * b, m))
  {
    ValueMinimal(256, PublicKey(m, a));
    ValueMinimal(256, PublicKey(m, b));
    ExpTwice(GENERATOR, a, b, m);
    ExpTwice(GENERATOR, b, a, m);
    assert a * b == b * a;
  }

  /** Zeros in front of a received key, as a fixed-width peer would send, do not change the secret. */
  lemma PaddingIgnored(m: nat, private: nat, k: nat, remoteKeyBytes: seq<byte>)
    requires m > 1
    ensures SharedSecret(m, private, seq(k, _ => 0) + remoteKeyBytes) == SharedSecret(m, private, remoteKeyBytes)
  {
    ValueLeadingZeros(256, k, remoteKeyBytes);
  }

  class DiffieHellman {
    const prime: nat
    const privateKey: nat
    const publicKey: nat
    var sharedSecret: seq<byte>

    ghost predicate Valid() {
      prime > 1 && publicKey == PublicKey(prime, privateKey)
    }

    /** `privateKeyData` stands for 95 bytes of randomness. */
    constructor (privateKeyData: seq<byte>)
      requires |privateKeyData| == PRIVATE_KEY_SIZE
      ensures Valid() && prime == Prime()
      ensures privateKey == Value(256, privateKeyData) && sharedSecret == []
    {
      var p := Prime();
      prime := p;
      privateKey := Value(256, privateKeyData);
      publicKey := ModExp(GENERATOR, Value(256, privateKeyData), p);
      sharedSecret := [];
    }

    method PublicBytes() returns (r: seq<byte>)
      requires Valid()
      ensures r == PublicKeyBytes(prime, privateKey)
    {
      r := Minimal(256, publicKey);
    }

    method Exchange(remoteKeyBytes: seq<byte>) returns (r: seq<byte>)
      requires Valid()
      modifies this
      ensures r == sharedSecret == SharedSecret(prime, privateKey, remoteKeyBytes)
    {
      var remoteKey := Value(256, remoteKeyBytes);
      sharedSecret := Minimal(256, ModExp(remoteKey, privateKey, prime));
      r := sharedSecret;
    }
  }

  /** Two objects that exchange their public bytes end with one secret. */
  method Handshake(x: DiffieHellman, y: DiffieHellman)
    requires x != y && x.Valid() && y.Valid() && x.prime == y.prime
    modifies x, y
    ensures x.sharedSecret == y.sharedSecret
    ensures x.sharedSecret == Minimal(256, ModExp(GENERATOR, x.privateKey * y.privateKey, x.prime))
  {
    Agreement(x.prime, x.privateKey, y.privateKey);
    var fromX := x.PublicBytes();
    var fromY := y.PublicBytes();
    var _ := x.Exchange(fromY);
    var _ := y.Exchange(fromX);
  }
}
