/**
 SCRAM-SHA-256 as examples/pgwire.js speaks it, over an arbitrary hash and HMAC,
 against a server that follows RFC 5802.
 */
module Scram {
  import opened JsStrings
  import opened PgWire

  type Digest = b: Bytes | |b| == 32 witness seq(32, _ => 0)

  /** The functions of pljsFdwNet, of which nothing is assumed but the length of their results. */
  datatype Crypto = Crypto(hmac: (Bytes, Bytes) -> Digest, hash: Bytes -> Digest)

  // ----- exclusive or

  function Parity(a: nat, b: nat): nat {
    if a % 2 == b % 2 then 0 else 1
  }

  /** Exclusive or of the `n` low bits. */
  function XorBits(a: nat, b: nat, n: nat): nat {
    if n == 0 then 0 else 2 * XorBits(a / 2, b / 2, n - 1) + Parity(a, b)
  }

  function Pow2(n: nat): nat {
    if n == 0 then 1 else 2 * Pow2(n - 1)
  }

  lemma {:induction false} XorBitsBound(a: nat, b: nat, n: nat)
    ensures XorBits(a, b, n) < Pow2(n)
  {
    if n > 0 {
      XorBitsBound(a / 2, b / 2, n - 1);
    }
  }

  lemma {:induction false} XorBitsTwice(a: nat, b: nat, n: nat)
    requires a < Pow2(n)
    ensures XorBits(XorBits(a, b, n), b, n) == a
  {
    if n > 0 {
      var x := XorBits(a / 2, b / 2, n - 1);
      Halves(x, Parity(a, b));
      XorBitsTwice(a / 2, b / 2, n - 1);
      assert Parity(2 * x + Parity(a, b), b) == a % 2;
    }
  }

  lemma {:induction false} XorBitsAssociative(a: nat, b: nat, c: nat, n: nat)
    ensures XorBits(XorBits(a, b, n), c, n) == XorBits(a, XorBits(b, c, n), n)
  {
    if n > 0 {
      var x, y := XorBits(a / 2, b / 2, n - 1), XorBits(b / 2, c / 2, n - 1);
      Halves(x, Parity(a, b));
      Halves(y, Parity(b, c));
      XorBitsAssociative(a / 2, b / 2, c / 2, n - 1);
      assert Parity(2 * x + Parity(a, b), c) == Parity(a, 2 * y + Parity(b, c));
    }
  }

  lemma Halves(x: nat, p: nat)
    requires p < 2
    ensures (2 * x + p) / 2 == x && (2 * x + p) % 2 == p
  {
  }

  function XorByte(a: Byte, b: Byte): Byte {
    XorBitsBound(a, b, 8);
    assert Pow2(8) == 256;
    XorBits(a, b, 8)
  }

  function Xor(a: Digest, b: Digest): Digest {
    seq(32, i requires 0 <= i < 32 => XorByte(a[i], b[i]))
  }

  method XorBytes(a: Digest, b: Digest) returns (out: Digest)
    ensures out == Xor(a, b)
  {
    var bytes: Bytes := [];
    for i := 0 to |a|
      invariant |bytes| == i && forall k :: 0 <= k < i ==> bytes[k] == XorByte(a[k], b[k])
    {
      bytes := bytes + [XorByte(a[i], b[i])];
    }
    out := bytes;
  }

  function Bit(a: nat, k: nat): nat {
    if k == 0 then a % 2 else Bit(a / 2, k - 1)
  }

  lemma {:induction false} XorBitsAt(a: nat, b: nat, n: nat, k: nat)
    requires k < n
    ensures Bit(XorBits(a, b, n), k) == (Bit(a, k) + Bit(b, k)) % 2
  {
    Halves(XorBits(a / 2, b / 2, n - 1), Parity(a, b));
    if k > 0 {
      XorBitsAt(a / 2, b / 2, n - 1, k - 1);
    }
  }

  /** Each bit of each byte is set exactly if it is set in one of the two. */
  lemma {:induction false} XorAt(a: Digest, b: Digest, i: nat, k: nat)
    requires i < 32 && k < 8
    ensures Bit(Xor(a, b)[i], k) == 1 <==> Bit(a[i], k) != Bit(b[i], k)
  {
    XorBitsAt(a[i], b[i], 8, k);
    BitRange(a[i], k);
    BitRange(b[i], k);
  }

  lemma {:induction false} BitRange(a: nat, k: nat)
    ensures Bit(a, k) == 0 || Bit(a, k) == 1
  {
    if k > 0 {
      BitRange(a / 2, k - 1);
    }
  }

  lemma XorTwice(a: Digest, b: Digest)
    ensures Xor(Xor(a, b), b) == a
  {
    forall i | 0 <= i < 32
      ensures XorByte(XorByte(a[i], b[i]), b[i]) == a[i]
    {
      assert Pow2(8) == 256;
      XorBitsTwice(a[i], b[i], 8);
    }
  }

  lemma XorAssociative(a: Digest, b: Digest, c: Digest)
    ensures Xor(Xor(a, b), c) == Xor(a, Xor(b, c))
  {
    forall i | 0 <= i < 32
      ensures XorByte(XorByte(a[i], b[i]), c[i]) == XorByte(a[i], XorByte(b[i], c[i]))
    {
      XorBitsAssociative(a[i], b[i], c[i], 8);
    }
  }

  // ----- Hi of section 2.2 of RFC 5802

  /** U1, U2, ... as the RFC writes them. */
  function U(c: Crypto, password: Bytes, salt: Bytes, k: nat): Digest
    requires k >= 1
  {
    if k == 1 then c.hmac(password, salt + Int32Bytes(1)) else c.hmac(password, U(c, password, salt, k - 1))
  }

  function XorAll(ds: seq<Digest>): Digest
    requires ds != []
  {
    if |ds| == 1 then ds[0] else Xor(ds[0], XorAll(ds[1..]))
  }

  /** The exclusive or of U1 to Ui. */
  function Hi(c: Crypto, password: Bytes, salt: Bytes, i: nat): Digest
    requires i >= 1
  {
    XorAll(seq(i, k requires 0 <= k < i => U(c, password, salt, k + 1)))
  }

  lemma {:induction false} XorAllAppend(ds: seq<Digest>, d: Digest)
    requires ds != []
    ensures XorAll(ds + [d]) == Xor(XorAll(ds), d)
    decreases |ds|
  {
    hide Xor;
    if |ds| == 1 {
      assert (ds + [d])[1..] == [d];
    } else {
      assert (ds + [d])[1..] == ds[1..] + [d];
      XorAllAppend(ds[1..], d);
      XorAssociative(ds[0], XorAll(ds[1..]), d);
    }
  }

  lemma HiStep(c: Crypto, password: Bytes, salt: Bytes, i: nat)
    requires i >= 1
    ensures Hi(c, password, salt, i + 1) == Xor(Hi(c, password, salt, i), U(c, password, salt, i + 1))
  {
    hide Xor, XorAll;
    var ds := seq(i, k requires 0 <= k < i => U(c, password, salt, k + 1));
    XorAllAppend(ds, U(c, password, salt, i + 1));
    assert seq(i + 1, k requires 0 <= k < i + 1 => U(c, password, salt, k + 1)) == ds + [U(c, password, salt, i + 1)];
  }

  function AtLeastOne(n: nat): nat {
    if n == 0 then 1 else n
  }

  /** `pbkdf2Sha256One`; a count of 0 is taken for 1. */
  method Pbkdf2(c: Crypto, password: Bytes, salt: Bytes, iterations: nat) returns (r: Digest)
    ensures r == Hi(c, password, salt, AtLeastOne(iterations))
  {
    hide Xor;
    var u := c.hmac(password, salt + [0, 0, 0, 1]);
    r := u;
    assert u == U(c, password, salt, 1);
    for i := 1 to AtLeastOne(iterations)
      invariant u == U(c, password, salt, i) && r == Hi(c, password, salt, i)
    {
      HiStep(c, password, salt, i);
      u := c.hmac(password, u);
      r := XorBytes(r, u);
    }
  }
}
