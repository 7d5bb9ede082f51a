/** Bytes: exclusive or, and numbers written big-endian. */
module Bytes {
  type byte = n: int | 0 <= n < 256

  /** `a ^ b`, bit by bit. */
  function Xor(a: nat, b: nat): (r: nat)
    decreases a + b
  {
    if a == 0 && b == 0 then 0
    else 2 * Xor(a / 2, b / 2) + (if a % 2 == b % 2 then 0 else 1)
  }

  /** Masking twice with the same number gives the first one back. */
  lemma {:induction false} XorTwice(a: nat, m: nat)
    ensures Xor(Xor(a, m), m) == a
    decreases a + m
  {
    if a != 0 || m != 0 {
      XorTwice(a / 2, m / 2);
    }
  }

  /** Masking stays within the same number of bits. */
  lemma {:induction false} XorBound(a: nat, b: nat, bound: nat)
    requires a < Power2(bound) && b < Power2(bound)
    ensures Xor(a, b) < Power2(bound)
    decreases bound
  {
    if bound > 0 && (a != 0 || b != 0) {
      XorBound(a / 2, b / 2, bound - 1);
    }
  }

  function Power2(n: nat): (r: nat)
    ensures r > 0
  {
    if n == 0 then 1 else 2 * Power2(n - 1)
  }

  lemma NoMultiple(p: int, d: int)
    requires -p < p * d < p
    ensures d == 0
  {
    assert d >= 1 ==> p * d >= p * 1;
    assert d <= -1 ==> p * -d >= p * 1;
  }

  lemma Quotient(x: nat, p: nat, q: nat, r: nat)
    requires r < p && x == p * q + r
    ensures x / p == q
  {
    NoMultiple(p, x / p - q);
  }

  lemma Distribute(c: nat, p: nat, q: nat, s: nat)
    requires s < p
    ensures c * (p * q + s) == c * p * q + c * s && c * s <= c * p - c
  {
    assert c * s <= c * (p - 1);
  }

  /** Dividing twice is dividing once by the product. */
  lemma DivideTwice(x: nat, c: nat, p: nat)
    requires c > 0 && p > 0
    ensures c * p > 0 && x / c / p == x / (c * p)
  {
    var y, r := x / c, x % c;
    var q, s := y / p, y % p;
    assert x == c * y + r && y == p * q + s;
    Distribute(c, p, q, s);
    Quotient(x, c * p, q, c * s + r);
  }

  /** The i-th bit, from the lowest. */
  function Bit(n: nat, i: nat): nat {
    if i == 0 then n % 2 else Bit(n / 2, i - 1)
  }

  lemma {:induction false} BitValue(n: nat, i: nat)
    ensures Bit(n, i) == n / Power2(i) % 2
  {
    if i > 0 {
      BitValue(n / 2, i - 1);
      DivideTwice(n, 2, Power2(i - 1));
    }
  }

  lemma XorUnfolds(a: nat, b: nat)
    ensures Xor(a, b) == 2 * Xor(a / 2, b / 2) + if a % 2 == b % 2 then 0 else 1
  {
    if a == 0 && b == 0 {
      assert Xor(0, 0) == 0;
    }
  }

  lemma LowestBit(n: nat, h: nat, d: nat)
    requires n == 2 * h + d && d < 2
    ensures n / 2 == h && n % 2 == d
  {
  }

  lemma Parity(a: nat, b: nat)
    ensures (a + b) % 2 == (a % 2 + b % 2) % 2 == if a % 2 == b % 2 then 0 else 1
  {
  }

  lemma XorHalf(a: nat, b: nat)
    ensures Xor(a, b) / 2 == Xor(a / 2, b / 2) && Xor(a, b) % 2 == (a % 2 + b % 2) % 2
  {
    XorUnfolds(a, b);
    Parity(a, b);
    LowestBit(Xor(a, b), Xor(a / 2, b / 2), if a % 2 == b % 2 then 0 else 1);
  }

  /** Each bit of the result is set exactly when one of the two bits is, and not both. */
  lemma {:induction false} XorBits(a: nat, b: nat, i: nat)
    ensures Bit(Xor(a, b), i) == (Bit(a, i) + Bit(b, i)) % 2
    decreases i
  {
    XorHalf(a, b);
    if i > 0 {
      XorBits(a / 2, b / 2, i - 1);
    }
  }

  function XorByte(a: byte, b: byte): (r: byte)
    ensures Xor(r, b) == a
  {
    assert Power2(8) == 256;
    XorBound(a, b, 8);
    XorTwice(a, b);
    Xor(a, b)
  }

  /** `int.from_bytes(b, "big")`. */
  function FromBytes(b: seq<byte>): nat {
    if b == [] then 0 else 256 * FromBytes(b[..|b| - 1]) + b[|b| - 1]
  }

  function Power256(n: nat): (r: nat)
    ensures r > 0
  {
    if n == 0 then 1 else 256 * Power256(n - 1)
  }

  lemma Power256Values()
    ensures Power256(2) == 65536 && Power256(8) > 65536
  {
    assert Power256(4) == 256 * Power256(3) == 65536 * Power256(2);
    assert Power256(6) == 256 * Power256(5) == 65536 * Power256(4);
    assert Power256(8) == 256 * Power256(7) == 65536 * Power256(6);
  }

  /** `n.to_bytes(size, "big")`, for a number that fits. */
  function ToBytes(n: nat, size: nat): (b: seq<byte>)
    requires n < Power256(size)
    ensures |b| == size
    ensures FromBytes(b) == n
  {
    if size == 0 then [] else
    var rest := ToBytes(n / 256, size - 1);
    assert (rest + [n % 256])[..size - 1] == rest;
    rest + [n % 256]
  }

  /** The k-th byte is the k-th digit to the base of 256, from the highest. */
  lemma {:induction false} ToBytesDigits(n: nat, size: nat, k: nat)
    requires n < Power256(size) && k < size
    ensures ToBytes(n, size)[k] == n / Power256(size - 1 - k) % 256
    decreases size
  {
    if k < size - 1 {
      ToBytesDigits(n / 256, size - 1, k);
      DivideTwice(n, 256, Power256(size - 2 - k));
    }
  }

  lemma {:induction false} FromBytesBound(b: seq<byte>)
    ensures FromBytes(b) < Power256(|b|)
  {
    if b != [] {
      FromBytesBound(b[..|b| - 1]);
    }
  }
}
