/** Unsigned machine words as natural numbers.

    Bitwise operators are defined by walking down the binary digits, so that every fact
    about them is an induction over halving.  The shifts follow section 6.5.7 of the C
    standard: `w << d` is the product with 2^d reduced modulo 2^64, `w >> d` the quotient. */
module Bits {

  /** A counter cut to the 128 bits of a cipher block. */
  function Mod128(n: nat): nat { n % 0x1_0000_0000_0000_0000_0000_0000_0000_0000 }

  function Pow2(n: nat): nat {
    if n == 0 then 1 else 2 * Pow2(n - 1)
  }

  function Xor(a: nat, b: nat): nat {
    if a == 0 && b == 0 then 0 else (a + b) % 2 + 2 * Xor(a / 2, b / 2)
  }

  function Or(a: nat, b: nat): nat {
    if a == 0 && b == 0 then 0
    else (if a % 2 == 1 || b % 2 == 1 then 1 else 0) + 2 * Or(a / 2, b / 2)
  }

  /** `(w >> k) & 1` is one. */
  predicate Bit(w: nat, k: nat) {
    Shr(w, k) % 2 == 1
  }

  function Shr(w: nat, d: nat): nat {
    if d == 0 then w else Shr(w / 2, d - 1)
  }

  function Shl64(w: nat, d: nat): nat {
    if d == 0 then w else 2 * Shl64(w, d - 1) % 0x1_0000_0000_0000_0000
  }

  // ----- divisibility by a variable rate

  /** `n % d == 0`, by repeated subtraction. */
  predicate MultipleOf(n: nat, d: nat)
    requires d > 0
  {
    n == 0 || (d <= n && MultipleOf(n - d, d))
  }

  lemma {:induction false} MultipleOfMod(n: nat, d: nat)
    requires d > 0
    ensures MultipleOf(n, d) <==> n % d == 0
  {
    if n >= d {
      MultipleOfMod(n - d, d);
      ModSubtract(n, d);
    } else {
      ModOfSum(0, n, d);
    }
  }

  lemma ModSubtract(n: nat, d: nat)
    requires 0 < d <= n
    ensures (n - d) % d == n % d
  {
    var q, r := (n - d) / d, (n - d) % d;
    assert d * (q + 1) + r == n;
    ModOfSum(q + 1, r, d);
  }

  // ----- exclusive or

  lemma XorStep(a: nat, b: nat)
    ensures Xor(a, b) / 2 == Xor(a / 2, b / 2)
    ensures Xor(a, b) % 2 == (a + b) % 2
  {
    if a == 0 && b == 0 {
    } else {
      var r, x := (a + b) % 2, Xor(a / 2, b / 2);
      assert Xor(a, b) == r + 2 * x;
    }
  }

  /** Encrypting twice with the same mask is the identity. */
  lemma {:induction false} XorCancels(a: nat, b: nat)
    ensures Xor(Xor(a, b), b) == a
  {
    if a != 0 || b != 0 {
      XorCancels(a / 2, b / 2);
      var x := Xor(a, b);
      assert x / 2 == Xor(a / 2, b / 2) && x % 2 == (a + b) % 2 by { XorStep(a, b); }
      var y := Xor(x, b);
      assert y / 2 == Xor(x / 2, b / 2) && y % 2 == (x + b) % 2 by { XorStep(x, b); }
      Parity(a, b, x);
      SameHalves(y, a);
    }
  }

  lemma Parity(a: nat, b: nat, x: nat)
    requires x % 2 == (a + b) % 2
    ensures (x + b) % 2 == a % 2
  {
  }

  lemma {:induction false} XorCommutes(a: nat, b: nat)
    ensures Xor(a, b) == Xor(b, a)
  {
    if a != 0 || b != 0 {
      XorCommutes(a / 2, b / 2);
    }
  }

  lemma XorInjective(a: nat, b: nat, mask: nat)
    requires Xor(mask, a) == Xor(mask, b)
    ensures a == b
  {
    XorCommutes(mask, a);
    XorCommutes(mask, b);
    XorCancels(a, mask);
    XorCancels(b, mask);
  }

  lemma {:induction false} XorZero(a: nat)
    ensures Xor(a, 0) == a && Xor(0, a) == a
  {
    if a != 0 {
      XorZero(a / 2);
    }
  }

  lemma {:induction false} XorBound(a: nat, b: nat, n: nat)
    requires a < Pow2(n) && b < Pow2(n)
    ensures Xor(a, b) < Pow2(n)
  {
    if a != 0 || b != 0 {
      XorBound(a / 2, b / 2, n - 1);
    }
  }

  lemma XorByte(a: nat, b: nat)
    requires a < 256 && b < 256
    ensures Xor(a, b) < 256
  {
    assert Pow2(8) == 256;
    XorBound(a, b, 8);
  }

  /** `a << n` on unbounded integers. */
  function Scale(a: nat, n: nat): nat {
    if n == 0 then a else 2 * Scale(a, n - 1)
  }

  /** Words written side by side are combined part by part. */
  ghost predicate ByParts(a: nat, x: nat, b: nat, y: nat, n: nat) {
    Xor(Scale(a, n) + x, Scale(b, n) + y) == Scale(Xor(a, b), n) + Xor(x, y)
  }

  lemma {:induction false} XorConcat(a: nat, x: nat, b: nat, y: nat, n: nat)
    requires x < Pow2(n) && y < Pow2(n)
    ensures ByParts(a, x, b, y, n)
  {
    if n > 0 {
      HalfBelow(x, n);
      HalfBelow(y, n);
      XorConcat(a, x / 2, b, y / 2, n - 1);
      ByPartsStep(a, x, b, y, n);
    } else {
      XorZero(0);
    }
  }

  lemma ByPartsStep(a: nat, x: nat, b: nat, y: nat, n: nat)
    requires n > 0 && ByParts(a, x / 2, b, y / 2, n - 1)
    ensures ByParts(a, x, b, y, n)
  {
    XorDoubled(Scale(a, n - 1), x, Scale(b, n - 1), y, Scale(Xor(a, b), n - 1));
  }

  lemma HalfBelow(x: nat, n: nat)
    requires n > 0 && x < Pow2(n)
    ensures x / 2 < Pow2(n - 1)
  {
  }

  lemma XorDoubled(a: nat, x: nat, b: nat, y: nat, z: nat)
    requires Xor(a + x / 2, b + y / 2) == z + Xor(x / 2, y / 2)
    ensures Xor(2 * a + x, 2 * b + y) == 2 * z + Xor(x, y)
  {
    var x', i, y', j := x / 2, x % 2, y / 2, y % 2;
    XorPair(a + x', b + y', i, j, 2 * a + x, 2 * b + y);
    XorPair(x', y', i, j, x, y);
  }

  /** The lowest digits are combined on their own. */
  lemma XorPair(p: nat, q: nat, i: nat, j: nat, m: nat, n: nat)
    requires i < 2 && j < 2 && m == 2 * p + i && n == 2 * q + j
    ensures Xor(m, n) == 2 * Xor(p, q) + (if i == j then 0 else 1)
  {
    assert m / 2 == p && n / 2 == q;
    assert (m + n) % 2 == if i == j then 0 else 1;
  }

  lemma XorConcatByte(a: nat, x: nat, b: nat, y: nat)
    requires x < 256 && y < 256
    ensures Xor(256 * a + x, 256 * b + y) == 256 * Xor(a, b) + Xor(x, y)
  {
    assert Pow2(8) == 256;
    XorConcat(a, x, b, y, 8);
    ScaleByte(a);
    ScaleByte(b);
    ScaleByte(Xor(a, b));
  }

  lemma ScaleByte(a: nat)
    ensures Scale(a, 8) == 256 * a
  {
    ScaleMore(a, 0);
  }

  lemma ScaleMore(a: nat, n: nat)
    ensures Scale(a, n + 8) == 256 * Scale(a, n)
  {
    ScaleTwice(a, n + 2);
    ScaleTwice(a, n + 4);
    ScaleTwice(a, n + 6);
    ScaleTwice(a, n + 8);
  }

  lemma Scale64(a: nat)
    ensures Scale(a, 64) == 0x1_0000_0000_0000_0000 * a
  {
    ScaleByte(a);
    ScaleMore(a, 8);
    ScaleMore(a, 16);
    ScaleMore(a, 24);
    ScaleMore(a, 32);
    ScaleMore(a, 40);
    ScaleMore(a, 48);
    ScaleMore(a, 56);
  }

  lemma ScaleTwice(a: nat, n: nat)
    requires n >= 2
    ensures Scale(a, n) == 4 * Scale(a, n - 2)
  {
    assert Scale(a, n - 1) == 2 * Scale(a, n - 2);
  }

  lemma SameHalves(a: nat, b: nat)
    requires a / 2 == b / 2 && a % 2 == b % 2
    ensures a == b
  {
  }

  // ----- inclusive or, shifts and single bits

  lemma {:induction false} OrBit(a: nat, b: nat, k: nat)
    ensures Bit(Or(a, b), k) == (Bit(a, k) || Bit(b, k))
  {
    if k == 0 {
    } else if a == 0 && b == 0 {
      ZeroBit(k);
    } else {
      OrBit(a / 2, b / 2, k - 1);
      assert Or(a, b) / 2 == Or(a / 2, b / 2);
    }
  }

  lemma {:induction false} OrBound(a: nat, b: nat, n: nat)
    requires a < Pow2(n) && b < Pow2(n)
    ensures Or(a, b) < Pow2(n)
  {
    if a != 0 || b != 0 {
      OrBound(a / 2, b / 2, n - 1);
    }
  }

  lemma {:induction false} ZeroBit(k: nat)
    ensures !Bit(0, k)
  {
    if k > 0 {
      ZeroBit(k - 1);
    }
  }

  /** What is written above the lowest n digits does not touch them. */
  lemma {:induction false} LowBits(q: nat, r: nat, n: nat, k: nat)
    requires k < n
    ensures Bit(Scale(q, n) + r, k) == Bit(r, k)
  {
    HalfOfSum(Scale(q, n - 1), r);
    if k > 0 {
      LowBits(q, r / 2, n - 1, k - 1);
    }
  }

  lemma HalfOfSum(m: int, r: int)
    ensures (2 * m + r) / 2 == m + r / 2 && (2 * m + r) % 2 == r % 2
  {
  }

  lemma ModOfSum(q: nat, r: nat, h: nat)
    requires r < h
    ensures (h * q + r) % h == r && (h * q + r) / h == q
  {
    assert h * q >= 0;
    var n: nat := h * q + r;
    assert h * (q - n / h) == n % h - r;
    SmallMultiple(h, q - n / h, n % h - r);
  }

  /** The only multiple of h strictly between -h and h is zero. */
  lemma SmallMultiple(h: int, k: int, r: int)
    requires h * k == r && -h < r < h
    ensures k == 0
  {
  }

  lemma Pow64()
    ensures Pow2(64) == 0x1_0000_0000_0000_0000
  {
    assert Pow2(8) == 256;
    Pow2Byte(8);
    Pow2Byte(16);
    Pow2Byte(24);
    Pow2Byte(32);
    Pow2Byte(40);
    Pow2Byte(48);
    Pow2Byte(56);
  }

  lemma Pow2Byte(n: nat)
    ensures Pow2(n + 8) == 256 * Pow2(n)
  {
    assert Pow2(n + 2) == 4 * Pow2(n);
    assert Pow2(n + 4) == 4 * Pow2(n + 2);
    assert Pow2(n + 6) == 4 * Pow2(n + 4);
    assert Pow2(n + 8) == 4 * Pow2(n + 6);
  }

  lemma DoubleBit(w: nat, k: nat)
    requires k < 64
    ensures Bit(2 * w % 0x1_0000_0000_0000_0000, k) == (k > 0 && Bit(w, k - 1))
  {
    var v := 2 * w;
    var q, r := v / 0x1_0000_0000_0000_0000, v % 0x1_0000_0000_0000_0000;
    Scale64(q);
    LowBits(q, r, 64, k);
    assert v / 2 == w;
  }

  /** Shifting left by d moves bit k-d to place k and clears the lowest d bits. */
  lemma {:induction false} ShlBit(w: nat, d: nat, k: nat)
    requires k < 64
    ensures Bit(Shl64(w, d), k) == (d <= k && Bit(w, k - d))
    decreases d
  {
    if d > 0 {
      DoubleBit(Shl64(w, d - 1), k);
      if k > 0 {
        ShlBit(w, d - 1, k - 1);
      }
    }
  }

  lemma {:induction false} ShlBound(w: nat, d: nat)
    requires w < 0x1_0000_0000_0000_0000
    ensures Shl64(w, d) < 0x1_0000_0000_0000_0000
  {
  }

  lemma OneBit(k: nat)
    ensures Bit(1, k) == (k == 0)
  {
    if k > 0 {
      ZeroBit(k - 1);
    }
  }

  lemma OrBound64(a: nat, b: nat)
    requires a < 0x1_0000_0000_0000_0000 && b < 0x1_0000_0000_0000_0000
    ensures Or(a, b) < 0x1_0000_0000_0000_0000
  {
    Pow64();
    OrBound(a, b, 64);
  }

  /** Two words with the same bits are the same word. */
  lemma {:induction false} SameBits(a: nat, b: nat, n: nat)
    requires a < Pow2(n) && b < Pow2(n)
    requires forall k: nat :: k < n ==> Bit(a, k) == Bit(b, k)
    ensures a == b
  {
    if n > 0 {
      forall k: nat | k < n - 1
        ensures Bit(a / 2, k) == Bit(b / 2, k)
      {
        assert Bit(a, k + 1) == Bit(b, k + 1);
      }
      SameBits(a / 2, b / 2, n - 1);
      assert Bit(a, 0) == Bit(b, 0);
    }
  }
}
