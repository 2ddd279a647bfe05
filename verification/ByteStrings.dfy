/** Octets, network byte order and byte-wise exclusive or. */
module ByteStrings {
  import opened Bits

  type byte = b: int | 0 <= b < 256
  type Bytes = seq<byte>

  /** Octet k of n, counted from the lowest. */
  function Octet(n: nat, k: nat): byte {
    if k == 0 then n % 256 else Octet(n / 256, k - 1)
  }

  function Be16(n: nat): (b: Bytes)
    requires n < 0x1_0000
    ensures |b| == 2
  {
    seq(2, i requires 0 <= i < 2 => Octet(n, 1 - i))
  }

  function Be32(n: nat): (b: Bytes)
    requires n < 0x1_0000_0000
    ensures |b| == 4
  {
    seq(4, i requires 0 <= i < 4 => Octet(n, 3 - i))
  }

  /** The value of two octets in network order. */
  function U16(hi: byte, lo: byte): (n: nat)
    ensures n < 0x1_0000
  {
    FromBePair(hi, lo);
    FromBe([hi, lo])
  }

  lemma FromBePair(hi: byte, lo: byte)
    ensures var h: int := hi; FromBe([hi, lo]) == 256 * h + lo
  {
    assert [hi, lo][..1] == [hi];
    assert FromBe([hi]) == hi;
  }

  lemma U16Is(hi: byte, lo: byte)
    ensures var h: int := hi; U16(hi, lo) == 256 * h + lo
  {
    FromBePair(hi, lo);
  }

  function U32(b: Bytes): (n: nat)
    requires |b| == 4
    ensures n < 0x1_0000_0000
  {
    0x1_0000 * U16(b[0], b[1]) + U16(b[2], b[3])
  }

  lemma Be16Octets(hi: byte, lo: byte)
    ensures Be16(U16(hi, lo)) == [hi, lo]
  {
    U16Is(hi, lo);
    assert Octet(U16(hi, lo), 1) == Octet(hi, 0);
  }

  lemma Be16RoundTrip(n: nat)
    requires n < 0x1_0000
    ensures U16(Be16(n)[0], Be16(n)[1]) == n
  {
    U16Is(n / 256, n % 256);
    Be16Octets(n / 256, n % 256);
  }

  /** A double word is its high word followed by its low word. */
  lemma Be32Words(hi: nat, lo: nat)
    requires hi < 0x1_0000 && lo < 0x1_0000
    ensures Be32(0x1_0000 * hi + lo) == Be16(hi) + Be16(lo)
  {
    var n := 0x1_0000 * hi + lo;
    assert n / 256 == 256 * hi + lo / 256 && n % 256 == lo % 256;
    assert n / 256 / 256 == hi && n / 256 % 256 == lo / 256 % 256;
    assert Octet(n, 3) == Octet(n / 256 / 256, 1) && Octet(n, 2) == Octet(n / 256 / 256, 0);
    assert Octet(n, 1) == Octet(n / 256, 0) && Octet(lo, 1) == Octet(lo / 256, 0);
  }

  lemma Be32RoundTrip(n: nat)
    requires n < 0x1_0000_0000
    ensures U32(Be32(n)) == n
  {
    var hi, lo := n / 0x1_0000, n % 0x1_0000;
    Be32Words(hi, lo);
    Be16RoundTrip(hi);
    Be16RoundTrip(lo);
  }

  lemma Be32Injective(m: nat, n: nat)
    requires m < 0x1_0000_0000 && n < 0x1_0000_0000 && Be32(m) == Be32(n)
    ensures m == n
  {
    Be32RoundTrip(m);
    Be32RoundTrip(n);
  }

  /** A byte string read as one big-endian integer. */
  function FromBe(b: Bytes): nat {
    if b == [] then 0 else 256 * FromBe(b[..|b| - 1]) + b[|b| - 1]
  }

  lemma {:induction false} FromBeInjective(a: Bytes, b: Bytes)
    requires |a| == |b| && FromBe(a) == FromBe(b)
    ensures a == b
  {
    if a != [] {
      var n := |a| - 1;
      FromBeInjective(a[..n], b[..n]);
      assert a == a[..n] + [a[n]] && b == b[..n] + [b[n]];
    }
  }

  function Pow256(n: nat): nat {
    if n == 0 then 1 else 256 * Pow256(n - 1)
  }

  lemma {:induction false} FromBeBound(b: Bytes)
    ensures FromBe(b) < Pow256(|b|)
  {
    if b != [] {
      FromBeBound(b[..|b| - 1]);
    }
  }

  lemma FromBePush(a: Bytes, x: byte)
    ensures FromBe(a + [x]) == 256 * FromBe(a) + x
  {
    assert (a + [x])[..|a|] == a;
  }

  /** Two trailing zero octets multiply by 2^16. */
  lemma FromBeLowZero(a: Bytes)
    ensures FromBe(a + [0, 0]) == 0x1_0000 * FromBe(a)
  {
    assert a + [0, 0] == (a + [0]) + [0];
    FromBePush(a + [0], 0);
    FromBePush(a, 0);
  }

  // ----- octets side by side

  lemma FromBeTwo(b: Bytes)
    requires |b| == 2
    ensures FromBe(b) == U16(b[0], b[1])
  {
    U16Is(b[0], b[1]);
    assert FromBe(b[..1]) == 256 * FromBe(b[..1][..0]) + b[0];
  }

  /** x followed by n more octets. */
  function ShiftOctets(x: nat, n: nat): nat {
    if n == 0 then x else 256 * ShiftOctets(x, n - 1)
  }

  lemma {:induction false} FromBeConcat(a: Bytes, b: Bytes)
    ensures FromBe(a + b) == ShiftOctets(FromBe(a), |b|) + FromBe(b)
  {
    if b == [] {
      assert a + b == a;
    } else {
      var n := |b| - 1;
      FromBeConcat(a, b[..n]);
      assert a + b == (a + b[..n]) + [b[n]] && b == b[..n] + [b[n]];
      FromBePush(a + b[..n], b[n]);
      FromBePush(b[..n], b[n]);
    }
  }

  lemma ShiftTwo(x: nat, n: nat)
    requires n >= 2
    ensures ShiftOctets(x, n) == 0x1_0000 * ShiftOctets(x, n - 2)
  {
    assert ShiftOctets(x, n - 1) == 256 * ShiftOctets(x, n - 2);
  }

  lemma FromBeShort(a: Bytes, b: Bytes)
    ensures |b| == 2 ==> FromBe(a + b) == 0x1_0000 * FromBe(a) + FromBe(b)
    ensures |b| == 4 ==> FromBe(a + b) == 0x1_0000_0000 * FromBe(a) + FromBe(b)
  {
    FromBeConcat(a, b);
    ShiftTwo(FromBe(a), 2);
    ShiftTwo(FromBe(a), 4);
  }

  lemma FromBeFour(b: Bytes)
    requires |b| == 4
    ensures FromBe(b) == U32(b)
  {
    assert b == b[..2] + b[2..];
    FromBeShort(b[..2], b[2..]);
    FromBeTwo(b[..2]);
    FromBeTwo(b[2..]);
  }

  // ----- exclusive or

  function XorByteOf(a: byte, b: byte): byte {
    XorByte(a, b);
    Xor(a, b)
  }

  function XorUpTo(a: Bytes, b: Bytes, n: nat): (r: Bytes)
    requires n <= |a| == |b|
    ensures |r| == n
  {
    if n == 0 then [] else XorUpTo(a, b, n - 1) + [XorByteOf(a[n - 1], b[n - 1])]
  }

  function XorBytes(a: Bytes, b: Bytes): (r: Bytes)
    requires |a| == |b|
    ensures |r| == |a|
  {
    XorUpTo(a, b, |a|)
  }

  lemma {:induction false} XorUpToAt(a: Bytes, b: Bytes, n: nat, i: nat)
    requires i < n <= |a| == |b|
    ensures XorUpTo(a, b, n)[i] == XorByteOf(a[i], b[i])
  {
    if i < n - 1 {
      XorUpToAt(a, b, n - 1, i);
    }
  }

  lemma XorBytesAt(a: Bytes, b: Bytes, i: nat)
    requires i < |a| == |b|
    ensures XorBytes(a, b)[i] == XorByteOf(a[i], b[i])
  {
    XorUpToAt(a, b, |a|, i);
  }

  lemma XorBytesCancels(a: Bytes, b: Bytes)
    requires |a| == |b|
    ensures XorBytes(XorBytes(a, b), b) == a
  {
    var once := XorBytes(a, b);
    var twice := XorBytes(once, b);
    forall i | 0 <= i < |a|
      ensures twice[i] == a[i]
    {
      XorBytesAt(a, b, i);
      XorBytesAt(once, b, i);
      XorCancels(a[i], b[i]);
    }
  }

  lemma XorBytesInjective(mask: Bytes, a: Bytes, b: Bytes)
    requires |mask| == |a| == |b| && XorBytes(mask, a) == XorBytes(mask, b)
    ensures a == b
  {
    forall i | 0 <= i < |a|
      ensures a[i] == b[i]
    {
      XorBytesAt(mask, a, i);
      XorBytesAt(mask, b, i);
      XorInjective(a[i], b[i], mask[i]);
    }
  }

  lemma XorBytesPrefix(a: Bytes, b: Bytes, n: nat)
    requires n <= |a| == |b|
    ensures XorBytes(a, b)[..n] == XorBytes(a[..n], b[..n])
  {
    forall i | 0 <= i < n
      ensures XorBytes(a, b)[..n][i] == XorBytes(a[..n], b[..n])[i]
    {
      XorBytesAt(a, b, i);
      XorBytesAt(a[..n], b[..n], i);
    }
  }

  /** Combining octet by octet is combining the integers. */
  lemma {:induction false} FromBeXor(a: Bytes, b: Bytes)
    requires |a| == |b|
    ensures FromBe(XorBytes(a, b)) == Xor(FromBe(a), FromBe(b))
  {
    if a != [] {
      var n := |a| - 1;
      FromBeXor(a[..n], b[..n]);
      XorBytesPrefix(a, b, n);
      XorBytesAt(a, b, n);
      XorConcatByte(FromBe(a[..n]), a[n], FromBe(b[..n]), b[n]);
    }
  }
}
