/** Counter-mode encryption with a truncated last block
    (libsrtp_decrypt/srtp.c, `do_ctr_crypt`). */
module CounterMode {
  import opened Bits
  import opened ByteStrings

  /** The block cipher: (key, 128-bit counter, position in the block) to keystream octet. */
  type Keystream = (Bytes, nat, nat) -> byte

  function CtrByte(ks: Keystream, key: Bytes, ctr: nat, j: nat): byte {
    ks(key, Mod128(ctr + j / 16), j % 16)
  }

  /** The first n octets of the text combined with the keystream that starts at block `ctr`. */
  function CtrXorUpTo(ks: Keystream, key: Bytes, ctr: nat, text: Bytes, n: nat): (r: Bytes)
    requires n <= |text|
    ensures |r| == n
  {
    if n == 0 then []
    else CtrXorUpTo(ks, key, ctr, text, n - 1) + [XorByteOf(text[n - 1], CtrByte(ks, key, ctr, n - 1))]
  }

  function CtrXor(ks: Keystream, key: Bytes, ctr: nat, text: Bytes): (r: Bytes)
    ensures |r| == |text|
  {
    CtrXorUpTo(ks, key, ctr, text, |text|)
  }

  lemma {:induction false} CtrXorUpToAt(ks: Keystream, key: Bytes, ctr: nat, text: Bytes, n: nat, j: nat)
    requires j < n <= |text|
    ensures CtrXorUpTo(ks, key, ctr, text, n)[j] == XorByteOf(text[j], CtrByte(ks, key, ctr, j))
  {
    if j < n - 1 {
      CtrXorUpToAt(ks, key, ctr, text, n - 1, j);
    }
  }

  lemma CtrXorAt(ks: Keystream, key: Bytes, ctr: nat, text: Bytes, j: nat)
    requires j < |text|
    ensures CtrXor(ks, key, ctr, text)[j] == XorByteOf(text[j], CtrByte(ks, key, ctr, j))
  {
    CtrXorUpToAt(ks, key, ctr, text, |text|, j);
  }

  /** Encryption and decryption are the same operation. */
  lemma CtrXorCancels(ks: Keystream, key: Bytes, ctr: nat, text: Bytes)
    ensures CtrXor(ks, key, ctr, CtrXor(ks, key, ctr, text)) == text
  {
    var once := CtrXor(ks, key, ctr, text);
    var twice := CtrXor(ks, key, ctr, once);
    forall j | 0 <= j < |text|
      ensures twice[j] == text[j]
    {
      CtrXorAt(ks, key, ctr, text, j);
      CtrXorAt(ks, key, ctr, once, j);
      XorCancels(text[j], CtrByte(ks, key, ctr, j));
    }
  }

  /** Octet i of a buffer in which the octets from `from` up to `upto` were encrypted. */
  function CryptedByte(ks: Keystream, key: Bytes, ctr: nat, was: Bytes, from: nat, upto: nat, i: nat): byte
    requires i < |was|
  {
    if from <= i < upto then XorByteOf(was[i], CtrByte(ks, key, ctr, i - from)) else was[i]
  }

  ghost predicate Crypted(ks: Keystream, key: Bytes, ctr: nat, was: Bytes, from: nat, upto: nat, now: Bytes) {
    |now| == |was| && forall i :: 0 <= i < |was| ==> now[i] == CryptedByte(ks, key, ctr, was, from, upto, i)
  }

  /** Encrypting a stretch of a buffer is replacing it by its encryption. */
  lemma CryptedStretch(ks: Keystream, key: Bytes, ctr: nat, was: Bytes, from: nat, upto: nat, now: Bytes)
    requires from <= upto <= |was| && Crypted(ks, key, ctr, was, from, upto, now)
    ensures now == was[..from] + CtrXor(ks, key, ctr, was[from..upto]) + was[upto..]
  {
    var enc := CtrXor(ks, key, ctr, was[from..upto]);
    forall i | 0 <= i < |was|
      ensures now[i] == (was[..from] + enc + was[upto..])[i]
    {
      assert now[i] == CryptedByte(ks, key, ctr, was, from, upto, i);
      if from <= i < upto {
        CtrXorAt(ks, key, ctr, was[from..upto], i - from);
      }
    }
  }

  /** Written out: octet j of the stretch is combined with octet j mod 16 of the keystream
      block ctr + j / 16, counted modulo 2^128, and nothing else changes. */
  lemma CryptedWritten(ks: Keystream, key: Bytes, ctr: nat, was: Bytes, from: nat, upto: nat, now: Bytes, i: nat)
    requires from <= upto <= |was| && Crypted(ks, key, ctr, was, from, upto, now) && i < |was|
    ensures |now| == |was|
    ensures from <= i < upto ==>
              now[i] == Xor(was[i], ks(key, (ctr + (i - from) / 16) % 0x1_0000_0000_0000_0000_0000_0000_0000_0000,
                                       (i - from) % 16))
    ensures !(from <= i < upto) ==> now[i] == was[i]
  {
    assert now[i] == CryptedByte(ks, key, ctr, was, from, upto, i);
  }

  lemma LaterBlock(ctr: nat, q: nat, j: nat)
    ensures Mod128(Mod128(ctr + q) + j / 16) == Mod128(ctr + (16 * q + j) / 16)
    ensures (16 * q + j) % 16 == j % 16
  {
    assert (16 * q + j) / 16 == q + j / 16;
    ModAbsorb(ctr + q, j / 16);
  }

  lemma ModAbsorb(a: nat, b: nat)
    ensures Mod128(Mod128(a) + b) == Mod128(a + b)
  {
    var q, r := a / 0x1_0000_0000_0000_0000_0000_0000_0000_0000, Mod128(a);
    var q', r' := (r + b) / 0x1_0000_0000_0000_0000_0000_0000_0000_0000, Mod128(r + b);
    assert a + b == 0x1_0000_0000_0000_0000_0000_0000_0000_0000 * (q + q') + r';
  }

  /** Whole blocks first, then the rest with the counter moved on. */
  lemma CryptedTwice(ks: Keystream, key: Bytes, ctr: nat, was: Bytes, from: nat, q: nat, upto: nat,
                     mid: Bytes, now: Bytes)
    requires from + 16 * q <= upto
    requires Crypted(ks, key, ctr, was, from, from + 16 * q, mid)
    requires Crypted(ks, key, Mod128(ctr + q), mid, from + 16 * q, upto, now)
    ensures Crypted(ks, key, ctr, was, from, upto, now)
  {
    var at := from + 16 * q;
    forall i | 0 <= i < |was|
      ensures now[i] == CryptedByte(ks, key, ctr, was, from, upto, i)
    {
      assert mid[i] == CryptedByte(ks, key, ctr, was, from, at, i);
      if at <= i < upto {
        LaterBlock(ctr, q, i - at);
      }
    }
  }

  /** A libgcrypt handle in counter mode: a key and the counter of the next block. */
  class CipherHandle {
    const ks: Keystream
    var key: Bytes
    var ctr: nat

    constructor (ks: Keystream)
      ensures this.ks == ks && key == [] && ctr == 0
    {
      this.ks := ks;
      key, ctr := [], 0;
    }

    method SetCtr(c: Bytes)
      requires |c| == 16
      modifies this`ctr
      ensures ctr == FromBe(c)
    {
      ctr := FromBe(c);
    }

    /** Encrypts whole blocks where they lie. */
    method EncryptInPlace(a: array<byte>, from: nat, blocks: nat)
      requires from + 16 * blocks <= a.Length
      modifies this`ctr, a
      ensures Crypted(ks, key, old(ctr), old(a[..]), from, from + 16 * blocks, a[..])
      ensures ctr == Mod128(old(ctr) + blocks)
    {
      ghost var was := a[..];
      for j := 0 to 16 * blocks
        invariant ctr == old(ctr)
        invariant forall i :: 0 <= i < a.Length ==> a[i] == CryptedByte(ks, key, ctr, was, from, from + j, i)
      {
        a[from + j] := XorByteOf(a[from + j], CtrByte(ks, key, ctr, j));
      }
      ctr := Mod128(ctr + blocks);
    }

    /** Encrypts one block from `text` into `out`. */
    method EncryptBlock(out: array<byte>, text: Bytes)
      requires |text| == 16 == out.Length
      modifies this`ctr, out
      ensures out[..] == CtrXor(ks, key, old(ctr), text)
      ensures ctr == Mod128(old(ctr) + 1)
    {
      for j := 0 to 16
        invariant ctr == old(ctr)
        invariant forall i :: 0 <= i < j ==> out[i] == XorByteOf(text[i], CtrByte(ks, key, ctr, i))
      {
        out[j] := XorByteOf(text[j], CtrByte(ks, key, ctr, j));
      }
      ghost var enc := CtrXor(ks, key, ctr, text);
      forall i | 0 <= i < 16
        ensures out[i] == enc[i]
      {
        CtrXorAt(ks, key, ctr, text, i);
      }
      ctr := Mod128(ctr + 1);
    }
  }

  /** The truncated last block: a whole block is read at `at`, so up to 15 octets after the
      text are seen too, first those of the buffer and then `beyond`, the memory after it. */
  method CryptTail(hd: CipherHandle, a: array<byte>, at: nat, upto: nat, beyond: Bytes)
    requires at <= upto <= a.Length && upto - at <= 16 == |beyond|
    modifies hd`ctr, a
    ensures Crypted(hd.ks, hd.key, old(hd.ctr), old(a[..]), at, upto, a[..])
  {
    ghost var was, c := a[..], hd.ctr;
    var dummy := new byte[16](_ => 0);
    var text := (a[at..] + beyond)[..16];
    assert forall i :: at <= i < upto ==> text[i - at] == was[i];
    hd.EncryptBlock(dummy, text);
    var block := dummy[..];
    forall i | at <= i < upto
      ensures block[i - at] == CryptedByte(hd.ks, hd.key, c, was, at, upto, i)
    {
      CtrXorAt(hd.ks, hd.key, c, text, i - at);
    }
    for k := at to upto
      invariant forall i :: 0 <= i < a.Length ==> a[i] == if at <= i < k then block[i - at] else was[i]
    {
      a[k] := block[k - at];
    }
  }

  /** `do_ctr_crypt` on the `len` octets of `a` from `from` on: the result is the text
      combined with the keystream, whatever octets follow it. */
  method DoCtrCrypt(hd: CipherHandle, ctr: Bytes, a: array<byte>, from: nat, len: nat, beyond: Bytes)
    requires |ctr| == 16 && from + len <= a.Length && |beyond| == 16
    modifies hd`ctr, a
    ensures Crypted(hd.ks, hd.key, FromBe(ctr), old(a[..]), from, from + len, a[..])
  {
    var quot, rem := len / 16, len % 16;
    hd.SetCtr(ctr);
    hd.EncryptInPlace(a, from, quot);
    if rem != 0 {
      ghost var mid := a[..];
      CryptTail(hd, a, from + 16 * quot, from + len, beyond);
      CryptedTwice(hd.ks, hd.key, FromBe(ctr), old(a[..]), from, quot, from + len, mid, a[..]);
    }
  }
}
