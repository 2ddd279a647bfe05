/** Session keys from a master key and salt (libsrtp_decrypt/srtp.c, `do_derive` and
    `srtp_setkey`; section 4.3 of RFC 3711). */
module KeyDerivation {
  import opened Bits
  import opened ByteStrings
  import opened RollOverCounter
  import opened CounterMode
  import opened Srtp
  import opened KeystreamUse

  const SALT_LEN := 14

  function Zeros(n: nat): (r: Bytes)
    ensures |r| == n && forall i :: 0 <= i < n ==> r[i] == 0
  {
    seq(n, _ => 0)
  }

  /** What `do_derive` combines with the salt: the label, and r at the end of the block. */
  function IvMask(r: Bytes, lbl: byte): (m: Bytes)
    requires |r| < SALT_LEN
    ensures |m| == 16
  {
    Zeros(13 - |r|) + [lbl] + [0, 0] + r
  }

  function DeriveIv(salt: Bytes, r: Bytes, lbl: byte): (iv: Bytes)
    requires |salt| == SALT_LEN && |r| < SALT_LEN
    ensures |iv| == 16
  {
    XorBytes(salt + [0, 0], IvMask(r, lbl))
  }

  /** `do_derive`: keystream from the derived block on. */
  function Derive(ks: Keystream, key: Bytes, salt: Bytes, r: Bytes, lbl: byte, n: nat): (k: Bytes)
    requires |salt| == SALT_LEN && |r| < SALT_LEN
    ensures |k| == n
  {
    CtrXor(ks, key, FromBe(DeriveIv(salt, r, lbl)), Zeros(n))
  }

  /** Three derivations with consecutive labels: cipher key, hash key and salt. */
  function DerivedKeys(ks: Keystream, key: Bytes, salt: Bytes, r: Bytes, lbl: byte): Keys
    requires |salt| == SALT_LEN && |r| < SALT_LEN && lbl < 254
  {
    Keys(Derive(ks, key, salt, r, lbl, 16), Derive(ks, key, salt, r, lbl + 1, 20),
         Derive(ks, key, salt, r, lbl + 2, SALT_LEN) + [0, 0])
  }

  /** `srtp_setkey` for the RTP half: labels 0, 1 and 2 with r all zero. */
  function SessionKeys(ks: Keystream, key: Bytes, salt: Bytes): Keys
    requires |salt| == SALT_LEN
  {
    DerivedKeys(ks, key, salt, Zeros(6), 0)
  }

  /** ... and for the RTCP half: labels 3, 4 and 5 with the four octets of the RTCP index. */
  function RtcpKeys(ks: Keystream, key: Bytes, salt: Bytes, index: uint32): Keys
    requires |salt| == SALT_LEN
  {
    DerivedKeys(ks, key, salt, Be32(index), 3)
  }

  // ----- the code

  method BuildIv(salt: Bytes, r: Bytes, lbl: byte) returns (block: Bytes)
    requires |salt| == SALT_LEN && |r| < SALT_LEN
    ensures block == DeriveIv(salt, r, lbl)
  {
    var iv := new byte[16](i requires 0 <= i < 16 => if i < SALT_LEN then salt[i] else 0);
    ghost var base, mask := salt + [0, 0], IvMask(r, lbl);
    var n := |r|;
    iv[13 - n] := XorByteOf(iv[13 - n], lbl);
    for i := 0 to n
      invariant forall k :: 0 <= k < 16 ==>
                  iv[k] == if k == 13 - n || 16 - n <= k < 16 - n + i then XorByteOf(base[k], mask[k]) else base[k]
    {
      iv[16 - n + i] := XorByteOf(iv[16 - n + i], r[i]);
    }
    block := iv[..];
    forall k | 0 <= k < 16
      ensures block[k] == XorBytes(base, mask)[k]
    {
      XorZero(base[k]);
      XorBytesAt(base, mask, k);
    }
  }

  method ZeroFill(out: array<byte>, n: nat)
    requires n <= out.Length
    modifies out
    ensures out[..n] == Zeros(n) && out[n..] == old(out[n..])
  {
    ghost var was := out[..];
    for k := 0 to n
      invariant forall i :: 0 <= i < out.Length ==> out[i] == if i < k then 0 else was[i]
    {
      out[k] := 0;
    }
  }

  method DoDerive(prf: CipherHandle, salt: Bytes, r: Bytes, lbl: byte, out: array<byte>, outlen: nat, beyond: Bytes)
    requires |salt| == SALT_LEN && |r| < SALT_LEN && outlen <= out.Length && |beyond| == 16
    modifies prf`ctr, out
    ensures out[..outlen] == Derive(prf.ks, prf.key, salt, r, lbl, outlen)
    ensures out[outlen..] == old(out[outlen..])
  {
    var iv := BuildIv(salt, r, lbl);
    ZeroFill(out, outlen);
    ghost var zeroed := out[..];
    DoCtrCrypt(prf, iv, out, 0, outlen, beyond);
    CryptedStretch(prf.ks, prf.key, FromBe(iv), zeroed, 0, outlen, out[..]);
    assert zeroed[0..outlen] == Zeros(outlen);
    assert out[outlen..] == zeroed[outlen..];
  }

  /** One derivation into a key buffer, read out of it. */
  method DeriveKey(prf: CipherHandle, salt: Bytes, r: Bytes, lbl: byte, keybuf: array<byte>, n: nat, beyond: Bytes)
    returns (k: Bytes)
    requires |salt| == SALT_LEN && |r| < SALT_LEN && n <= keybuf.Length && |beyond| == 16
    modifies prf`ctr, keybuf
    ensures k == Derive(prf.ks, prf.key, salt, r, lbl, n)
  {
    DoDerive(prf, salt, r, lbl, keybuf, n, beyond);
    k := keybuf[..n];
  }

  /** One derivation into the first fourteen octets of a session's salt; the rest stays. */
  method DeriveSalt(prf: CipherHandle, salt: Bytes, r: Bytes, lbl: byte, was: Bytes, beyond: Bytes)
    returns (now: Bytes)
    requires |salt| == SALT_LEN && |r| < SALT_LEN && |was| == 16 && |beyond| == 16
    modifies prf`ctr
    ensures now == Derive(prf.ks, prf.key, salt, r, lbl, SALT_LEN) + was[SALT_LEN..]
  {
    var buf := new byte[16](i requires 0 <= i < 16 => was[i]);
    assert buf[..] == was;
    DoDerive(prf, salt, r, lbl, buf, SALT_LEN, beyond);
    now := buf[..];
    assert now == now[..SALT_LEN] + now[SALT_LEN..];
  }

  /** The three derivations of one half; the last two octets of its salt are not written. */
  method DeriveKeys(prf: CipherHandle, salt: Bytes, r: Bytes, lbl: byte, was: Bytes, beyond: Bytes)
    returns (keys: Keys)
    requires |salt| == SALT_LEN && |r| < SALT_LEN && lbl < 254 && |beyond| == 16
    requires |was| == 16 && was[SALT_LEN] == 0 && was[SALT_LEN + 1] == 0
    modifies prf`ctr
    ensures keys == DerivedKeys(prf.ks, prf.key, salt, r, lbl)
  {
    var keybuf := new byte[20](_ => 0);
    var cipherKey := DeriveKey(prf, salt, r, lbl, keybuf, 16, beyond);
    var authKey := DeriveKey(prf, salt, r, lbl + 1, keybuf, 20, beyond);
    var saltKey := DeriveSalt(prf, salt, r, lbl + 2, was, beyond);
    assert was[SALT_LEN..] == [0, 0];
    keys := Keys(cipherKey, authKey, saltKey);
  }

  // ----- the formula

  lemma {:induction false} FromBeZeros(n: nat, b: Bytes)
    ensures FromBe(Zeros(n) + b) == FromBe(b)
    decreases |b|, n
  {
    if b != [] {
      var k := |b| - 1;
      FromBeZeros(n, b[..k]);
      assert Zeros(n) + b == (Zeros(n) + b[..k]) + [b[k]] && b == b[..k] + [b[k]];
      FromBePush(Zeros(n) + b[..k], b[k]);
      FromBePush(b[..k], b[k]);
    } else if n > 0 {
      FromBeZeros(n - 1, []);
      assert Zeros(n) + [] == (Zeros(n - 1) + []) + [0];
      FromBePush(Zeros(n - 1) + [], 0);
    }
  }

  /** Section 4.3.3 of RFC 3711: x * 2^16 with x = key_id XOR master_salt, where by
      section 4.3.1 key_id is the label followed by r. */
  function RfcIv(salt: Bytes, r: Bytes, lbl: byte): nat {
    0x1_0000 * Xor(FromBe([lbl] + r), FromBe(salt))
  }

  function RfcMask(r: Bytes, lbl: byte): (m: Bytes)
    requires |r| == 6
    ensures |m| == 16
  {
    Zeros(7) + ([lbl] + r) + [0, 0]
  }

  lemma RfcMaskValue(salt: Bytes, r: Bytes, lbl: byte)
    requires |salt| == SALT_LEN && |r| == 6
    ensures FromBe(XorBytes(salt + [0, 0], RfcMask(r, lbl))) == RfcIv(salt, r, lbl)
  {
    var id := Zeros(7) + ([lbl] + r);
    var block := XorBytes(salt + [0, 0], id + [0, 0]);
    XorBytesPrefix(salt + [0, 0], id + [0, 0], SALT_LEN);
    XorBytesAt(salt + [0, 0], id + [0, 0], 14);
    XorBytesAt(salt + [0, 0], id + [0, 0], 15);
    XorZero(0);
    assert (salt + [0, 0])[..SALT_LEN] == salt && (id + [0, 0])[..SALT_LEN] == id;
    assert block == block[..SALT_LEN] + [0, 0];
    FromBeLowZero(XorBytes(salt, id));
    FromBeXor(salt, id);
    FromBeZeros(7, [lbl] + r);
    XorCommutes(FromBe(salt), FromBe(id));
  }

  /** The block that `do_derive` builds from a 48-bit r is the one of RFC 3711 exactly when r
      is zero, as it is at every keying: otherwise r sits 16 bits too low. */
  lemma DeriveIvIsRfcIv(salt: Bytes, r: Bytes, lbl: byte)
    requires |salt| == SALT_LEN && |r| == 6
    ensures FromBe(DeriveIv(salt, r, lbl)) == RfcIv(salt, r, lbl) <==> r == Zeros(6)
  {
    RfcMaskValue(salt, r, lbl);
    var base, code, rfc := salt + [0, 0], IvMask(r, lbl), RfcMask(r, lbl);
    if r == Zeros(6) {
      assert code == rfc;
    }
    if FromBe(DeriveIv(salt, r, lbl)) == RfcIv(salt, r, lbl) {
      FromBeInjective(XorBytes(base, code), XorBytes(base, rfc));
      XorBytesInjective(base, code, rfc);
      assert code[8] == 0 && code[9] == 0;
      assert rfc[8] == r[0] && rfc[9] == r[1] && rfc[10] == r[2];
      assert rfc[11] == r[3] && rfc[12] == r[4] && rfc[13] == r[5];
      assert code[10] == r[0] && code[11] == r[1] && code[12] == r[2] && code[13] == r[3] && code[14] == r[4];
    }
  }

  /** For the three RTP labels that is (label * 2^48 XOR salt) * 2^16. */
  lemma FirstKeyingIv(salt: Bytes, lbl: byte)
    requires |salt| == SALT_LEN
    ensures FromBe(DeriveIv(salt, Zeros(6), lbl)) == 0x1_0000 * Xor(0x1_0000_0000_0000 * lbl, FromBe(salt))
  {
    DeriveIvIsRfcIv(salt, Zeros(6), lbl);
    FromBeConcat([lbl], Zeros(6));
    assert Zeros(6) == Zeros(6) + [];
    FromBeZeros(6, []);
    ShiftTwo(FromBe([lbl]), 2);
    ShiftTwo(FromBe([lbl]), 4);
    ShiftTwo(FromBe([lbl]), 6);
    assert FromBe([lbl]) == 256 * FromBe([lbl][..0]) + lbl;
  }

  /** A four-octet r of an RTCP index: label and index follow the salt's last octets directly. */
  lemma RtcpIv(salt: Bytes, index: uint32, lbl: byte)
    requires |salt| == SALT_LEN
    ensures FromBe(DeriveIv(salt, Be32(index), lbl))
            == Xor(0x1_0000 * FromBe(salt), 0x1_0000_0000_0000 * lbl + index)
  {
    var r := Be32(index);
    var head := [lbl] + [0, 0];
    assert IvMask(r, lbl) == Zeros(9) + (head + r);
    FromBeXor(salt + [0, 0], IvMask(r, lbl));
    FromBeLowZero(salt);
    FromBeZeros(9, head + r);
    FromBeShort(head, r);
    FromBeLowZero([lbl]);
    assert FromBe([lbl]) == 256 * FromBe([lbl][..0]) + lbl;
    FromBeFour(r);
    Be32RoundTrip(index);
  }

  // ----- the octets of the session keys

  /** The octets are the keystream under a key from block `iv` on, counted modulo 2^128. */
  ghost predicate StreamFrom(ks: Keystream, key: Bytes, iv: nat, out: Bytes) {
    forall k :: 0 <= k < |out| ==>
      out[k] == ks(key, (iv + k / 16) % 0x1_0000_0000_0000_0000_0000_0000_0000_0000, k % 16)
  }

  lemma DeriveIsStream(ks: Keystream, key: Bytes, salt: Bytes, r: Bytes, lbl: byte, n: nat)
    requires |salt| == SALT_LEN && |r| < SALT_LEN
    ensures StreamFrom(ks, key, FromBe(DeriveIv(salt, r, lbl)), Derive(ks, key, salt, r, lbl, n))
  {
    var iv := FromBe(DeriveIv(salt, r, lbl));
    forall k | 0 <= k < n
      ensures Derive(ks, key, salt, r, lbl, n)[k]
              == ks(key, (iv + k / 16) % 0x1_0000_0000_0000_0000_0000_0000_0000_0000, k % 16)
    {
      CtrXorAt(ks, key, iv, Zeros(n), k);
      XorZero(CtrByte(ks, key, iv, k));
    }
  }

  /** Section 4.3 of RFC 3711 with a derivation rate of zero: the cipher key is the keystream of
      label 0, the hash key that of label 1 and the salt that of label 2. */
  lemma SessionKeyOctets(ks: Keystream, key: Bytes, salt: Bytes)
    requires |salt| == 14
    ensures var sk := SessionKeys(ks, key, salt);
            && |sk.cipher| == 16 && StreamFrom(ks, key, 0x1_0000 * FromBe(salt), sk.cipher)
            && |sk.auth| == 20 && StreamFrom(ks, key, 0x1_0000 * Xor(0x1_0000_0000_0000, FromBe(salt)), sk.auth)
            && |sk.salt| == 16 && sk.salt[14] == 0 && sk.salt[15] == 0
            && StreamFrom(ks, key, 0x1_0000 * Xor(0x2_0000_0000_0000, FromBe(salt)), sk.salt[..14])
  {
    var r := Zeros(6);
    FirstKeyingIv(salt, 0);
    FirstKeyingIv(salt, 1);
    FirstKeyingIv(salt, 2);
    XorZero(FromBe(salt));
    DeriveIsStream(ks, key, salt, r, 0, 16);
    DeriveIsStream(ks, key, salt, r, 1, 20);
    DeriveIsStream(ks, key, salt, r, 2, 14);
    assert SessionKeys(ks, key, salt).salt[..14] == Derive(ks, key, salt, r, 2, 14);
  }

  /** ... and labels 3, 4 and 5 for the RTCP half, with the index as the code places it. */
  lemma RtcpKeyOctets(ks: Keystream, key: Bytes, salt: Bytes, index: uint32)
    requires |salt| == 14
    ensures var sk, base := RtcpKeys(ks, key, salt, index), 0x1_0000 * FromBe(salt);
            && |sk.cipher| == 16 && StreamFrom(ks, key, Xor(base, 0x3_0000_0000_0000 + index), sk.cipher)
            && |sk.auth| == 20 && StreamFrom(ks, key, Xor(base, 0x4_0000_0000_0000 + index), sk.auth)
            && |sk.salt| == 16 && sk.salt[14] == 0 && sk.salt[15] == 0
            && StreamFrom(ks, key, Xor(base, 0x5_0000_0000_0000 + index), sk.salt[..14])
  {
    var r := Be32(index);
    RtcpIv(salt, index, 3);
    RtcpIv(salt, index, 4);
    RtcpIv(salt, index, 5);
    DeriveIsStream(ks, key, salt, r, 3, 16);
    DeriveIsStream(ks, key, salt, r, 4, 20);
    DeriveIsStream(ks, key, salt, r, 5, 14);
    assert RtcpKeys(ks, key, salt, index).salt[..14] == Derive(ks, key, salt, r, 5, 14);
  }

  // ----- the six derivations of one keying

  /** Labels 0 to 2 use a six-octet r, labels 3 to 5 a four-octet one, both zero. */
  function KeyingIv(salt: Bytes, lbl: byte): (iv: Bytes)
    requires |salt| == SALT_LEN && lbl < 6
    ensures |iv| == 16
  {
    if lbl < 3 then DeriveIv(salt, Zeros(6), lbl) else DeriveIv(salt, Zeros(4), lbl)
  }

  lemma KeyingIvOctets(salt: Bytes, lbl: byte)
    requires |salt| == SALT_LEN && lbl < 6
    ensures var iv := KeyingIv(salt, lbl);
            && iv[14] == 0 && iv[15] == 0
            && iv[7] == XorByteOf(salt[7], if lbl < 3 then lbl else 0)
            && iv[9] == XorByteOf(salt[9], if lbl < 3 then 0 else lbl)
  {
    var base, mask := salt + [0, 0], IvMask(if lbl < 3 then Zeros(6) else Zeros(4), lbl);
    XorBytesAt(base, mask, 7);
    XorBytesAt(base, mask, 9);
    XorBytesAt(base, mask, 14);
    XorBytesAt(base, mask, 15);
    XorZero(0);
  }

  lemma KeyingIvsDiffer(salt: Bytes, k: byte, l: byte)
    requires |salt| == SALT_LEN && k < l < 6
    ensures KeyingIv(salt, k) != KeyingIv(salt, l)
  {
    KeyingIvOctets(salt, k);
    KeyingIvOctets(salt, l);
    if KeyingIv(salt, k) == KeyingIv(salt, l) {
      if l < 3 {
        XorInjective(k, l, salt[7]);
      } else {
        XorInjective(if k < 3 then 0 else k, l, salt[9]);
      }
    }
  }

  /** All six draw on different counter blocks, within the first 2^16 of each. */
  lemma DerivationsApart(salt: Bytes, k: byte, a: nat, l: byte, b: nat)
    requires |salt| == SALT_LEN && k < l < 6 && a < 0x1_0000 && b < 0x1_0000
    ensures Mod128(FromBe(KeyingIv(salt, k)) + a) != Mod128(FromBe(KeyingIv(salt, l)) + b)
  {
    if Mod128(FromBe(KeyingIv(salt, k)) + a) == Mod128(FromBe(KeyingIv(salt, l)) + b) {
      KeyingIvOctets(salt, k);
      KeyingIvOctets(salt, l);
      SameBlock(KeyingIv(salt, k), a, KeyingIv(salt, l), b);
      KeyingIvsDiffer(salt, k, l);
    }
  }
}
