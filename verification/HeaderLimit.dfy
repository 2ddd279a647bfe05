/** Where the 16-bit `offset` of `srtp_crypt` (libsrtp_decrypt/srtp.c, lines 470-486) stops
    the round trip: exactly at headers of 2^16 octets and more. */
module HeaderLimit {
  import opened Wrappers
  import opened Bits
  import opened ByteStrings
  import opened RollOverCounter
  import opened ReplayWindow
  import opened CounterMode
  import opened Srtp
  import opened RoundTrip
  import opened KeystreamUse
  import opened CounterCarry
  import opened CarryModes

  /** Where the low octet of the extension length lies. */
  function LengthByte(p: Bytes): nat
    requires |p| >= 12
  {
    12 + p[0] % 16 * 4 + 3
  }

  /** A wrapped offset lies at or before the low octet of the extension length, and that
      octet is large. */
  lemma WrappedShape(p: Bytes)
    requires |p| >= 12 && HeaderWraps(p)
    ensures Offset(p).Some?
    ensures Offset(p).value <= LengthByte(p) < |p| && 15 <= LengthByte(p) < 80
    ensures p[0] / 64 == 2 && p[0] / 16 % 2 == 1 && p[LengthByte(p) - 1] == 255 && p[LengthByte(p)] >= 128
  {
    var m := LengthByte(p);
    if m < |p| {
      U16Is(p[m - 1], p[m]);
    }
  }

  /** The header of a packet that agrees up to the low length octet, which is 128 less. */
  lemma ShorterHeader(p: Bytes, q: Bytes)
    requires |p| == |q| >= 12 && HeaderWraps(p)
    requires LengthByte(p) < |p| && (forall i :: 0 <= i < LengthByte(p) ==> q[i] == p[i])
    requires 128 <= p[LengthByte(p)] && q[LengthByte(p)] == p[LengthByte(p)] - 128
    ensures FullHeader(q).Some? && 0x1_0000 > FullHeader(q).value > LengthByte(p)
  {
    WrappedShape(p);
    var m := LengthByte(p);
    U16Is(p[m - 1], p[m]);
    U16Is(q[m - 1], q[m]);
  }

  lemma XorHighBit(x: byte)
    requires x >= 128
    ensures XorByteOf(x, 128) == x - 128
  {
    var y := x - 128;
    assert Pow2(7) == 128;
    XorConcat(1, y, 1, 0, 7);
    assert Scale(1, 7) == 128 && Xor(1, 1) == 0 && Scale(0, 7) == 0;
    XorZero(y);
  }

  /** A cipher that flips the high bit of one octet of one block. */
  function OneOctet(n: nat, at: nat): Crypto {
    Crypto((key, counter, i) => if counter == n && i == at then 128 else 0, (key, message, i) => 0)
  }

  lemma SmallOffsetsApart(ctr: nat, i: nat, j: nat)
    requires i < 80 && j < 80
    requires Mod128(ctr + i / 16) == Mod128(ctr + j / 16) && i % 16 == j % 16
    ensures i == j
  {
    var a, b := i / 16, j / 16;
    var k := (ctr + a) / 0x1_0000_0000_0000_0000_0000_0000_0000_0000
             - (ctr + b) / 0x1_0000_0000_0000_0000_0000_0000_0000_0000;
    assert a - b == 0x1_0000_0000_0000_0000_0000_0000_0000_0000 * k;
  }

  /** The cipher that flips octet m of the packet. */
  function Flipping(keys: Keys, roc: uint32, p: Bytes, off: nat, m: nat): Crypto
    requires |keys.salt| == 16 && |p| >= 12 && off <= m
  {
    var ctr := StartCounter(keys.salt, roc, p);
    OneOctet(Mod128(ctr + (m - off) / 16), (m - off) % 16)
  }

  lemma FlippingOctet(keys: Keys, roc: uint32, p: Bytes, off: nat, m: nat, i: nat)
    requires |keys.salt| == 16 && |p| >= 12 && off <= m < 80 && i <= m < |p|
    ensures CryptPayload(Flipping(keys, roc, p, off, m), keys, roc, p, off)[i]
            == if i == m then XorByteOf(p[i], 128) else p[i]
  {
    var ctr := StartCounter(keys.salt, roc, p);
    if off <= i {
      PayloadByBlocks(Flipping(keys, roc, p, off, m), keys, roc, p, off, i - off);
      FlippingStream(keys.cipher, ctr, i - off, m - off);
      XorZero(p[i]);
    }
  }

  lemma FlippingStream(key: Bytes, ctr: nat, k: nat, m: nat)
    requires k < 80 && m < 80
    ensures CtrByte(OneOctet(Mod128(ctr + m / 16), m % 16).ks, key, ctr, k) == if k == m then 128 else 0
  {
    if Mod128(ctr + k / 16) == Mod128(ctr + m / 16) && k % 16 == m % 16 {
      SmallOffsetsApart(ctr, k, m);
    }
  }

  /** One octet of the header is encrypted, so the receiver computes another offset. */
  lemma FlipLength(keys: Keys, roc: uint32, p: Bytes) returns (c: Crypto)
    requires |keys.salt| == 16 && |p| >= 12 && HeaderWraps(p) && Offset(p).Some?
    ensures forall k, message, i :: c.mac(k, message, i) == 0
    ensures var q := CryptPayload(c, keys, roc, p, Offset(p).value);
            && LengthByte(p) < |p|
            && (forall i :: 0 <= i < LengthByte(p) ==> q[i] == p[i])
            && 128 <= p[LengthByte(p)] && q[LengthByte(p)] == p[LengthByte(p)] - 128
  {
    WrappedShape(p);
    var off, m := Offset(p).value, LengthByte(p);
    c := Flipping(keys, roc, p, off, m);
    forall i | 0 <= i <= m
      ensures CryptPayload(c, keys, roc, p, off)[i] == if i == m then XorByteOf(p[i], 128) else p[i]
    {
      FlippingOctet(keys, roc, p, off, m, i);
    }
    XorHighBit(p[m]);
  }

  /** A hash that never varies lets every receiver pass every tag. */
  lemma ConstantTagPasses(c: Crypto, r: Session, q: Bytes, roc: uint32, t: Trailer)
    requires ValidConfig(r.cfg) && !Unauthenticated(r.cfg) && |q| >= 12 && !Carries(r.cfg, RtpSeq(q))
    requires forall k, message, i :: c.mac(k, message, i) == 0
    requires t == TrailerFor(r.cfg, RtpSeq(q))
    ensures Authenticate(c, r, q + Tag(c, r.cfg.keys.auth, q, roc, t.tag)) == Outcome(Ok, r, q)
  {
    var est := EstimatedRoc(r.st, RtpSeq(q));
    var tag := Tag(c, r.cfg.keys.auth, q, roc, t.tag);
    assert q + [] + tag == q + tag;
    TrailerParts(q, [], tag);
    SameTags(c, r.cfg.keys.auth, q, roc, est, t.tag);
    AuthenticateBy(c, r, q + tag, t, |q|, est);
  }

  /** What the sender makes of a packet ... */
  lemma SendsCrypted(c: Crypto, s: Session, p: Bytes, bufsize: nat, u: Undefined, q: Bytes)
    requires ValidConfig(s.cfg) && |p| >= 12 && bufsize >= WireLength(s.cfg, p)
    requires Crypt(c, s, p, u).status == Ok && Crypt(c, s, p, u).packet == q
    ensures var o := Send(c, s, p, bufsize, u);
            && o.status == Ok
            && o.packet == if Unauthenticated(s.cfg) then q
                           else q + TrailerBytes(c, Crypt(c, s, p, u).session, q, TrailerFor(s.cfg, RtpSeq(p)))
  {
  }

  /** ... and what any receiver makes of that: it decrypts the same octets in some session. */
  lemma RecvOfSend(c: Crypto, s: Session, r: Session, p: Bytes, bufsize: nat, us: Undefined, ur: Undefined, q: Bytes)
    returns (r': Session)
    requires ValidConfig(s.cfg) && s.cfg == r.cfg && |p| >= 12 && bufsize >= WireLength(s.cfg, p)
    requires forall k, message, i :: c.mac(k, message, i) == 0
    requires Crypt(c, s, p, us).status == Ok && Crypt(c, s, p, us).packet == q && RtpSeq(q) == RtpSeq(p)
    ensures Send(c, s, p, bufsize, us).status == Ok && r'.cfg == r.cfg
    ensures Recv(c, r, Send(c, s, p, bufsize, us).packet, ur) == Crypt(c, r', q, ur)
  {
    var t, e := TrailerFor(s.cfg, RtpSeq(p)), Crypt(c, s, p, us).session;
    var est := EstimatedRoc(e.st, RtpSeq(q));
    SendsCrypted(c, s, p, bufsize, us, q);
    r' := r;
    if Carries(s.cfg, RtpSeq(p)) {
      r' := r.(st := Adopt(r.st, RtpSeq(q), e.st.roc));
      CarriedTagPasses(c, r, q, est, e.st.roc, ur);
    } else if !Unauthenticated(s.cfg) {
      assert TrailerBytes(c, e, q, t) == Tag(c, s.cfg.keys.auth, q, est, t.tag);
      ConstantTagPasses(c, r, q, est, t);
    }
  }

  lemma CarriedTagPasses(c: Crypto, r: Session, q: Bytes, roc: uint32, rcc: uint32, u: Undefined)
    requires ValidConfig(r.cfg) && |q| >= 12 && Carries(r.cfg, RtpSeq(q))
    requires forall k, message, i :: c.mac(k, message, i) == 0
    ensures var n := TrailerFor(r.cfg, RtpSeq(q)).tag;
            Recv(c, r, q + (Be32(rcc) + Tag(c, r.cfg.keys.auth, q, roc, n)), u)
            == Crypt(c, r.(st := Adopt(r.st, RtpSeq(q), rcc)), q, u)
  {
    var n := TrailerFor(r.cfg, RtpSeq(q)).tag;
    var tag := Tag(c, r.cfg.keys.auth, q, roc, n);
    SameTags(c, r.cfg.keys.auth, q, roc, rcc, n);
    assert q + (Be32(rcc) + tag) == q + Be32(rcc) + tag;
    RecvCarried(c, r, q, rcc, u, q + Be32(rcc) + tag);
  }

  /** A packet whose header wraps is accepted by the sender, and there is a cipher under which
      no receiver restores it: `RoundTripByIndex` needs `!HeaderWraps`. */
  lemma WrappedHeaderLost(s: Session, p: Bytes, bufsize: nat, us: Undefined) returns (c: Crypto)
    requires ValidConfig(s.cfg) && !Unencrypted(s.cfg)
    requires |p| >= 12 && HeaderWraps(p) && Advance(s.st, RtpSeq(p), us).Some?
    requires bufsize >= WireLength(s.cfg, p)
    ensures Send(c, s, p, bufsize, us).status == Ok
    ensures forall r: Session, ur :: r.cfg == s.cfg ==> Recv(c, r, Send(c, s, p, bufsize, us).packet, ur).packet != p
  {
    WrappedShape(p);
    var sn, m, keys := RtpSeq(p), LengthByte(p), s.cfg.keys;
    c := FlipLength(keys, EstimatedRoc(s.st, sn), p);
    var q := CryptPayload(c, keys, EstimatedRoc(s.st, sn), p, Offset(p).value);
    ShorterHeader(p, q);
    SendsCrypted(c, s, p, bufsize, us, q);
    forall r: Session, ur | r.cfg == s.cfg
      ensures Recv(c, r, Send(c, s, p, bufsize, us).packet, ur).packet != p
    {
      var r' := RecvOfSend(c, s, r, p, bufsize, us, ur, q);
      CryptKeepsHeader(c, r', q, ur, FullHeader(q).value, m);
    }
  }

  lemma CryptKeepsHeader(c: Crypto, r: Session, q: Bytes, u: Undefined, h: nat, m: nat)
    requires |r.cfg.keys.salt| == 16 && |q| >= 12 && m < |q|
    requires FullHeader(q) == Some(h) && m < h < 0x1_0000
    ensures Crypt(c, r, q, u).packet[m] == q[m]
  {
    var o := Crypt(c, r, q, u);
    OffsetFits(q, h);
    if h <= |q| {
      var enc := CryptPayload(c, r.cfg.keys, EstimatedRoc(r.st, RtpSeq(q)), q, h);
      assert o.packet == q || o.packet == enc;
      assert enc[m] == q[m] by { HeaderStays(c, r.cfg.keys, EstimatedRoc(r.st, RtpSeq(q)), q, h, m); }
    } else {
      assert o.packet == q;
    }
  }

  lemma HeaderStays(c: Crypto, keys: Keys, roc: uint32, q: Bytes, off: nat, m: nat)
    requires |keys.salt| == 16 && |q| >= 12 && m < off <= |q|
    ensures CryptPayload(c, keys, roc, q, off)[m] == q[m]
  {
  }
}
