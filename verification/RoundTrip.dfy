/** `srtp_recv` undoes `srtp_send` for a receiver that holds the same keys and flags. */
module RoundTrip {
  import opened Wrappers
  import opened ByteStrings
  import opened RollOverCounter
  import opened ReplayWindow
  import opened CounterMode
  import opened Srtp

  // ----- what encryption leaves alone

  lemma OffsetBounds(p: Bytes)
    requires |p| >= 12 && Offset(p).Some? && !HeaderWraps(p)
    ensures FullHeader(p) == Offset(p) && Offset(p).value >= 12
  {
  }

  lemma OffsetFits(q: Bytes, h: nat)
    requires |q| >= 12 && FullHeader(q) == Some(h) && h < 0x1_0000
    ensures Offset(q) == if |q| < h then None else Some(h)
  {
    assert h % 0x1_0000 == h;
  }

  /** Every octet that decides the offset lies before it. */
  lemma OffsetFromHeader(p: Bytes, q: Bytes)
    requires |p| == |q| >= 12 && Offset(p).Some? && !HeaderWraps(p)
    requires p[..Offset(p).value] == q[..Offset(p).value]
    ensures Offset(q) == Offset(p) && !HeaderWraps(q)
    ensures RtpSeq(q) == RtpSeq(p) && q[8..12] == p[8..12]
  {
    OffsetBounds(p);
    var off := Offset(p).value;
    forall i | 0 <= i < off
      ensures p[i] == q[i]
    {
      assert p[..off][i] == q[..off][i];
    }
  }

  lemma CryptPayloadCancels(c: Crypto, keys: Keys, roc: uint32, p: Bytes, off: nat)
    requires |keys.salt| == 16 && |p| >= 12 && 12 <= off <= |p|
    ensures CryptPayload(c, keys, roc, CryptPayload(c, keys, roc, p, off), off) == p
  {
    var q := CryptPayload(c, keys, roc, p, off);
    assert q[..off] == p[..off];
    assert q[8..12] == p[8..12] && RtpSeq(q) == RtpSeq(p);
    var ctr := StartCounter(keys.salt, roc, p);
    assert q[off..] == CtrXor(c.ks, keys.cipher, ctr, p[off..]);
    CtrXorCancels(c.ks, keys.cipher, ctr, p[off..]);
    assert p == p[..off] + p[off..];
  }

  /** The counter estimate of a packet is the same before and after the session took it. */
  lemma EstimateSurvivesAdvance(st: Replay, sn: uint16, u: Undefined)
    requires Advance(st, sn, u).Some?
    ensures EstimatedRoc(Advance(st, sn, u).value, sn) == EstimatedRoc(st, sn)
  {
    if Diff16(st.last, sn) > 0 {
      assert Advance(st, sn, u).value.last == sn;
    }
  }

  /** An accepted packet: the header stays, and a session that estimates the same counter
      turns it back. */
  lemma CryptTwice(c: Crypto, s: Session, r: Session, p: Bytes, us: Undefined, ur: Undefined)
    requires |s.cfg.keys.salt| == 16 && s.cfg == r.cfg && |p| >= 12 && Offset(p).Some? && !HeaderWraps(p)
    requires Crypt(c, s, p, us).status == Ok
    requires Advance(r.st, RtpSeq(p), ur).Some?
    requires EstimatedRoc(r.st, RtpSeq(p)) == EstimatedRoc(s.st, RtpSeq(p))
    ensures RtpSeq(Crypt(c, s, p, us).packet) == RtpSeq(p)
    ensures Crypt(c, r, Crypt(c, s, p, us).packet, ur)
            == Outcome(Ok, r.(st := Advance(r.st, RtpSeq(p), ur).value), p)
  {
    OffsetBounds(p);
    var off, q := Offset(p).value, Crypt(c, s, p, us).packet;
    assert q[..off] == p[..off];
    OffsetFromHeader(p, q);
    CryptPayloadCancels(c, s.cfg.keys, EstimatedRoc(s.st, RtpSeq(p)), p, off);
  }

  /** ... and a session whose window refuses it leaves everything as it was. */
  lemma CryptRefused(c: Crypto, s: Session, r: Session, p: Bytes, us: Undefined, ur: Undefined)
    requires |s.cfg.keys.salt| == 16 && s.cfg == r.cfg && |p| >= 12 && !HeaderWraps(p)
    requires Crypt(c, s, p, us).status == Ok && Advance(r.st, RtpSeq(p), ur).None?
    ensures RtpSeq(Crypt(c, s, p, us).packet) == RtpSeq(p)
    ensures var e := Crypt(c, s, p, us).packet; Crypt(c, r, e, ur) == Outcome(EACCES, r, e)
  {
    OffsetBounds(p);
    var off, q := Offset(p).value, Crypt(c, s, p, us).packet;
    assert q[..off] == p[..off];
    OffsetFromHeader(p, q);
  }

  /** `srtp_send` puts under the tag the counter it encrypted with, although it computes it
      again after the session moved on: early, late or across a wrap. */
  lemma TagUsesEncryptionRoc(c: Crypto, s: Session, p: Bytes, bufsize: nat, u: Undefined)
    requires ValidConfig(s.cfg) && |p| >= 12 && !HeaderWraps(p)
    requires Send(c, s, p, bufsize, u).status == Ok && !Unauthenticated(s.cfg)
    ensures var e := Crypt(c, s, p, u);
            var t := TrailerFor(s.cfg, RtpSeq(p));
            var o := Send(c, s, p, bufsize, u);
            && o.session == e.session
            && o.packet == e.packet + (if t.roc > 0 then Be32(e.session.st.roc) else [])
                           + Tag(c, s.cfg.keys.auth, e.packet, EstimatedRoc(s.st, RtpSeq(p)), t.tag)
  {
    var e := Crypt(c, s, p, u);
    OffsetBounds(p);
    assert e.packet[..Offset(p).value] == p[..Offset(p).value];
    OffsetFromHeader(p, e.packet);
    EstimateSurvivesAdvance(s.st, RtpSeq(p), u);
  }

  lemma SendAdvances(c: Crypto, s: Session, p: Bytes, bufsize: nat, u: Undefined)
    requires ValidConfig(s.cfg) && Send(c, s, p, bufsize, u).status == Ok
    ensures |p| >= 12 && Send(c, s, p, bufsize, u).session.cfg == s.cfg
    ensures Advance(s.st, RtpSeq(p), u) == Some(Send(c, s, p, bufsize, u).session.st)
  {
  }

  /** What the receiver cuts off is what the sender put on. */
  lemma TrailerParts(e: Bytes, carried: Bytes, tag: Bytes)
    requires |e| >= 12
    ensures var w := e + carried + tag;
            && w[..|e|] == e && w[|e| + |carried|..] == tag && w[|e|..|e| + |carried|] == carried
            && RtpSeq(w) == RtpSeq(e)
  {
  }

  /** Packets that carry no counter: every mode when off, and modes 1 to 3 between carriers. */
  lemma RoundTripPlain(c: Crypto, s: Session, r: Session, p: Bytes, bufsize: nat, us: Undefined, ur: Undefined)
    requires ValidConfig(s.cfg) && s.cfg == r.cfg && |p| >= 12 && !HeaderWraps(p)
    requires !Carries(s.cfg, RtpSeq(p))
    requires Send(c, s, p, bufsize, us).status == Ok
    requires Advance(r.st, RtpSeq(p), ur).Some?
    requires EstimatedRoc(r.st, RtpSeq(p)) == EstimatedRoc(s.st, RtpSeq(p))
    ensures Recv(c, r, Send(c, s, p, bufsize, us).packet, ur)
            == Outcome(Ok, r.(st := Advance(r.st, RtpSeq(p), ur).value), p)
  {
    var e := Crypt(c, s, p, us);
    CryptTwice(c, s, r, p, us, ur);
    if !Unauthenticated(s.cfg) {
      TagUsesEncryptionRoc(c, s, p, bufsize, us);
      var t := TrailerFor(s.cfg, RtpSeq(p));
      var tag := Tag(c, s.cfg.keys.auth, e.packet, EstimatedRoc(s.st, RtpSeq(p)), t.tag);
      TrailerParts(e.packet, [], tag);
    }
  }

  /** A refused packet is refused with EACCES and leaves the session as it was. */
  lemma RefusedPlain(c: Crypto, s: Session, r: Session, p: Bytes, bufsize: nat, us: Undefined, ur: Undefined)
    requires ValidConfig(s.cfg) && s.cfg == r.cfg && |p| >= 12 && !HeaderWraps(p)
    requires !Carries(s.cfg, RtpSeq(p))
    requires Send(c, s, p, bufsize, us).status == Ok
    requires Advance(r.st, RtpSeq(p), ur).None?
    requires EstimatedRoc(r.st, RtpSeq(p)) == EstimatedRoc(s.st, RtpSeq(p))
    ensures var o := Recv(c, r, Send(c, s, p, bufsize, us).packet, ur); o.status == EACCES && o.session == r
  {
    var e := Crypt(c, s, p, us);
    CryptRefused(c, s, r, p, us, ur);
    if !Unauthenticated(s.cfg) {
      TagUsesEncryptionRoc(c, s, p, bufsize, us);
      var t := TrailerFor(s.cfg, RtpSeq(p));
      var tag := Tag(c, s.cfg.keys.auth, e.packet, EstimatedRoc(s.st, RtpSeq(p)), t.tag);
      TrailerParts(e.packet, [], tag);
    }
  }
}
