/** Roll-over counter carrying: what a carried counter does to a receiver (section 2 of
    RFC 4771; libsrtp_decrypt/srtp.c, lines 554-571, 592-597 and 632-681). */
module CounterCarry {
  import opened Wrappers
  import opened ByteStrings
  import opened RollOverCounter
  import opened ReplayWindow
  import opened Srtp
  import opened RoundTrip

  /** The packet lies on the far side of a wrap behind the sender's highest packet. */
  predicate LateAcrossWrap(st: Replay, sn: uint16) {
    Diff16(st.last, sn) < 0 && sn > st.last
  }

  /** The sender carries its own highest counter; that is the packet's counter exactly when
      the packet is not late across a wrap. */
  lemma CarriedIsOwn(st: Replay, sn: uint16, u: Undefined)
    requires Advance(st, sn, u).Some?
    ensures Advance(st, sn, u).value.roc == EstimatedRoc(st, sn) <==> !LateAcrossWrap(st, sn)
  {
    WrapsMove(st.roc);
  }

  /** The receiver's session after it took over a carried counter. */
  function Adopt(st: Replay, sn: uint16, rcc: uint32): Replay {
    st.(roc := Resync(st.roc, rcc, EstimatedRoc(st, sn)))
  }

  /** Whether a packet passes does not depend on the counter. */
  lemma AdvanceIgnoresRoc(st: Replay, st': Replay, sn: uint16, u: Undefined)
    requires st' == st.(roc := st'.roc)
    ensures Advance(st, sn, u).Some? <==> Advance(st', sn, u).Some?
    ensures Advance(st, sn, u).Some? ==>
              && Advance(st', sn, u).value.last == Advance(st, sn, u).value.last
              && Advance(st', sn, u).value.window == Advance(st, sn, u).value.window
  {
  }

  /** The assertion after the resynchronisation never fails, whatever the session held. */
  lemma AssertionHolds(st: Replay, sn: uint16, rcc: uint32)
    ensures EstimatedRoc(Adopt(st, sn, rcc), sn) == rcc
  {
    ResyncHitsCarried(st.roc, st.last, sn, rcc);
  }

  lemma CarriedWire(c: Crypto, s: Session, p: Bytes, bufsize: nat, u: Undefined)
    requires ValidConfig(s.cfg) && |p| >= 12 && !HeaderWraps(p) && Carries(s.cfg, RtpSeq(p))
    requires Send(c, s, p, bufsize, u).status == Ok && !LateAcrossWrap(s.st, RtpSeq(p))
    ensures var e := Crypt(c, s, p, u);
            var own := EstimatedRoc(s.st, RtpSeq(p));
            Send(c, s, p, bufsize, u).packet
            == e.packet + Be32(own) + Tag(c, s.cfg.keys.auth, e.packet, own, TrailerFor(s.cfg, RtpSeq(p)).tag)
  {
    SendAdvances(c, s, p, bufsize, u);
    TagUsesEncryptionRoc(c, s, p, bufsize, u);
    CarriedIsOwn(s.st, RtpSeq(p), u);
  }

  lemma AuthenticateCarried(c: Crypto, r: Session, e: Bytes, rcc: uint32, t: Trailer, w: Bytes)
    requires ValidConfig(r.cfg) && |e| >= 12 && Carries(r.cfg, RtpSeq(e))
    requires t == TrailerFor(r.cfg, RtpSeq(e)) && w == e + Be32(rcc) + Tag(c, r.cfg.keys.auth, e, rcc, t.tag)
    ensures Authenticate(c, r, w) == Outcome(Ok, r.(st := Adopt(r.st, RtpSeq(e), rcc)), e)
  {
    var tag := Tag(c, r.cfg.keys.auth, e, rcc, t.tag);
    TrailerParts(e, Be32(rcc), tag);
    Be32RoundTrip(rcc);
    AuthenticateBy(c, r, w, t, |e|, rcc);
  }

  lemma RecvCarried(c: Crypto, r: Session, e: Bytes, rcc: uint32, u: Undefined, w: Bytes)
    requires ValidConfig(r.cfg) && |e| >= 12 && Carries(r.cfg, RtpSeq(e))
    requires w == e + Be32(rcc) + Tag(c, r.cfg.keys.auth, e, rcc, TrailerFor(r.cfg, RtpSeq(e)).tag)
    ensures Recv(c, r, w, u) == Crypt(c, r.(st := Adopt(r.st, RtpSeq(e), rcc)), e, u)
  {
    AuthenticateCarried(c, r, e, rcc, TrailerFor(r.cfg, RtpSeq(e)), w);
  }

  /** A receiver with any counter whatsoever restores a carrying packet that passes its
      window; if the packet is ahead, the receiver then stands at the packet's index. */
  lemma ResyncRoundTrip(c: Crypto, s: Session, r: Session, p: Bytes, bufsize: nat, us: Undefined, ur: Undefined)
    requires ValidConfig(s.cfg) && s.cfg == r.cfg && |p| >= 12 && !HeaderWraps(p) && Carries(s.cfg, RtpSeq(p))
    requires Send(c, s, p, bufsize, us).status == Ok && !LateAcrossWrap(s.st, RtpSeq(p))
    requires Advance(r.st, RtpSeq(p), ur).Some?
    ensures var o := Recv(c, r, Send(c, s, p, bufsize, us).packet, ur);
            && o.status == Ok && o.packet == p
            && o.session.st.window == Advance(r.st, RtpSeq(p), ur).value.window
            && (Diff16(r.st.last, RtpSeq(p)) > 0 ==>
                  o.session.st.roc == EstimatedRoc(s.st, RtpSeq(p)) && o.session.st.last == RtpSeq(p))
  {
    var sn := RtpSeq(p);
    var own := EstimatedRoc(s.st, sn);
    var adopted := r.(st := Adopt(r.st, sn, own));
    var e := Crypt(c, s, p, us);
    CarriedWire(c, s, p, bufsize, us);
    AssertionHolds(r.st, sn, own);
    AdvanceIgnoresRoc(r.st, adopted.st, sn, ur);
    CryptTwice(c, s, adopted, p, us, ur);
    RecvCarried(c, r, e.packet, own, ur, Send(c, s, p, bufsize, us).packet);
  }

  /** In order at both ends, sender and receiver agree on the counters afterwards. */
  lemma ResyncInOrder(c: Crypto, s: Session, r: Session, p: Bytes, bufsize: nat, us: Undefined, ur: Undefined)
    requires ValidConfig(s.cfg) && s.cfg == r.cfg && |p| >= 12 && !HeaderWraps(p) && Carries(s.cfg, RtpSeq(p))
    requires Send(c, s, p, bufsize, us).status == Ok
    requires Diff16(s.st.last, RtpSeq(p)) > 0 && Diff16(r.st.last, RtpSeq(p)) > 0
    ensures var sent := Send(c, s, p, bufsize, us);
            var got := Recv(c, r, sent.packet, ur);
            && got.status == Ok && got.packet == p
            && got.session.st.roc == sent.session.st.roc && got.session.st.last == sent.session.st.last
  {
    SendAdvances(c, s, p, bufsize, us);
    ResyncRoundTrip(c, s, r, p, bufsize, us, ur);
  }

  // ----- by packet index, in every mode

  /** The packet carries its own counter, if any: modes 1 to 3 lose those late across a wrap. */
  predicate InTime(s: Session, sn: uint16)
    requires s.cfg.rccRate > 0
  {
    Carries(s.cfg, sn) ==> !LateAcrossWrap(s.st, sn)
  }

  /** What a receiver whose window decides makes of the packet p with index i on the wire. */
  ghost predicate ByWindow(c: Crypto, r: Session, tr: int, i: int, p: Bytes, w: Bytes, u: Undefined)
    requires ValidConfig(r.cfg)
  {
    var o := Recv(c, r, w, u);
    if InReach(r.st, tr, i) then
      && o.status == Ok && o.packet == p
      && o.session.cfg == r.cfg && Advance(r.st, SeqOf(i), u) == Some(o.session.st)
    else
      o.status == EACCES && o.session == r
  }

  /** A receiver that expected the carried counter anyway stays where it is. */
  lemma AdoptExpected(st: Replay, sn: uint16)
    ensures Adopt(st, sn, EstimatedRoc(st, sn)) == st
  {
  }

  lemma CarriedByIndex(c: Crypto, s: Session, r: Session, tr: int, i: int, p: Bytes, bufsize: nat,
                       us: Undefined, ur: Undefined)
    requires ValidConfig(s.cfg) && s.cfg == r.cfg && |p| >= 12 && !HeaderWraps(p)
    requires Carries(s.cfg, RtpSeq(p)) && !LateAcrossWrap(s.st, RtpSeq(p))
    requires SeqOf(i) == RtpSeq(p) && Send(c, s, p, bufsize, us).status == Ok
    requires Advance(r.st, RtpSeq(p), ur).Some? <==> InReach(r.st, tr, i)
    requires EstimatedRoc(r.st, RtpSeq(p)) == EstimatedRoc(s.st, RtpSeq(p))
    ensures ByWindow(c, r, tr, i, p, Send(c, s, p, bufsize, us).packet, ur)
  {
    var sn, e := RtpSeq(p), Crypt(c, s, p, us).packet;
    CarriedWire(c, s, p, bufsize, us);
    if InReach(r.st, tr, i) {
      CryptTwice(c, s, r, p, us, ur);
    } else {
      CryptRefused(c, s, r, p, us, ur);
    }
    AdoptExpected(r.st, sn);
    RecvCarried(c, r, e, EstimatedRoc(r.st, sn), ur, Send(c, s, p, bufsize, us).packet);
  }

  /** The round trip in terms of packet indices, in every mode.  The sender's top is `ts`, the
      receiver's is `tr`, the packet has index `i`; the sender accepted it.  The receiver
      restores the exact octets if the packet is ahead by less than 2^15, or behind and in
      reach of the window, and refuses it otherwise. */
  lemma RoundTripByIndex(c: Crypto, s: Session, r: Session, ts: int, tr: int, i: int, p: Bytes, bufsize: nat,
                         us: Undefined, ur: Undefined)
    requires ValidConfig(s.cfg) && s.cfg == r.cfg && |p| >= 12 && !HeaderWraps(p)
    requires InTime(s, RtpSeq(p))
    requires At(s.st, ts) && At(r.st, tr) && SeqOf(i) == RtpSeq(p)
    requires -0x8000 <= i - ts < 0x8000 && -0x8000 < i - tr < 0x8000
    requires Send(c, s, p, bufsize, us).status == Ok
    ensures ByWindow(c, r, tr, i, p, Send(c, s, p, bufsize, us).packet, ur)
  {
    NearestIndex(ts, i);
    NearestIndex(tr, i);
    AdvanceIff(r.st, tr, i, ur);
    if Carries(s.cfg, RtpSeq(p)) {
      CarriedByIndex(c, s, r, tr, i, p, bufsize, us, ur);
    } else if InReach(r.st, tr, i) {
      RoundTripPlain(c, s, r, p, bufsize, us, ur);
    } else {
      RefusedPlain(c, s, r, p, bufsize, us, ur);
    }
  }
}
