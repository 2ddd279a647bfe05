/** The modes of roll-over counter carrying: what each one protects, and where carrying
    loses what the plain session promises (section 2 of RFC 4771; libsrtp_decrypt/srtp.c,
    lines 364-383, 550-576 and 629-681). */
module CarryModes {
  import opened Wrappers
  import opened Bits
  import opened ByteStrings
  import opened RollOverCounter
  import opened ReplayWindow
  import opened Srtp
  import opened RoundTrip
  import opened CounterCarry
  import opened Network
  import opened KeystreamUse

  // ----- what the modes protect

  /** Mode 1 tags the packets that carry the counter, mode 2 all, mode 3 none; the counter
      costs four octets of the tag, so a tag of four is used up by it. */
  predicate Tagged(cfg: Config, sn: uint16)
    requires ValidConfig(cfg)
  {
    !Unauthenticated(cfg) &&
    match RccMode(cfg)
    case 0 => cfg.tagLen > 0
    case 1 => Carries(cfg, sn) && cfg.tagLen > 4
    case 2 => Carries(cfg, sn) ==> cfg.tagLen > 4
    case _ => false
  }

  /** Exactly these packets have a tag, and with it a trailer as long as the configured tag. */
  lemma ModesProtect(cfg: Config, sn: uint16)
    requires ValidConfig(cfg)
    ensures var t := TrailerFor(cfg, sn);
            && t.roc == (if Carries(cfg, sn) then 4 else 0)
            && (t.tag > 0 <==> Tagged(cfg, sn))
            && (t.tag > 0 ==> t.roc + t.tag == cfg.tagLen)
  {
  }

  /** The receiver takes over the counter and strips it. */
  ghost predicate Obeyed(c: Crypto, r: Session, e: Bytes, rcc: uint32, tag: Bytes)
    requires ValidConfig(r.cfg) && |e| >= 12
  {
    Authenticate(c, r, e + Be32(rcc) + tag) == Outcome(Ok, r.(st := Adopt(r.st, RtpSeq(e), rcc)), e)
  }

  /** ... whatever stands in the place of the tag. */
  ghost predicate ObeyedUnderAnyTag(c: Crypto, r: Session, e: Bytes, rcc: uint32)
    requires ValidConfig(r.cfg) && |e| >= 12
  {
    forall tag: Bytes :: |tag| == TrailerFor(r.cfg, RtpSeq(e)).tag ==> Obeyed(c, r, e, rcc, tag)
  }

  /** Whatever the key and the hash, a receiver obeys every counter under every tag of the
      right length exactly when the carrying packets have none: in mode 3, and in modes 1
      and 2 with a tag of four octets, which `srtp_create` accepts. */
  lemma ForgedIffUntagged(c: Crypto, r: Session, e: Bytes, rcc: uint32)
    requires ValidConfig(r.cfg) && |e| >= 12 && Carries(r.cfg, RtpSeq(e))
    ensures ObeyedUnderAnyTag(c, r, e, rcc) <==> RccMode(r.cfg) == 3 || r.cfg.tagLen == 4
  {
    var t := TrailerFor(r.cfg, RtpSeq(e));
    CarrierTag(r.cfg, RtpSeq(e));
    if t.tag == 0 {
      UntaggedObeyed(c, r, e, rcc, t);
    } else {
      TaggedRefused(c, r, e, rcc, t);
    }
  }

  lemma CarrierTag(cfg: Config, sn: uint16)
    requires ValidConfig(cfg) && Carries(cfg, sn)
    ensures TrailerFor(cfg, sn).tag == 0 <==> RccMode(cfg) == 3 || cfg.tagLen == 4
  {
  }

  lemma TaggedRefused(c: Crypto, r: Session, e: Bytes, rcc: uint32, t: Trailer)
    requires ValidConfig(r.cfg) && |e| >= 12 && Carries(r.cfg, RtpSeq(e))
    requires t == TrailerFor(r.cfg, RtpSeq(e)) && t.tag > 0
    ensures !ObeyedUnderAnyTag(c, r, e, rcc)
  {
    var wrong := AnotherTag(Tag(c, r.cfg.keys.auth, e, rcc, t.tag));
    WrongTagRefused(c, r, e, rcc, t, wrong);
  }

  lemma AnotherTag(right: Bytes) returns (wrong: Bytes)
    requires |right| > 0
    ensures |wrong| == |right| && wrong != right
  {
    wrong := right[0 := if right[0] == 0 then 1 else 0];
    assert wrong[0] != right[0];
  }

  lemma UntaggedObeyed(c: Crypto, r: Session, e: Bytes, rcc: uint32, t: Trailer)
    requires ValidConfig(r.cfg) && |e| >= 12 && Carries(r.cfg, RtpSeq(e))
    requires t == TrailerFor(r.cfg, RtpSeq(e)) && t.tag == 0
    ensures ObeyedUnderAnyTag(c, r, e, rcc)
  {
    forall tag: Bytes | |tag| == t.tag
      ensures Obeyed(c, r, e, rcc, tag)
    {
      assert tag == Tag(c, r.cfg.keys.auth, e, rcc, 0);
      AuthenticateCarried(c, r, e, rcc, t, e + Be32(rcc) + tag);
    }
  }

  lemma WrongTagRefused(c: Crypto, r: Session, e: Bytes, rcc: uint32, t: Trailer, tag: Bytes)
    requires ValidConfig(r.cfg) && |e| >= 12 && Carries(r.cfg, RtpSeq(e))
    requires t == TrailerFor(r.cfg, RtpSeq(e)) && |tag| == t.tag && tag != Tag(c, r.cfg.keys.auth, e, rcc, t.tag)
    ensures !Obeyed(c, r, e, rcc, tag)
  {
    TrailerParts(e, Be32(rcc), tag);
    Be32RoundTrip(rcc);
    AuthenticateBy(c, r, e + Be32(rcc) + tag, t, |e|, rcc);
  }

  /** Then any sixteen octets or more that look like RTP set the receiver's counter to their last four. */
  lemma AnyoneSetsTheCounter(c: Crypto, r: Session, w: Bytes)
    requires ValidConfig(r.cfg) && |w| >= 16 && Carries(r.cfg, RtpSeq(w))
    requires RccMode(r.cfg) == 3 || r.cfg.tagLen == 4
    ensures Authenticate(c, r, w)
            == Outcome(Ok, r.(st := Adopt(r.st, RtpSeq(w), U32(w[|w| - 4..]))), w[..|w| - 4])
  {
    var len := |w| - 4;
    assert w[len..len + 4] == w[len..];
    AuthenticateBy(c, r, w, TrailerFor(r.cfg, RtpSeq(w)), len, U32(w[len..]));
  }

  lemma {:induction false} EveryMultipleOfOne(n: nat)
    ensures MultipleOf(n, 1)
  {
    if n > 0 {
      EveryMultipleOfOne(n - 1);
    }
  }

  /** The configuration with mode 2 instead of mode 1. */
  function InModeTwo(cfg: Config): Config
    requires RccMode(cfg) == 1
  {
    var flags: int := cfg.flags;
    cfg.(flags := flags + 16)
  }

  lemma ModeTwoFlags(cfg: Config)
    requires RccMode(cfg) == 1
    ensures RccMode(InModeTwo(cfg)) == 2 && InModeTwo(cfg).keys == cfg.keys
    ensures Unencrypted(InModeTwo(cfg)) == Unencrypted(cfg) && Unauthenticated(InModeTwo(cfg)) == Unauthenticated(cfg)
  {
  }

  /** At rate one, modes 1 and 2 are functionally identical: they put the same octets on the
      wire and make the same of every packet received. */
  lemma RateOneModesAgree(c: Crypto, cfg: Config, st: Replay, p: Bytes, bufsize: nat, u: Undefined)
    requires ValidConfig(cfg) && RccMode(cfg) == 1 && cfg.rccRate == 1
    ensures ValidConfig(InModeTwo(cfg))
    ensures SameBut(Send(c, Session(cfg, st), p, bufsize, u), Send(c, Session(InModeTwo(cfg), st), p, bufsize, u))
    ensures SameBut(Recv(c, Session(cfg, st), p, u), Recv(c, Session(InModeTwo(cfg), st), p, u))
  {
    ModeTwoFlags(cfg);
    if |p| >= 12 {
      EveryMultipleOfOne(RtpSeq(p));
      ModeTwoAlike(cfg, RtpSeq(p));
      AlikeSend(c, cfg, InModeTwo(cfg), st, p, bufsize, u);
      AlikeRecv(c, cfg, InModeTwo(cfg), st, p, u);
    }
  }

  /** Two configurations that treat the packets of one sequence number alike. */
  ghost predicate Alike(cfg: Config, cfg': Config, sn: uint16) {
    && ValidConfig(cfg) && ValidConfig(cfg') && cfg.keys == cfg'.keys
    && Unencrypted(cfg) == Unencrypted(cfg') && Unauthenticated(cfg) == Unauthenticated(cfg')
    && TrailerFor(cfg, sn) == TrailerFor(cfg', sn)
  }

  lemma ModeTwoAlike(cfg: Config, sn: uint16)
    requires ValidConfig(cfg) && RccMode(cfg) == 1 && MultipleOf(sn, cfg.rccRate)
    ensures Alike(cfg, InModeTwo(cfg), sn)
  {
    ModeTwoFlags(cfg);
  }

  lemma AlikeSend(c: Crypto, cfg: Config, cfg': Config, st: Replay, p: Bytes, bufsize: nat, u: Undefined)
    requires |p| >= 12 && Alike(cfg, cfg', RtpSeq(p))
    ensures SameBut(Send(c, Session(cfg, st), p, bufsize, u), Send(c, Session(cfg', st), p, bufsize, u))
  {
    CryptIgnoresMode(c, cfg, cfg', st, p, u);
  }

  lemma AlikeRecv(c: Crypto, cfg: Config, cfg': Config, st: Replay, w: Bytes, u: Undefined)
    requires |w| >= 12 && Alike(cfg, cfg', RtpSeq(w))
    ensures SameBut(Recv(c, Session(cfg, st), w, u), Recv(c, Session(cfg', st), w, u))
  {
    AlikeAuthenticate(c, cfg, cfg', st, w);
    var a := Authenticate(c, Session(cfg, st), w);
    if a.status == Ok {
      CryptIgnoresMode(c, cfg, cfg', a.session.st, a.packet, u);
    }
  }

  lemma AlikeAuthenticate(c: Crypto, cfg: Config, cfg': Config, st: Replay, w: Bytes)
    requires |w| >= 12 && Alike(cfg, cfg', RtpSeq(w))
    ensures SameBut(Authenticate(c, Session(cfg, st), w), Authenticate(c, Session(cfg', st), w))
  {
  }

  /** Equal in everything but the configuration. */
  predicate SameBut(a: Outcome, b: Outcome) {
    a.status == b.status && a.packet == b.packet && a.session.st == b.session.st
  }

  lemma CryptIgnoresMode(c: Crypto, cfg: Config, cfg': Config, st: Replay, p: Bytes, u: Undefined)
    requires |cfg.keys.salt| == 16 && cfg.keys == cfg'.keys && Unencrypted(cfg) == Unencrypted(cfg') && |p| >= 12
    ensures SameBut(Crypt(c, Session(cfg, st), p, u), Crypt(c, Session(cfg', st), p, u))
  {
  }

  // ----- late across a wrap

  /** A cipher that touches a single counter block, with a hash that accepts everything. */
  function OneBlock(n: nat): Crypto {
    Crypto((key, counter, i) => if counter == n then 1 else 0, (key, message, i) => 0)
  }

  lemma FlipsBit(x: byte)
    ensures XorByteOf(x, 1) != x && XorByteOf(x, 0) == x
  {
    XorStep(x, 1);
    XorZero(x);
  }

  lemma WrongCounterGarbles(salt: Bytes, cipher: Bytes, auth: Bytes, roc: uint32, rcc: uint32, p: Bytes, off: nat)
    returns (c: Crypto)
    requires |salt| == 16 && salt[14] == 0 && salt[15] == 0 && |p| >= 12 && 12 <= off < |p| && roc != rcc
    ensures var keys := Keys(cipher, auth, salt);
            CryptPayload(c, keys, rcc, CryptPayload(c, keys, roc, p, off), off) != p
    ensures forall key, message, i :: c.mac(key, message, i) == 0
  {
    var keys := Keys(cipher, auth, salt);
    var own := StartCounter(salt, roc, p);
    var other := StartCounter(salt, rcc, p);
    c := OneBlock(Mod128(own));
    var q := CryptPayload(c, keys, roc, p, off);
    assert q[8..12] == p[8..12] && RtpSeq(q) == RtpSeq(p);
    if Mod128(own) == Mod128(other) {
      BlocksMeet(salt, p[8..12], roc, RtpSeq(p), 0, p[8..12], rcc, RtpSeq(p), 0);
    }
    PayloadByBlocks(c, keys, roc, p, off, 0);
    PayloadByBlocks(c, keys, rcc, q, off, 0);
    FlipsBit(p[off]);
    FlipsBit(q[off]);
  }

  lemma {:induction false} SameDigests(c: Crypto, key: Bytes, m: Bytes, m': Bytes, n: nat)
    requires forall k, message, i :: c.mac(k, message, i) == 0
    ensures Digest(c, key, m, n) == Digest(c, key, m', n)
  {
    if n > 0 {
      SameDigests(c, key, m, m', n - 1);
    }
  }

  lemma SameTags(c: Crypto, key: Bytes, p: Bytes, roc: uint32, rcc: uint32, n: nat)
    requires forall k, message, i :: c.mac(k, message, i) == 0
    ensures Tag(c, key, p, roc, n) == Tag(c, key, p, rcc, n)
  {
    SameDigests(c, key, p + Be32(roc), p + Be32(rcc), n);
  }

  /** The condition of `ResyncRoundTrip` is needed: a carrying packet that is late across a
      wrap is decrypted with the wrong counter, and there is a cipher under which no receiver
      hands it out. */
  lemma LateCarrierGarbled(s: Session, p: Bytes, bufsize: nat, us: Undefined) returns (c: Crypto)
    requires ValidConfig(s.cfg) && !Unencrypted(s.cfg)
    requires |p| >= 12 && !HeaderWraps(p) && Offset(p).Some? && Offset(p).value < |p|
    requires Carries(s.cfg, RtpSeq(p)) && LateAcrossWrap(s.st, RtpSeq(p))
    requires Advance(s.st, RtpSeq(p), us).Some? && bufsize >= WireLength(s.cfg, p)
    ensures Send(c, s, p, bufsize, us).status == Ok
    ensures forall r: Session, ur :: r.cfg == s.cfg ==>
              !HandsOut(Recv(c, r, Send(c, s, p, bufsize, us).packet, ur), p)
  {
    var sn, off, keys := RtpSeq(p), Offset(p).value, s.cfg.keys;
    var own, carried := EstimatedRoc(s.st, sn), Advance(s.st, sn, us).value.roc;
    CarriedIsOwn(s.st, sn, us);
    OffsetBounds(p);
    c := WrongCounterGarbles(keys.salt, keys.cipher, keys.auth, own, carried, p, off);
    var e := CryptPayload(c, keys, own, p, off);
    assert e[..off] == p[..off];
    OffsetFromHeader(p, e);
    TagUsesEncryptionRoc(c, s, p, bufsize, us);
    SameTags(c, keys.auth, e, own, carried, TrailerFor(s.cfg, sn).tag);
    forall r: Session, ur | r.cfg == s.cfg
      ensures !HandsOut(Recv(c, r, Send(c, s, p, bufsize, us).packet, ur), p)
    {
      RecvCarried(c, r, e, carried, ur, Send(c, s, p, bufsize, us).packet);
      AssertionHolds(r.st, sn, carried);
      GarbledBy(c, r.(st := Adopt(r.st, sn, carried)), e, carried, off, p, ur);
    }
  }

  ghost predicate HandsOut(o: Outcome, p: Bytes) {
    o.status == Ok && o.packet == p
  }

  lemma GarbledBy(c: Crypto, r: Session, e: Bytes, roc: uint32, off: nat, p: Bytes, u: Undefined)
    requires |r.cfg.keys.salt| == 16 && !Unencrypted(r.cfg) && |e| >= 12 && Offset(e) == Some(off)
    requires EstimatedRoc(r.st, RtpSeq(e)) == roc && CryptPayload(c, r.cfg.keys, roc, e, off) != p
    ensures !HandsOut(Crypt(c, r, e, u), p)
  {
  }

  // ----- carriers and the window

  /** The outcome of a carrying packet: the counter is taken over, and the window decides as
      if nothing had been carried. */
  ghost predicate Obtained(r: Session, sn: uint16, rcc: uint32, p: Bytes, u: Undefined, o: Outcome) {
    var st := Adopt(r.st, sn, rcc);
    && (Advance(st, sn, u).Some? <==> Advance(r.st, sn, u).Some?)
    && if Advance(r.st, sn, u).Some? then o == Outcome(Ok, r.(st := Advance(st, sn, u).value), p)
       else o.status == EACCES && o.session == r.(st := st)
  }

  /** ... at any receiver, whatever it has seen. */
  lemma CarrierAnywhere(c: Crypto, s: Session, r: Session, p: Bytes, bufsize: nat, us: Undefined, ur: Undefined)
    requires ValidConfig(s.cfg) && s.cfg == r.cfg && |p| >= 12 && !HeaderWraps(p) && Carries(s.cfg, RtpSeq(p))
    requires Send(c, s, p, bufsize, us).status == Ok && !LateAcrossWrap(s.st, RtpSeq(p))
    ensures Obtained(r, RtpSeq(p), EstimatedRoc(s.st, RtpSeq(p)), p, ur,
                     Recv(c, r, Send(c, s, p, bufsize, us).packet, ur))
  {
    var sn := RtpSeq(p);
    var own := EstimatedRoc(s.st, sn);
    var adopted := r.(st := Adopt(r.st, sn, own));
    CarriedWire(c, s, p, bufsize, us);
    AssertionHolds(r.st, sn, own);
    AdvanceIgnoresRoc(r.st, adopted.st, sn, ur);
    if Advance(r.st, sn, ur).Some? {
      CryptTwice(c, s, adopted, p, us, ur);
    } else {
      CryptRefused(c, s, adopted, p, us, ur);
    }
    RecvCarried(c, r, Crypt(c, s, p, us).packet, own, ur, Send(c, s, p, bufsize, us).packet);
  }

  /** A refused carrier still moves the receiver: afterwards it estimates the carried counter,
      and it changed exactly when it had estimated another. */
  lemma RefusedCarrierMoves(c: Crypto, s: Session, r: Session, p: Bytes, bufsize: nat, us: Undefined, ur: Undefined)
    requires ValidConfig(s.cfg) && s.cfg == r.cfg && |p| >= 12 && !HeaderWraps(p) && Carries(s.cfg, RtpSeq(p))
    requires Send(c, s, p, bufsize, us).status == Ok && !LateAcrossWrap(s.st, RtpSeq(p))
    requires Advance(r.st, RtpSeq(p), ur).None?
    ensures var sn := RtpSeq(p);
            var o := Recv(c, r, Send(c, s, p, bufsize, us).packet, ur);
            && o.status == EACCES && EstimatedRoc(o.session.st, sn) == EstimatedRoc(s.st, sn)
            && (o.session != r <==> EstimatedRoc(r.st, sn) != EstimatedRoc(s.st, sn))
  {
    var sn := RtpSeq(p);
    CarrierAnywhere(c, s, r, p, bufsize, us, ur);
    AssertionHolds(r.st, sn, EstimatedRoc(s.st, sn));
    AdoptExpected(r.st, sn);
  }

  lemma ResyncShifts(q: int, qj: int, qi: int)
    ensures Resync(q % 0x1_0000_0000, qi % 0x1_0000_0000, qj % 0x1_0000_0000) == (q + (qi - qj)) % 0x1_0000_0000
  {
    var a, b, d := q / 0x1_0000_0000, qj / 0x1_0000_0000, qi / 0x1_0000_0000;
    var n := q % 0x1_0000_0000 + (qi % 0x1_0000_0000 - qj % 0x1_0000_0000);
    assert q + (qi - qj) == 0x1_0000_0000 * (a + d - b) + n;
  }

  /** Taking over the counter of index i moves the whole session by the distance from the
      nearest index j with the same sequence number, a multiple of 2^16. */
  lemma AdoptShifts(st: Replay, top: int, i: int, j: int)
    requires At(st, top) && j == top + Diff16(st.last, SeqOf(i))
    ensures SeqOf(j) == SeqOf(i) && At(Adopt(st, SeqOf(i), RocOf(i)), top + (i - j))
  {
    SeqOfStep(top, SeqOf(i));
    NearestIndex(top, j);
    var d := i / 0x1_0000 - j / 0x1_0000;
    assert i - j == 0x1_0000 * d;
    assert (top + (i - j)) / 0x1_0000 == top / 0x1_0000 + d;
    ResyncShifts(top / 0x1_0000, j / 0x1_0000, i / 0x1_0000);
  }

  lemma AdoptThenAdvance(st: Replay, top: int, i: int, j: int, u: Undefined)
    requires At(st, top) && j == top + Diff16(st.last, SeqOf(i))
    ensures Advance(st, SeqOf(i), u).Some? <==> Passes(st, top, j, u)
    ensures var st' := Adopt(st, SeqOf(i), RocOf(i));
            && At(st', top + (i - j))
            && (Advance(st', SeqOf(i), u).Some? ==> At(Advance(st', SeqOf(i), u).value, Max(j, top) + (i - j)))
  {
    AdoptShifts(st, top, i, j);
    AdvanceIff(st, top, j, u);
    AdvanceIff(Adopt(st, SeqOf(i), RocOf(i)), top + (i - j), i, u);
  }

  /** The receiver r moved as a carrier of index i moves it. */
  ghost predicate Shifted(r: Session, tr: int, i: int, p: Bytes, u: Undefined, o: Outcome) {
    var j := tr + Diff16(r.st.last, SeqOf(i));
    if Passes(r.st, tr, j, u) then o.status == Ok && o.packet == p && At(o.session.st, Max(j, tr) + (i - j))
    else o.status == EACCES && At(o.session.st, tr + (i - j))
  }

  lemma ObtainedShifts(r: Session, tr: int, i: int, p: Bytes, u: Undefined, o: Outcome)
    requires At(r.st, tr) && Obtained(r, SeqOf(i), RocOf(i), p, u, o)
    ensures Shifted(r, tr, i, p, u, o)
  {
    AdoptThenAdvance(r.st, tr, i, tr + Diff16(r.st.last, SeqOf(i)), u);
  }

  /** By index: a receiver at any top whatsoever hands out a carrier, seen before or not,
      exactly when its window passes the nearest index j with that sequence number, and in
      either case moves by i - j. */
  lemma CarrierShifts(c: Crypto, s: Session, r: Session, ts: int, tr: int, i: int, p: Bytes, bufsize: nat,
                      us: Undefined, ur: Undefined)
    requires ValidConfig(s.cfg) && s.cfg == r.cfg && |p| >= 12 && !HeaderWraps(p) && Carries(s.cfg, RtpSeq(p))
    requires Send(c, s, p, bufsize, us).status == Ok && !LateAcrossWrap(s.st, RtpSeq(p))
    requires At(s.st, ts) && At(r.st, tr) && SeqOf(i) == RtpSeq(p) && -0x8000 <= i - ts < 0x8000
    ensures Shifted(r, tr, i, p, ur, Recv(c, r, Send(c, s, p, bufsize, us).packet, ur))
  {
    NearestIndex(ts, i);
    CarrierAnywhere(c, s, r, p, bufsize, us, ur);
    ObtainedShifts(r, tr, i, p, ur, Recv(c, r, Send(c, s, p, bufsize, us).packet, ur));
  }

  /** So a carrier that is more than 2^15 and less than 2^16 old is handed out again, octet
      for octet, and the receiver falls back to it. */
  lemma ReplayedCarrier(c: Crypto, s: Session, r: Session, ts: int, tr: int, i: int, p: Bytes, bufsize: nat,
                        us: Undefined, ur: Undefined)
    requires ValidConfig(s.cfg) && s.cfg == r.cfg && |p| >= 12 && !HeaderWraps(p) && Carries(s.cfg, RtpSeq(p))
    requires Send(c, s, p, bufsize, us).status == Ok && !LateAcrossWrap(s.st, RtpSeq(p))
    requires At(s.st, ts) && At(r.st, tr) && SeqOf(i) == RtpSeq(p) && -0x8000 <= i - ts < 0x8000
    requires 0x8000 < tr - i < 0x1_0000
    ensures var o := Recv(c, r, Send(c, s, p, bufsize, us).packet, ur);
            o.status == Ok && o.packet == p && At(o.session.st, i)
  {
    CarrierShifts(c, s, r, ts, tr, i, p, bufsize, us, ur);
    NextRound(i);
    NearestIndex(tr, i + 0x1_0000);
  }

  lemma NextRound(i: int)
    ensures SeqOf(i + 0x1_0000) == SeqOf(i)
  {
  }

  /** On the network: from every state that keeps the invariants, delivering such a carrier
      once more hands it out twice, so legal arrivals must keep their distance. */
  lemma NetworkReplay(c: Crypto, cfg: Config, n: Net, k: nat, u: Undefined)
    requires ValidConfig(cfg) && n.r.cfg == cfg && SenderInv(c, cfg, n) && ReceiverInv(n) && k < |n.sent|
    requires Carries(cfg, SeqOf(n.sent[k].index)) && SoundSent(n.sent[k])
    requires k in n.got && 0x8000 < n.tr - n.sent[k].index < 0x1_0000
    ensures DoDeliver(c, n, k, u).got == n.got + [k] && !Distinct(DoDeliver(c, n, k, u).got)
    ensures DoDeliver(c, n, k, u).out == n.out + [n.sent[k].plain]
  {
    var x := n.sent[k];
    ReplayedCarrier(c, x.origin, n.r, x.top, n.tr, x.index, x.plain, x.bufsize, x.u, u);
    var j :| 0 <= j < |n.got| && n.got[j] == k;
    TwiceIn(n.got, j, k);
  }

  lemma TwiceIn(s: seq<nat>, j: nat, k: nat)
    requires j < |s| && s[j] == k
    ensures !Distinct(s + [k])
  {
    assert (s + [k])[j] == (s + [k])[|s|];
  }

  // ----- a run that replays

  /** Both ends stand at t, and the invariants hold. */
  ghost predicate InStep(c: Crypto, cfg: Config, n: Net, t: int) {
    && ValidConfig(cfg) && n.s.cfg == n.r.cfg == cfg && n.ts == n.tr == t
    && SenderInv(c, cfg, n) && ReceiverInv(n)
  }

  /** A well-formed packet with index i that is ahead of t by less than 2^15. */
  ghost predicate Ahead(cfg: Config, p: Bytes, i: int, t: int, bufsize: nat)
    requires ValidConfig(cfg)
  {
    && |p| >= 12 && Offset(p).Some? && !HeaderWraps(p) && RtpSeq(p) == SeqOf(i)
    && 0 < i - t < 0x8000 && bufsize >= WireLength(cfg, p)
  }

  /** The packet went on the wire and was handed out, and both ends moved up to it. */
  ghost predicate Passed(n: Net, n': Net, p: Bytes, i: int) {
    && n'.got == n.got + [|n.sent|] && |n'.sent| == |n.sent| + 1 && n.sent <= n'.sent
    && n'.sent[|n.sent|].index == i && n'.sent[|n.sent|].plain == p && SoundSent(n'.sent[|n.sent|])
  }

  lemma SendsAhead(c: Crypto, cfg: Config, n: Net, t: int, p: Bytes, i: int, bufsize: nat, u: Undefined)
    requires InStep(c, cfg, n, t) && Ahead(cfg, p, i, t, bufsize)
    ensures Send(c, n.s, p, bufsize, u).status == Ok && Diff16(n.s.st.last, RtpSeq(p)) == i - t
  {
    NearestIndex(t, i);
    AdvanceIff(n.s.st, t, i, u);
  }

  lemma Submitted(c: Crypto, cfg: Config, n: Net, t: int, p: Bytes, i: int, bufsize: nat, u: Undefined)
      returns (x: Sent, s: Session)
    requires InStep(c, cfg, n, t) && Ahead(cfg, p, i, t, bufsize)
    ensures DoSubmit(c, n, p, bufsize, u) == Record(n, x, s) && x.index == i && x.plain == p && SoundSent(x)
    ensures SenderInv(c, cfg, Record(n, x, s)) && ReceiverInv(Record(n, x, s)) && s.cfg == cfg
  {
    SendsAhead(c, cfg, n, t, p, i, bufsize, u);
    x, s := SubmitRecords(c, n, p, bufsize, u, i);
    SubmitKeeps(c, cfg, n, p, bufsize, u);
  }

  lemma HandedOver(c: Crypto, cfg: Config, n: Net, t: int, p: Bytes, i: int, bufsize: nat, u: Undefined, v: Undefined)
    requires InStep(c, cfg, n, t) && Ahead(cfg, p, i, t, bufsize)
    ensures var n' := DoDeliver(c, DoSubmit(c, n, p, bufsize, u), |n.sent|, v);
            InStep(c, cfg, n', i) && Passed(n, n', p, i)
  {
    var x, s := Submitted(c, cfg, n, t, p, i, bufsize, u);
    var mid := Record(n, x, s);
    assert mid.sent[|n.sent|] == x;
    DeliverOutcome(c, cfg, mid, |n.sent|, v);
    DeliverKeeps(c, cfg, mid, |n.sent|, v);
  }

  /** A packet is submitted and what it became, the k-th packet sent, delivered at once. */
  function AndOver(acts: seq<Action>, p: Bytes, k: nat, bufsize: nat, u: Undefined): seq<Action> {
    acts + [Submit(p, bufsize, u)] + [Deliver(k, u)]
  }

  lemma RunPush(c: Crypto, cfg: Config, acts: seq<Action>, a: Action)
    requires ValidConfig(cfg)
    ensures Run(c, cfg, acts + [a]) == Step(c, Run(c, cfg, acts), a)
  {
    assert (acts + [a])[..|acts|] == acts;
  }

  lemma RunOver(c: Crypto, cfg: Config, acts: seq<Action>, t: int, p: Bytes, k: nat, i: int, bufsize: nat, u: Undefined)
    requires ValidConfig(cfg) && InStep(c, cfg, Run(c, cfg, acts), t) && Ahead(cfg, p, i, t, bufsize)
    requires k == |Run(c, cfg, acts).sent|
    ensures var n, n' := Run(c, cfg, acts), Run(c, cfg, AndOver(acts, p, k, bufsize, u));
            InStep(c, cfg, n', i) && Passed(n, n', p, i)
  {
    HandedOver(c, cfg, Run(c, cfg, acts), t, p, i, bufsize, u, u);
    RunPush(c, cfg, acts, Submit(p, bufsize, u));
    RunPush(c, cfg, acts + [Submit(p, bufsize, u)], Deliver(k, u));
  }

  /** The first m packets were each handed out once, in order; the first one is a carrier in
      time with index i. */
  ghost predicate InOrder(n: Net, m: nat, i: int) {
    && |n.sent| == |n.got| == m > 0 && (forall l :: 0 <= l < m ==> n.got[l] == l)
    && n.sent[0].index == i && SoundSent(n.sent[0])
  }

  lemma FirstOver(c: Crypto, cfg: Config, p: Bytes, i: int, bufsize: nat, u: Undefined)
    requires ValidConfig(cfg) && Ahead(cfg, p, i, 0, bufsize)
    ensures var n := Run(c, cfg, AndOver([], p, 0, bufsize, u)); InStep(c, cfg, n, i) && InOrder(n, 1, i)
  {
    assert InStep(c, cfg, Start(cfg), 0);
    RunOver(c, cfg, [], 0, p, 0, i, bufsize, u);
  }

  lemma NextOver(c: Crypto, cfg: Config, acts: seq<Action>, m: nat, t: int, i: int, q: Bytes, j: int,
                 bufsize: nat, u: Undefined)
    requires ValidConfig(cfg) && InStep(c, cfg, Run(c, cfg, acts), t) && InOrder(Run(c, cfg, acts), m, i)
    requires Ahead(cfg, q, j, t, bufsize)
    ensures var n := Run(c, cfg, AndOver(acts, q, m, bufsize, u)); InStep(c, cfg, n, j) && InOrder(n, m + 1, i)
  {
    RunOver(c, cfg, acts, t, q, m, j, bufsize, u);
    PassedInOrder(Run(c, cfg, acts), Run(c, cfg, AndOver(acts, q, m, bufsize, u)), m, i, q, j);
  }

  lemma PassedInOrder(n: Net, n': Net, m: nat, i: int, q: Bytes, j: int)
    requires InOrder(n, m, i) && Passed(n, n', q, j)
    ensures InOrder(n', m + 1, i)
  {
    assert n'.sent[0] == n.sent[0];
  }

  /** Handing out the first packet of such a run again. */
  lemma FirstAgain(c: Crypto, cfg: Config, acts: seq<Action>, m: nat, i: int, k: int, u: Undefined)
    requires ValidConfig(cfg) && InStep(c, cfg, Run(c, cfg, acts), k) && InOrder(Run(c, cfg, acts), m, i)
    requires Carries(cfg, SeqOf(i)) && 0x8000 < k - i < 0x1_0000
    ensures !Distinct(Run(c, cfg, acts + [Deliver(0, u)]).got)
  {
    assert Run(c, cfg, acts).got[0] == 0;
    NetworkReplay(c, cfg, Run(c, cfg, acts), 0, u);
    RunPush(c, cfg, acts, Deliver(0, u));
  }

  /** Such runs exist from the very start: a carrier at index i, then packets at j and k, each
      less than 2^15 ahead of the one before and together more than 2^15 and less than 2^16
      beyond i.  The network only delivers what was sent, and hands the carrier out twice. */
  lemma ReplayRun(c: Crypto, cfg: Config, p: Bytes, i: int, q: Bytes, j: int, r: Bytes, k: int,
                  bufsize: nat, u: Undefined)
    requires ValidConfig(cfg) && Carries(cfg, SeqOf(i))
    requires Ahead(cfg, p, i, 0, bufsize) && Ahead(cfg, q, j, i, bufsize) && Ahead(cfg, r, k, j, bufsize)
    requires 0x8000 < k - i < 0x1_0000
    ensures var acts := AndOver(AndOver(AndOver([], p, 0, bufsize, u), q, 1, bufsize, u), r, 2, bufsize, u);
            !Distinct(Run(c, cfg, acts + [Deliver(0, u)]).got)
  {
    var one := AndOver([], p, 0, bufsize, u);
    var two := AndOver(one, q, 1, bufsize, u);
    FirstOver(c, cfg, p, i, bufsize, u);
    NextOver(c, cfg, one, 1, i, i, q, j, bufsize, u);
    NextOver(c, cfg, two, 2, j, i, r, k, bufsize, u);
    FirstAgain(c, cfg, AndOver(two, r, 2, bufsize, u), 3, i, k, u);
  }
}
