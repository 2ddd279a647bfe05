/** From a finished DTLS handshake to SRTP in both directions: the keying of
    src/transport/srtp.cr against a peer that follows libdtlssrtp. */
module EndToEnd {
  import opened RollOverCounter
  import opened Wrappers
  import opened ByteStrings
  import opened ReplayWindow
  import opened Srtp
  import opened KeyDerivation
  import opened SrtpObject
  import opened CounterCarry
  import opened Network
  import opened RtpSender
  import Dtls

  const TAG_LEN := 10

  /** An AES-CM session with a ten-octet HMAC-SHA1 tag and no flags. */
  function SessionConfig(c: Crypto, key: Bytes, salt: Bytes): Config
    requires |salt| == SALT_LEN
  {
    Config(SessionKeys(c.ks, key, salt), 0, TAG_LEN, 1)
  }

  lemma SessionConfigValid(c: Crypto, key: Bytes, salt: Bytes)
    requires |salt| == SALT_LEN
    ensures ValidConfig(SessionConfig(c, key, salt)) && RccMode(SessionConfig(c, key, salt)) == 0
  {
  }

  /** `srtp_create` followed by `srtp_setkey`. */
  method KeyedSession(c: Crypto, key: Bytes, salt: Bytes, beyond: Bytes) returns (s: SrtpSession)
    requires |key| == 16 && |salt| == SALT_LEN && |beyond| == 16
    ensures fresh(s) && fresh(s.cipher) && s.Valid() && s.crypto == c
    ensures s.Snapshot() == Session(SessionConfig(c, key, salt), Fresh)
    ensures s.flags == 0 && s.tagLen == 10 && s.rccRate == 1
  {
    s := SrtpSession.Create(c, 1, 1, TAG_LEN, 0, 0);
    var status := s.SetKey(key, salt, beyond);
  }

  /** How `SSL_read` went, as `handle_dtls` asks for it. */
  datatype Read = Data | WantRead | Failed | OtherError

  /** What `handle_dtls` comes to: an exception, nothing yet, a null pointer where the key
      material should be, or the two SRTP sessions. */
  datatype Handled = Raised | Waiting | NullMaterial | Keyed(outgoing: SrtpSession, incoming: SrtpSession)

  /** `handle_dtls`: feeds the packet to the DTLS session of this side, which was created
      PASS, and once a handshake is through creates the two SRTP sessions.  The slices taken
      from the material are the keys of the role this side then has: it sends with the
      server's key and salt and receives with the client's. */
  method HandleDtls(c: Crypto, dtls: Dtls.DtlsSess, read: Read, done: bool, material: Bytes, beyond: Bytes)
    returns (h: Handled)
    requires dtls.Valid() && dtls.start == Dtls.Pass && |material| == Dtls.MATERIAL && |beyond| == 16
    modifies dtls
    ensures dtls.Valid() && dtls.state == Dtls.Pass && dtls.finished == done
    ensures h.Raised? <==> read == Failed || read == OtherError
    ensures !h.Raised? ==> (h.Waiting? <==> !dtls.existing) && (h.Keyed? <==> dtls.existing && done)
    ensures h.Keyed? ==>
              && fresh(h.outgoing) && fresh(h.incoming) && h.outgoing.Valid() && h.incoming.Valid()
              && h.outgoing.flags == h.incoming.flags == 0 && h.outgoing.tagLen == h.incoming.tagLen == 10
              && var k := Dtls.RfcKeys(material, dtls.role);
              && h.outgoing.Snapshot() == Session(SessionConfig(c, k.localKey, k.localSalt), Fresh)
              && h.incoming.Snapshot() == Session(SessionConfig(c, k.remoteKey, k.remoteSalt), Fresh)
  {
    dtls.PutPacket(read == Failed, done);
    Dtls.StateIsFinal(dtls.start, dtls.calls, 0);
    if read == Failed || read == OtherError {
      return Raised;
    }
    if !dtls.existing {
      return Waiting;
    }
    var keyMaterial := dtls.KeyMaterial(material);
    if keyMaterial.None? {
      return NullMaterial;
    }
    var scmk, scs := material[0..16], material[32..46];
    var ssmk, sss := material[16..32], material[46..60];
    var outgoing := KeyedSession(c, ssmk, sss, beyond);
    var incoming := KeyedSession(c, scmk, scs, beyond);
    return Keyed(outgoing, incoming);
  }

  /** What this side sends with is what a client peer receives with, and the other way round,
      for every peer session that was not created HOLDCONN and finished as the client. */
  lemma BothEndsAgree(c: Crypto, peer: Dtls.ConState, calls: seq<Dtls.Call>, m: Bytes)
    requires |m| == Dtls.MATERIAL && peer != Dtls.HoldConn
    requires Dtls.RunCalls(peer, calls).finished && Dtls.RunCalls(peer, calls).role == Dtls.Connect
    ensures var here, there := Dtls.Extract(m, Dtls.Pass), Dtls.Extract(m, Dtls.RunCalls(peer, calls).state);
            && SessionConfig(c, here.localKey, here.localSalt) == SessionConfig(c, there.remoteKey, there.remoteSalt)
            && SessionConfig(c, here.remoteKey, here.remoteSalt) == SessionConfig(c, there.localKey, there.localSalt)
  {
    var server := [Dtls.PutPacket(false, true)];
    assert server[..0] == [];
    assert Dtls.RunCalls(Dtls.Pass, []) == Dtls.New(Dtls.Pass);
    Dtls.KeysCross(peer, calls, Dtls.Pass, server, m);
  }

  /** Every legal run between sessions keyed with this configuration delivers exactly and once. */
  ghost predicate SafeChannel(c: Crypto, cfg: Config)
    requires ValidConfig(cfg)
  {
    forall acts :: LegalRun(c, cfg, acts) && SoundRun(c, cfg, acts) ==> DeliveredOnceAndExactly(Run(c, cfg, acts), acts)
  }

  /** After any handshake, in both directions, over every legal run of sound packets, what
      `srtp_recv` hands out is exact; what becomes of it is told by `DecoderGets`. */
  lemma MediaArrivesExactly(c: Crypto, peer: Dtls.ConState, calls: seq<Dtls.Call>, m: Bytes)
    requires |m| == Dtls.MATERIAL && peer != Dtls.HoldConn
    requires Dtls.RunCalls(peer, calls).finished && Dtls.RunCalls(peer, calls).role == Dtls.Connect
    ensures var there := Dtls.Extract(m, Dtls.RunCalls(peer, calls).state);
            var here := Dtls.Extract(m, Dtls.Pass);
            var down := SessionConfig(c, here.localKey, here.localSalt);
            var up := SessionConfig(c, here.remoteKey, here.remoteSalt);
            && ValidConfig(down) && ValidConfig(up)
            && down == SessionConfig(c, there.remoteKey, there.remoteSalt) && SafeChannel(c, down)
            && up == SessionConfig(c, there.localKey, there.localSalt) && SafeChannel(c, up)
  {
    var here := Dtls.Extract(m, Dtls.Pass);
    BothEndsAgree(c, peer, calls, m);
    ChannelSafe(c, here.localKey, here.localSalt);
    ChannelSafe(c, here.remoteKey, here.remoteSalt);
  }

  lemma ChannelSafe(c: Crypto, key: Bytes, salt: Bytes)
    requires |salt| == SALT_LEN
    ensures ValidConfig(SessionConfig(c, key, salt)) && SafeChannel(c, SessionConfig(c, key, salt))
  {
    var cfg := SessionConfig(c, key, salt);
    SessionConfigValid(c, key, salt);
    forall acts | LegalRun(c, cfg, acts) && SoundRun(c, cfg, acts)
      ensures DeliveredOnceAndExactly(Run(c, cfg, acts), acts)
    {
      LossyNetworkSafe(c, cfg, acts);
    }
  }

  // ----- from srtp_recv to the decoder

  /** What lies in the datagram after `srtp_recv`: on success the packet, followed by the
      trailer it was cut from; otherwise what arrived. */
  function Fed(o: Outcome, w: Bytes): Bytes {
    if o.status == Ok && |o.packet| <= |w| then o.packet + w[|o.packet|..] else w
  }

  /** `handle_srtp`: sender reports are dropped; anything else goes through `srtp_recv` and
      then, whatever the status and the new length, as a whole to `handle_rtp`. */
  method HandleSrtp(s: SrtpSession, buf: array<byte>, u: Undefined, beyond: Bytes)
    returns (got: Option<Result<(Bytes, uint16)>>)
    requires s.Valid() && |beyond| == 16
    modifies s`roc, s`last, s`window, s.cipher`ctr, buf
    ensures s.Valid()
    ensures got.None? <==> buf.Length >= 2 && old(buf[..])[1] == 0xC8
    ensures got.None? || buf.Length < 2 ==> s.Snapshot() == old(s.Snapshot())
    ensures got.Some? ==>
              var w := old(buf[..]);
              var o := Recv(s.crypto, old(s.Snapshot()), w, u);
              got.value == HandleRtp(Fed(o, w)) && s.Snapshot() == o.session
  {
    if buf.Length < 2 {
      return Some(IndexError);
    }
    if buf[1] == 0xC8 {
      return None;
    }
    assert buf[..buf.Length] == buf[..];
    var status, len := s.Recv(buf, buf.Length, u, beyond);
    return Some(HandleRtp(buf[..]));
  }

  /** The trailer is what `srtp_recv` cuts off. */
  lemma TrailerCut(c: Crypto, r: Session, w: Bytes, u: Undefined)
    requires ValidConfig(r.cfg) && Recv(c, r, w, u).status == Ok
    ensures |w| >= 12 && |Recv(c, r, w, u).packet| >= 12
    ensures var t := TrailerFor(r.cfg, RtpSeq(w)); |Recv(c, r, w, u).packet| + t.roc + t.tag == |w|
  {
  }

  /** The decoder is handed the payload of an accepted packet with its trailer behind it, so
      it gets the payload that was sent if and only if there is no trailer. */
  lemma DecoderGets(c: Crypto, r: Session, w: Bytes, u: Undefined)
    requires ValidConfig(r.cfg) && Recv(c, r, w, u).status == Ok
    ensures var p := Recv(c, r, w, u).packet;
            && |w| >= 12 && 12 <= |p| <= |w|
            && HandleRtp(Fed(Recv(c, r, w, u), w)) == Success((p[12..] + w[|p|..], RtpSeq(p)))
            && (HandleRtp(Fed(Recv(c, r, w, u), w)) == HandleRtp(p) <==>
                  TrailerFor(r.cfg, RtpSeq(w)) == Trailer(0, 0))
  {
    TrailerCut(c, r, w, u);
    WithTrailer(Recv(c, r, w, u).packet, w[|Recv(c, r, w, u).packet|..]);
  }

  lemma WithTrailer(p: Bytes, trailer: Bytes)
    requires |p| >= 12
    ensures HandleRtp(p + trailer) == Success((p[12..] + trailer, RtpSeq(p)))
    ensures HandleRtp(p + trailer) == HandleRtp(p) <==> trailer == []
  {
    assert (p + trailer)[12..] == p[12..] + trailer;
    if trailer == [] {
      assert p + trailer == p;
    } else {
      assert |p[12..] + trailer| > |p[12..]|;
    }
  }

  /** With the sessions created here that is never: ten octets of tag follow every payload. */
  lemma TagReachesDecoder(c: Crypto, key: Bytes, salt: Bytes, r: Session, w: Bytes, u: Undefined)
    requires |salt| == SALT_LEN && r.cfg == SessionConfig(c, key, salt)
    requires ValidConfig(r.cfg) && Recv(c, r, w, u).status == Ok
    ensures var p := Recv(c, r, w, u).packet;
            && |w| == |p| + 10 && |p| >= 12
            && HandleRtp(Fed(Recv(c, r, w, u), w)) == Success((p[12..] + w[|p|..], RtpSeq(p)))
            && HandleRtp(Fed(Recv(c, r, w, u), w)) != HandleRtp(p)
  {
    TrailerCut(c, r, w, u);
    DecoderGets(c, r, w, u);
  }

  /** After every legal run of sound packets, in every mode, a packet that was handed out and
      arrives again is refused by `srtp_recv`, and goes to the decoder encrypted. */
  lemma DuplicateReachesDecoder(c: Crypto, cfg: Config, acts: seq<Action>, k: nat, u: Undefined)
    requires ValidConfig(cfg) && LegalRun(c, cfg, acts) && SoundRun(c, cfg, acts)
    requires k in Run(c, cfg, acts).got && k < |Run(c, cfg, acts).sent| && Legal(Run(c, cfg, acts), Deliver(k, u))
    ensures var n := Run(c, cfg, acts);
            var o := Recv(c, n.r, n.sent[k].wire, u);
            o.status == EACCES && o.session == n.r && Fed(o, n.sent[k].wire) == n.sent[k].wire
  {
    var n := Run(c, cfg, acts);
    var x := n.sent[k];
    RunKeeps(c, cfg, acts);
    RunSound(c, cfg, acts, k);
    RoundTripByIndex(c, x.origin, n.r, x.top, n.tr, x.index, x.plain, x.bufsize, x.u, u);
    GotIsOutOfReach(n, k);
  }

  lemma GotIsOutOfReach(n: Net, k: nat)
    requires ReceiverInv(n) && k in n.got && k < |n.sent|
    ensures !InReach(n.r.st, n.tr, n.sent[k].index)
  {
    var j :| 0 <= j < |n.got| && n.got[j] == k;
    assert n.sent[n.got[j]].index in GotIndices(n);
    assert Recorded(n.r.st.window, n.tr, n.sent[k].index);
  }
}
