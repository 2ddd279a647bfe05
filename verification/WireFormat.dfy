/** The octets of an SRTP packet, written out (libsrtp_decrypt/srtp.c, lines 461-607 and
    622-686; sections 3.1 and 4.1.1 of RFC 3711): where the payload begins, what each octet on
    the wire is, and which packets each call takes. */
module WireFormat {
  import opened Wrappers
  import opened Bits
  import opened ByteStrings
  import opened RollOverCounter
  import opened ReplayWindow
  import opened CounterMode
  import opened Srtp
  import opened RoundTrip
  import opened CounterCarry
  import opened KeystreamUse

  // ----- where the payload begins

  /** The fixed header: version 2, a padding bit that is not looked at, the number of
      contributing sources and eleven octets more. */
  function FixedHeader(padding: bool, extended: bool, sources: nat, more: Bytes): (r: Bytes)
    requires sources < 16 && |more| == 11
    ensures |r| == 12
  {
    [0x80 + (if padding then 0x20 else 0) + (if extended then 0x10 else 0) + sources] + more
  }

  /** The list of sources and the extension: a profile, the length of the data in octets, and
      the data. */
  function Extension(profile: Bytes, data: Bytes): (r: Bytes)
    requires |profile| == 2 && |data| < 0x1_0000
    ensures |r| == 4 + |data|
  {
    profile + Be16(|data|) + data
  }

  lemma FirstOctet(padding: bool, extended: bool, sources: nat)
    requires sources < 16
    ensures var b := 0x80 + (if padding then 0x20 else 0) + (if extended then 0x10 else 0) + sources;
            b < 256 && b / 64 == 2 && b % 16 == sources && (b / 16 % 2 == 1 <==> extended)
  {
  }

  /** The payload begins after the sources, and a packet cut short before it has none. */
  lemma PayloadAfterSources(padding: bool, more: Bytes, sources: nat, list: Bytes, payload: Bytes, n: nat)
    requires |more| == 11 && sources < 16 && |list| == 4 * sources && 12 <= n
    ensures var h := FixedHeader(padding, false, sources, more) + list;
            && Offset(h + payload) == Some(|h|)
            && (n < |h| ==> Offset(h[..n]).None?)
  {
    FirstOctet(padding, false, sources);
  }

  /** ... or after the extension, if there is one and the whole header fits 16 bits. */
  lemma PayloadAfterExtension(padding: bool, more: Bytes, sources: nat, list: Bytes, profile: Bytes, data: Bytes,
                              payload: Bytes, n: nat)
    requires |more| == 11 && sources < 16 && |list| == 4 * sources && |profile| == 2 && 12 <= n
    requires 16 + 4 * sources + |data| < 0x1_0000
    ensures var h := FixedHeader(padding, true, sources, more) + list + Extension(profile, data);
            && Offset(h + payload) == Some(|h|)
            && (n < |h| ==> Offset(h[..n]).None?)
  {
    var h := FixedHeader(padding, true, sources, more) + list + Extension(profile, data);
    ExtendedHeader(padding, more, sources, list, profile, data, payload, h + payload);
    OffsetFits(h + payload, |h|);
    if 12 <= n < |h| {
      CutHeader(padding, more, sources, list, profile, data, n, h[..n]);
    }
  }

  lemma ExtendedHeader(padding: bool, more: Bytes, sources: nat, list: Bytes, profile: Bytes, data: Bytes,
                       payload: Bytes, p: Bytes)
    requires |more| == 11 && sources < 16 && |list| == 4 * sources && |profile| == 2 && |data| < 0x1_0000
    requires p == FixedHeader(padding, true, sources, more) + list + Extension(profile, data) + payload
    ensures FullHeader(p) == Some(16 + 4 * sources + |data|)
  {
    FirstOctet(padding, true, sources);
    var at := 12 + 4 * sources;
    var len := Be16(|data|);
    assert p[at + 2] == len[0] && p[at + 3] == len[1];
    Be16RoundTrip(|data|);
  }

  lemma CutHeader(padding: bool, more: Bytes, sources: nat, list: Bytes, profile: Bytes, data: Bytes, n: nat, p: Bytes)
    requires |more| == 11 && sources < 16 && |list| == 4 * sources && |profile| == 2
    requires 12 <= n < 16 + 4 * sources + |data| < 0x1_0000
    requires p == (FixedHeader(padding, true, sources, more) + list + Extension(profile, data))[..n]
    ensures Offset(p).None?
  {
    FirstOctet(padding, true, sources);
    var at := 12 + 4 * sources;
    if n >= at + 4 {
      var len := Be16(|data|);
      assert p[at + 2] == len[0] && p[at + 3] == len[1];
      Be16RoundTrip(|data|);
      OffsetFits(p, 16 + 4 * sources + |data|);
    }
  }

  /** Any other version is refused. */
  lemma OtherVersions(p: Bytes)
    requires |p| >= 12 && !(0x80 <= p[0] < 0xC0)
    ensures Offset(p).None?
  {
  }

  // ----- what goes out

  /** With bit 0 of the flags set, the packet goes out as it is. */
  lemma WireInTheClear(c: Crypto, s: Session, p: Bytes, bufsize: nat, u: Undefined)
    requires ValidConfig(s.cfg) && s.cfg.flags % 2 == 1 && Send(c, s, p, bufsize, u).status == Ok
    ensures p <= Send(c, s, p, bufsize, u).packet
  {
  }

  /** The initial counter of section 4.1.1 of RFC 3711 for the packet with index i: the salt,
      the SSRC in octets 8 to 11 of the packet, and the index. */
  function RfcIv(salt: Bytes, p: Bytes, i: int): nat
    requires |salt| == 16 && |p| >= 12
  {
    Xor(0x1_0000 * FromBe(salt[..14]),
        Xor(0x1_0000_0000_0000_0000 * U32(p[8..12]), 0x1_0000 * (i % 0x1_0000_0000_0000)))
  }

  /** With bit 0 clear, the header goes out as it is, and octet j of the payload combined with
      octet j mod 16 of the keystream block j / 16 after the initial counter. */
  lemma WireEncrypted(c: Crypto, s: Session, p: Bytes, bufsize: nat, u: Undefined, top: int, i: int, off: nat, j: nat)
    requires ValidConfig(s.cfg) && s.cfg.flags % 2 == 0 && Send(c, s, p, bufsize, u).status == Ok
    requires |p| >= 12 && Offset(p) == Some(off) && off + j < |p|
    requires At(s.st, top) && -0x8000 <= i - top < 0x8000 && U16(p[2], p[3]) == i % 0x1_0000
    ensures var w := Send(c, s, p, bufsize, u).packet;
            && |w| >= |p| && w[..off] == p[..off]
            && w[off + j] == Xor(p[off + j], c.ks(s.cfg.keys.cipher,
                 (RfcIv(s.cfg.keys.salt, p, i) + j / 16) % 0x1_0000_0000_0000_0000_0000_0000_0000_0000, j % 16))
  {
    var keys, w := s.cfg.keys, Send(c, s, p, bufsize, u).packet;
    NearestIndex(top, i);
    assert SeqOf(i) == RtpSeq(p);
    WireIsEncrypted(c, s, p, bufsize, u, off);
    var e := CryptPayload(c, keys, RocOf(i), p, off);
    assert e[..off] == p[..off];
    PrefixParts(e, w, off, off + j);
    PayloadByBlocks(c, keys, RocOf(i), p, off, j);
    StartIsRfcIv(keys.salt, p, i);
  }

  lemma PrefixParts(e: Bytes, w: Bytes, off: nat, j: nat)
    requires e <= w && off <= |e| && j < |e|
    ensures w[..off] == e[..off] && w[j] == e[j]
  {
    assert w[..|e|] == e;
    assert w[..|e|][..off] == w[..off] && w[..|e|][j] == w[j];
  }

  lemma StartIsRfcIv(salt: Bytes, p: Bytes, i: int)
    requires |salt| == 16 && salt[14] == 0 && salt[15] == 0 && |p| >= 12 && RtpSeq(p) == SeqOf(i)
    ensures StartCounter(salt, RocOf(i), p) == RfcIv(salt, p, i)
  {
    CounterBlockIsRfcIv(salt, p[8..12], RocOf(i), SeqOf(i));
    IndexOfCounters(i);
  }

  /** The two counters spell the index modulo 2^48. */
  lemma IndexOfCounters(i: int)
    ensures 0x1_0000 * RocOf(i) + SeqOf(i) == i % 0x1_0000_0000_0000
  {
    var q, r := i / 0x1_0000, i % 0x1_0000;
    var a, b := q / 0x1_0000_0000, q % 0x1_0000_0000;
    assert i == 0x1_0000_0000_0000 * a + (0x1_0000 * b + r);
  }

  /** How many octets of carried counter and of tag follow, by the bits of the flags. */
  lemma TrailerByFlags(cfg: Config, sn: uint16)
    requires ValidConfig(cfg)
    ensures var authenticated, mode, carries := cfg.flags / 4 % 2 == 0, cfg.flags / 16 % 4, sn % cfg.rccRate == 0;
            var t := TrailerFor(cfg, sn);
            && (!authenticated ==> t == Trailer(0, 0))
            && (authenticated && mode == 0 ==> t == Trailer(0, cfg.tagLen))
            && (authenticated && mode == 1 ==> t == if carries then Trailer(4, cfg.tagLen - 4) else Trailer(0, 0))
            && (authenticated && mode == 2 ==>
                  t == if carries then Trailer(4, cfg.tagLen - 4) else Trailer(0, cfg.tagLen))
            && (authenticated && mode == 3 ==> t == if carries then Trailer(4, 0) else Trailer(0, 0))
  {
    MultipleOfMod(sn, cfg.rccRate);
  }

  /** The trailer is the counter of the session after the packet, and then the first octets of
      the hash of what precedes them and the packet's own counter. */
  lemma WireTrailer(c: Crypto, s: Session, p: Bytes, bufsize: nat, u: Undefined, top: int, i: int, k: nat)
    requires ValidConfig(s.cfg) && s.cfg.flags / 4 % 2 == 0 && Send(c, s, p, bufsize, u).status == Ok
    requires |p| >= 12 && !HeaderWraps(p) && k < TrailerFor(s.cfg, U16(p[2], p[3])).tag
    requires At(s.st, top) && -0x8000 <= i - top < 0x8000 && U16(p[2], p[3]) == i % 0x1_0000
    ensures var o, t := Send(c, s, p, bufsize, u), TrailerFor(s.cfg, U16(p[2], p[3]));
            && |o.packet| == |p| + t.roc + t.tag
            && (t.roc > 0 ==> o.packet[|p|..|p| + 4] == Be32(o.session.st.roc))
            && o.packet[|p| + t.roc + k]
               == c.mac(s.cfg.keys.auth, o.packet[..|p|] + Be32(i / 0x1_0000 % 0x1_0000_0000), k)
  {
    NearestIndex(top, i);
    assert SeqOf(i) == RtpSeq(p);
    TagUsesEncryptionRoc(c, s, p, bufsize, u);
    var t, e := TrailerFor(s.cfg, RtpSeq(p)), Crypt(c, s, p, u);
    var carried: Bytes := if t.roc > 0 then Be32(e.session.st.roc) else [];
    TrailerParts(e.packet, carried, Tag(c, s.cfg.keys.auth, e.packet, RocOf(i), t.tag));
    DigestAt(c, s.cfg.keys.auth, e.packet + Be32(RocOf(i)), t.tag, k);
  }

  // ----- which packets each call takes

  /** `srtp_send`, in the order of its checks. */
  lemma SendStatus(c: Crypto, s: Session, p: Bytes, bufsize: nat, u: Undefined)
    requires ValidConfig(s.cfg)
    ensures var o := Send(c, s, p, bufsize, u);
            if |p| < 12 then o.status == EINVAL
            else
              var t := TrailerFor(s.cfg, U16(p[2], p[3]));
              if bufsize < |p| + t.roc + t.tag then o.status == ENOSPC
              else if Offset(p).None? then o.status == EINVAL
              else if Advance(s.st, U16(p[2], p[3]), u).None? then o.status == EACCES
              else o.status == Ok && o.session == s.(st := Advance(s.st, U16(p[2], p[3]), u).value)
  {
  }

  /** The octets before the tag match it one by one, under the carried or the estimated counter. */
  ghost predicate TagMatches(c: Crypto, r: Session, w: Bytes, t: Trailer)
    requires |w| >= 12 + t.roc + t.tag
  {
    var len := |w| - t.roc - t.tag;
    var rcc := if t.roc >= 4 then U32(w[len..len + 4]) else EstimatedRoc(r.st, U16(w[2], w[3]));
    HashOctets(c, r.cfg.keys.auth, w[..len] + Be32(rcc), w[len + t.roc..])
  }

  /** `srtp_recv` on an authenticated session, in the order of its checks: too short, a wrong
      tag, a malformed header, a replay. */
  ghost function StatusOfRecv(c: Crypto, r: Session, w: Bytes, u: Undefined): Status
    requires ValidConfig(r.cfg)
  {
    if |w| < 12 then EINVAL
    else
      var t := TrailerFor(r.cfg, U16(w[2], w[3]));
      if |w| < 12 + t.roc + t.tag then EINVAL
      else if !TagMatches(c, r, w, t) then EACCES
      else if Offset(w[..|w| - t.roc - t.tag]).None? then EINVAL
      else if Advance(r.st, U16(w[2], w[3]), u).None? then EACCES
      else Ok
  }

  lemma RecvStatus(c: Crypto, r: Session, w: Bytes, u: Undefined)
    requires ValidConfig(r.cfg) && r.cfg.flags / 4 % 2 == 0
    ensures Recv(c, r, w, u).status == StatusOfRecv(c, r, w, u)
  {
    if |w| >= 12 && |w| >= 12 + TrailerFor(r.cfg, RtpSeq(w)).roc + TrailerFor(r.cfg, RtpSeq(w)).tag {
      var t := TrailerFor(r.cfg, RtpSeq(w));
      AuthenticateStatus(c, r, w, t);
      if TagMatches(c, r, w, t) {
        CheckedStatus(c, r, Authenticate(c, r, w), w, w[..|w| - t.roc - t.tag], u);
      }
    }
  }

  /** The rest of `srtp_recv`, once the tag has passed. */
  lemma CheckedStatus(c: Crypto, r: Session, a: Outcome, w: Bytes, p: Bytes, u: Undefined)
    requires |r.cfg.keys.salt| == 16 && 12 <= |p| <= |w| && p == w[..|p|]
    requires a.packet == p && a.session == r.(st := r.st.(roc := a.session.st.roc))
    ensures Crypt(c, a.session, p, u).status ==
            if Offset(p).None? then EINVAL else if Advance(r.st, U16(w[2], w[3]), u).None? then EACCES else Ok
  {
    AdvanceIgnoresRoc(r.st, a.session.st, RtpSeq(w), u);
    CryptStatus(c, a.session, p, u);
    assert RtpSeq(p) == RtpSeq(w);
  }

  lemma AuthenticateStatus(c: Crypto, r: Session, w: Bytes, t: Trailer)
    requires ValidConfig(r.cfg) && !Unauthenticated(r.cfg) && |w| >= 12 && t == TrailerFor(r.cfg, RtpSeq(w))
    requires |w| >= 12 + t.roc + t.tag
    ensures var a := Authenticate(c, r, w);
            && a.status == (if TagMatches(c, r, w, t) then Ok else EACCES)
            && (a.status == Ok ==> a.packet == w[..|w| - t.roc - t.tag])
            && a.session == r.(st := r.st.(roc := a.session.st.roc))
  {
    var len := |w| - t.roc - t.tag;
    var rcc := if t.roc > 0 then U32(w[len..len + 4]) else EstimatedRoc(r.st, RtpSeq(w));
    TagMatchesIff(c, r, w, t, len, rcc);
    AuthenticateBy(c, r, w, t, len, rcc);
  }

  lemma TagMatchesIff(c: Crypto, r: Session, w: Bytes, t: Trailer, len: nat, rcc: uint32)
    requires len >= 12 && len + t.roc + t.tag == |w| && (t.roc == 0 || t.roc == 4)
    requires rcc == if t.roc > 0 then U32(w[len..len + 4]) else EstimatedRoc(r.st, U16(w[2], w[3]))
    ensures TagMatches(c, r, w, t) <==> w[len + t.roc..] == Tag(c, r.cfg.keys.auth, w[..len], rcc, t.tag)
  {
    DigestIff(c, r.cfg.keys.auth, w[..len] + Be32(rcc), w[len + t.roc..]);
  }

  lemma CryptStatus(c: Crypto, s: Session, p: Bytes, u: Undefined)
    requires |s.cfg.keys.salt| == 16 && |p| >= 12
    ensures Crypt(c, s, p, u).status ==
            if Offset(p).None? then EINVAL else if Advance(s.st, RtpSeq(p), u).None? then EACCES else Ok
  {
  }

  /** ... and on a session without authentication. */
  lemma RecvStatusPlain(c: Crypto, r: Session, w: Bytes, u: Undefined)
    requires ValidConfig(r.cfg) && r.cfg.flags / 4 % 2 == 1
    ensures var o := Recv(c, r, w, u);
            if |w| < 12 || Offset(w).None? then o.status == EINVAL
            else if Advance(r.st, U16(w[2], w[3]), u).None? then o.status == EACCES
            else o.status == Ok && |o.packet| == |w|
  {
  }
}
