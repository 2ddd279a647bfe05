/** The SRTP session as values: what `srtp_crypt`, `srtp_send` and `srtp_recv` of
    libsrtp_decrypt/srtp.c compute from a session and a packet. */
module Srtp {
  import opened Wrappers
  import opened Bits
  import opened ByteStrings
  import opened RollOverCounter
  import opened ReplayWindow
  import opened CounterMode

  /** The keyed hash: (key, message, position) to digest octet. */
  type Hash = (Bytes, Bytes, nat) -> byte

  datatype Crypto = Crypto(ks: Keystream, mac: Hash)

  /** The derived session keys; the salt is 14 octets and two nul octets. */
  datatype Keys = Keys(cipher: Bytes, auth: Bytes, salt: Bytes)

  /** What stays fixed once a session is created and keyed. */
  datatype Config = Config(keys: Keys, flags: byte, tagLen: nat, rccRate: nat)

  datatype Session = Session(cfg: Config, st: Replay)

  datatype Status = Ok | EINVAL | EACCES | ENOSPC

  datatype Outcome = Outcome(status: Status, session: Session, packet: Bytes)

  predicate Unencrypted(c: Config) { c.flags % 2 == 1 }
  predicate Unauthenticated(c: Config) { c.flags / 4 % 2 == 1 }

  /** `rcc_mode`: 0 is off, 1 to 3 are the modes of section 2 of RFC 4771. */
  function RccMode(c: Config): (m: nat)
    ensures m < 4
  {
    c.flags / 16 % 4
  }

  /** What `srtp_create` and `srtp_setkey` establish. */
  ghost predicate ValidConfig(c: Config) {
    && |c.keys.salt| == 16 && c.keys.salt[14] == 0 && c.keys.salt[15] == 0
    && c.tagLen <= 20
    && 0 < c.rccRate < 0x1_0000
    && (RccMode(c) != 0 ==> c.tagLen >= 4)
  }

  /** Octets handed to `srtp_recv`, whatever they are. */
  datatype Arrived = Arrived(w: Bytes, u: Undefined)

  // ----- packets

  function RtpSeq(p: Bytes): uint16
    requires |p| >= 4
  {
    U16(p[2], p[3])
  }

  /** A header length stored in a `uint16_t`. */
  function Cut16(h: nat): uint16
    requires h < 0x2_0000
  {
    if h < 0x1_0000 then h else h - 0x1_0000
  }

  /** Where the encrypted part would begin if `offset` were not cut to 16 bits. */
  function FullHeader(p: Bytes): (r: Option<nat>)
    requires |p| >= 12
    ensures r.Some? ==> 12 <= r.value < 0x2_0000
  {
    if p[0] / 64 != 2 then None
    else
      var fixed := 12 + p[0] % 16 * 4;
      if p[0] / 16 % 2 == 0 then Some(fixed)
      else if |p| < fixed + 4 then None
      else Some(fixed + 4 + U16(p[fixed + 2], p[fixed + 3]))
  }

  /** The offset of `srtp_crypt`; `None` is the EINVAL return. */
  function Offset(p: Bytes): (r: Option<nat>)
    requires |p| >= 12
    ensures r.Some? ==> r.value <= |p|
  {
    match FullHeader(p)
    case None => None
    case Some(h) => if |p| < Cut16(h) then None else Some(Cut16(h))
  }

  /** The extension pushes the header past 2^16 octets, so `offset` comes out too small. */
  predicate HeaderWraps(p: Bytes)
    requires |p| >= 12
  {
    FullHeader(p).Some? && FullHeader(p).value >= 0x1_0000
  }

  /** The counter block of `rtp_crypt`, word by word. */
  function CounterBlock(salt: Bytes, ssrc: Bytes, roc: uint32, sn: uint16): (r: Bytes)
    requires |salt| == 16 && |ssrc| == 4
    ensures |r| == 16
  {
    XorBytes(salt, [0, 0, 0, 0] + ssrc + Be32(roc) + (Be16(sn) + [0, 0]))
  }

  /** The counter value at which a packet's keystream starts. */
  function StartCounter(salt: Bytes, roc: uint32, p: Bytes): nat
    requires |salt| == 16 && |p| >= 12
  {
    FromBe(CounterBlock(salt, p[8..12], roc, RtpSeq(p)))
  }

  function CryptPayload(c: Crypto, keys: Keys, roc: uint32, p: Bytes, off: nat): (r: Bytes)
    requires |keys.salt| == 16 && |p| >= 12 && off <= |p|
    ensures |r| == |p|
  {
    p[..off] + CtrXor(c.ks, keys.cipher, StartCounter(keys.salt, roc, p), p[off..])
  }

  // ----- srtp_crypt

  function EstimatedRoc(st: Replay, sn: uint16): uint32 {
    ComputeRoc(st.roc, st.last, sn)
  }

  function Crypt(c: Crypto, s: Session, p: Bytes, u: Undefined): (r: Outcome)
    requires |s.cfg.keys.salt| == 16 && |p| >= 12
    ensures |r.packet| == |p| && r.session.cfg == s.cfg
  {
    match Offset(p)
    case None => Outcome(EINVAL, s, p)
    case Some(off) =>
      match Advance(s.st, RtpSeq(p), u)
      case None => Outcome(EACCES, s, p)
      case Some(st) =>
        Outcome(Ok, s.(st := st),
                if Unencrypted(s.cfg) then p
                else CryptPayload(c, s.cfg.keys, EstimatedRoc(s.st, RtpSeq(p)), p, off))
  }

  // ----- tags

  /** How many octets of carried counter and of tag follow the packet. */
  datatype Trailer = Trailer(roc: nat, tag: nat)

  predicate Carries(cfg: Config, sn: uint16)
    requires cfg.rccRate > 0
  {
    !Unauthenticated(cfg) && RccMode(cfg) != 0 && MultipleOf(sn, cfg.rccRate)
  }

  function TrailerFor(cfg: Config, sn: uint16): Trailer
    requires ValidConfig(cfg)
  {
    if Unauthenticated(cfg) then Trailer(0, 0)
    else if RccMode(cfg) == 0 then Trailer(0, cfg.tagLen)
    else if MultipleOf(sn, cfg.rccRate) then
      Trailer(4, if RccMode(cfg) == 3 then 0 else cfg.tagLen - 4)
    else
      Trailer(0, if RccMode(cfg) % 2 == 1 then 0 else cfg.tagLen)
  }

  /** The first n octets of the hash of a message. */
  function Digest(c: Crypto, key: Bytes, message: Bytes, n: nat): (r: Bytes)
    ensures |r| == n
  {
    if n == 0 then [] else Digest(c, key, message, n - 1) + [c.mac(key, message, n - 1)]
  }

  /** ... in order, from the first one on. */
  lemma {:induction false} DigestAt(c: Crypto, key: Bytes, message: Bytes, n: nat, k: nat)
    requires k < n
    ensures Digest(c, key, message, n)[k] == c.mac(key, message, k)
  {
    if k < n - 1 {
      DigestAt(c, key, message, n - 1, k);
    }
  }

  /** Each octet of a string is the hash's. */
  ghost predicate HashOctets(c: Crypto, key: Bytes, message: Bytes, tag: Bytes) {
    forall k :: 0 <= k < |tag| ==> tag[k] == c.mac(key, message, k)
  }

  lemma DigestIff(c: Crypto, key: Bytes, message: Bytes, tag: Bytes)
    ensures tag == Digest(c, key, message, |tag|) <==> HashOctets(c, key, message, tag)
  {
    forall k | 0 <= k < |tag|
      ensures Digest(c, key, message, |tag|)[k] == c.mac(key, message, k)
    {
      DigestAt(c, key, message, |tag|, k);
    }
  }

  /** `rtp_digest`, cut to `n` octets. */
  function Tag(c: Crypto, key: Bytes, p: Bytes, roc: uint32, n: nat): (r: Bytes)
    ensures |r| == n
  {
    Digest(c, key, p + Be32(roc), n)
  }

  // ----- srtp_send

  /** Lines 589-597: the carried counter, if any, and the tag of an encrypted packet.  The
      counter under the tag is computed again from the session as it is now. */
  function TrailerBytes(c: Crypto, s: Session, e: Bytes, t: Trailer): (r: Bytes)
    requires |e| >= 12
    ensures |r| == (if t.roc > 0 then 4 else 0) + t.tag
  {
    (if t.roc > 0 then Be32(s.st.roc) else [])
    + Tag(c, s.cfg.keys.auth, e, EstimatedRoc(s.st, RtpSeq(e)), t.tag)
  }

  /** How long the packet is on the wire. */
  function WireLength(cfg: Config, p: Bytes): nat
    requires ValidConfig(cfg) && |p| >= 12
  {
    |p| + TrailerFor(cfg, RtpSeq(p)).roc + TrailerFor(cfg, RtpSeq(p)).tag
  }

  /** Lines 582-606: encrypt, then append the trailer. */
  function Protect(c: Crypto, s: Session, p: Bytes, u: Undefined): (r: Outcome)
    requires ValidConfig(s.cfg) && |p| >= 12
    ensures r.session.cfg == s.cfg
  {
    var e := Crypt(c, s, p, u);
    if e.status != Ok || Unauthenticated(s.cfg) then e
    else e.(packet := e.packet + TrailerBytes(c, e.session, e.packet, TrailerFor(s.cfg, RtpSeq(p))))
  }

  function Send(c: Crypto, s: Session, p: Bytes, bufsize: nat, u: Undefined): (r: Outcome)
    requires ValidConfig(s.cfg)
    ensures r.session.cfg == s.cfg
  {
    if |p| < 12 then Outcome(EINVAL, s, p)
    else if bufsize < WireLength(s.cfg, p) then Outcome(ENOSPC, s, p)
    else Protect(c, s, p, u)
  }

  // ----- srtp_recv

  /** Lines 629-683: the packet without its trailer, if the tag matches; a carried counter
      moves the session at once. */
  function Authenticate(c: Crypto, s: Session, w: Bytes): (r: Outcome)
    requires ValidConfig(s.cfg) && |w| >= 12
    ensures r.session.cfg == s.cfg
    ensures r.status == Ok ==> 12 <= |r.packet| <= |w|
  {
    if Unauthenticated(s.cfg) then Outcome(Ok, s, w)
    else
      var t := TrailerFor(s.cfg, RtpSeq(w));
      if |w| < 12 + t.roc + t.tag then Outcome(EINVAL, s, w)
      else
        var len := |w| - t.roc - t.tag;
        var est := EstimatedRoc(s.st, RtpSeq(w));
        var rcc := if t.roc > 0 then U32(w[len..len + 4]) else est;
        if w[len + t.roc..] != Tag(c, s.cfg.keys.auth, w[..len], rcc, t.tag) then Outcome(EACCES, s, w)
        else Outcome(Ok, if t.roc > 0 then s.(st := s.st.(roc := Resync(s.st.roc, rcc, est))) else s, w[..len])
  }

  /** The cases of `Authenticate`, with the parts of the packet given names. */
  lemma AuthenticateBy(c: Crypto, s: Session, w: Bytes, t: Trailer, len: nat, rcc: uint32)
    requires ValidConfig(s.cfg) && |w| >= 12 && !Unauthenticated(s.cfg)
    requires t == TrailerFor(s.cfg, RtpSeq(w)) && len + t.roc + t.tag == |w| && len >= 12
    requires rcc == if t.roc > 0 then U32(w[len..len + 4]) else EstimatedRoc(s.st, RtpSeq(w))
    ensures var est := EstimatedRoc(s.st, RtpSeq(w));
            Authenticate(c, s, w) ==
            if w[len + t.roc..] != Tag(c, s.cfg.keys.auth, w[..len], rcc, t.tag) then Outcome(EACCES, s, w)
            else Outcome(Ok, if t.roc > 0 then s.(st := s.st.(roc := Resync(s.st.roc, rcc, est))) else s, w[..len])
  {
  }

  function Recv(c: Crypto, s: Session, w: Bytes, u: Undefined): (r: Outcome)
    requires ValidConfig(s.cfg)
    ensures r.session.cfg == s.cfg
  {
    if |w| < 12 then Outcome(EINVAL, s, w)
    else
      var a := Authenticate(c, s, w);
      if a.status != Ok then a else Crypt(c, a.session, a.packet, u)
  }
}
