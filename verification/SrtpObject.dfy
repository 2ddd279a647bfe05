/** The session object of libsrtp_decrypt/srtp.c: `srtp_crypt`, `srtp_send` and `srtp_recv`
    as they work in place on a packet buffer, proved against the value model. */
module SrtpObject {
  import opened Wrappers
  import opened Bits
  import opened ByteStrings
  import opened RollOverCounter
  import opened ReplayWindow
  import opened CounterMode
  import opened Srtp
  import opened KeyDerivation

  /** Overwrites the buffer from `at` on. */
  method CopyTo(buf: array<byte>, at: nat, text: Bytes)
    requires at + |text| <= buf.Length
    modifies buf
    ensures buf[..] == old(buf[..at]) + text + old(buf[at + |text|..])
  {
    ghost var was := buf[..];
    for k := 0 to |text|
      invariant forall i :: 0 <= i < buf.Length ==> buf[i] == if at <= i < at + k then text[i - at] else was[i]
    {
      buf[at + k] := text[k];
    }
  }

  /** Lines 466-486: the encryption offset, with `offset` kept in 16 bits. */
  method ComputeOffset(buf: array<byte>, len: nat) returns (r: Option<nat>)
    requires 12 <= len <= buf.Length
    ensures r == Offset(buf[..len])
  {
    ghost var p := buf[..len];
    if buf[0] / 64 != 2 {
      return None;
    }
    var offset := 12;
    offset := offset + buf[0] % 16 * 4;
    ghost var full := offset;
    if buf[0] / 16 % 2 == 1 {
      offset := offset + 4;
      if len < offset {
        return None;
      }
      var extlen := U16(buf[offset - 2], buf[offset - 1]);
      full := offset + extlen;
      offset := (offset + extlen) % 0x1_0000;
    }
    assert FullHeader(p) == Some(full);
    assert offset == Cut16(full);
    if len < offset {
      return None;
    }
    return Some(offset);
  }

  /** `flags & ~SRTP_FLAGS_MASK` is zero: bits 0, 1, 2, 4 and 5 only. */
  predicate FlagsInMask(flags: nat) {
    flags < 64 && flags / 8 % 2 == 0
  }

  class SrtpSession {
    const crypto: Crypto
    const cipher: CipherHandle
    var macKey: Bytes
    var salt: Bytes
    var flags: byte
    var tagLen: nat
    var rccRate: nat
    var roc: uint32
    var last: uint16
    var window: uint64
    var rtcp: Keys
    var rtcpIndex: uint32

    /** The session as a value. */
    ghost function Snapshot(): Session
      reads this, cipher
    {
      Session(Config(Keys(cipher.key, macKey, salt), flags, tagLen, rccRate), Replay(roc, last, window))
    }

    ghost predicate Valid()
      reads this, cipher
    {
      && cipher.ks == crypto.ks && ValidConfig(Snapshot().cfg)
      && |rtcp.salt| == 16 && rtcp.salt[14] == 0 && rtcp.salt[15] == 0
    }

    /** `srtp_create` after its argument checks, and before keying: everything is zero. */
    constructor (crypto: Crypto, flags: byte, tagLen: nat)
      requires tagLen <= 20 && (flags / 16 % 4 != 0 ==> tagLen >= 4)
      ensures Valid() && fresh(cipher) && this.crypto == crypto
      ensures Snapshot().st == Fresh && this.flags == flags && this.tagLen == tagLen && rccRate == 1
      ensures rtcpIndex == 0
    {
      this.crypto := crypto;
      cipher := new CipherHandle(crypto.ks);
      macKey := [];
      salt := [0, 0, 0, 0, 0, 0, 0, 0, 0, 0, 0, 0, 0, 0, 0, 0];
      this.flags := flags;
      this.tagLen := tagLen;
      rccRate := 1;
      roc, last, window := 0, 0, 0;
      rtcp, rtcpIndex := Keys([], [], [0, 0, 0, 0, 0, 0, 0, 0, 0, 0, 0, 0, 0, 0, 0, 0]), 0;
    }

    /** `srtp_create`: a session exists exactly when the arguments are supported. */
    static method Create(crypto: Crypto, encr: int, auth: int, tagLen: nat, prf: int, flags: nat)
      returns (s: SrtpSession?)
      ensures s != null <==>
              && FlagsInMask(flags) && (encr == 0 || encr == 1) && (auth == 0 || auth == 1) && prf == 0
              && tagLen <= (if auth == 1 then 20 else 0)
              && (flags / 16 % 4 != 0 ==> tagLen >= 4)
      ensures s != null ==> fresh(s) && fresh(s.cipher) && s.Valid() && s.crypto == crypto
      ensures s != null ==> s.Snapshot().st == Fresh && s.flags == flags && s.tagLen == tagLen && s.rccRate == 1
    {
      if !FlagsInMask(flags) {
        return null;
      }
      if encr != 0 && encr != 1 {
        return null;
      }
      var digestLen;
      if auth == 0 {
        digestLen := 0;
      } else if auth == 1 {
        digestLen := 20;
      } else {
        return null;
      }
      if tagLen > digestLen || prf != 0 {
        return null;
      }
      if flags / 16 % 4 != 0 && tagLen < 4 {
        return null;
      }
      s := new SrtpSession(crypto, flags, tagLen);
    }

    /** `srtp_setkey`: the session keys of both halves come from the master key and salt and
        nothing else changes; a wrong length is EINVAL and changes nothing.  The last two
        octets of the salts are never written, so they stay nul. */
    method SetKey(key: Bytes, masterSalt: Bytes, beyond: Bytes) returns (status: Status)
      requires Valid() && |beyond| == 16
      modifies this`macKey, this`salt, this`rtcp, cipher`key
      ensures Valid()
      ensures status == if |masterSalt| == SALT_LEN && |key| == 16 then Ok else EINVAL
      ensures Snapshot() == if status != Ok then old(Snapshot()) else
                old(Snapshot()).(cfg := old(Snapshot()).cfg.(keys := SessionKeys(crypto.ks, key, masterSalt)))
      ensures rtcp == if status != Ok then old(rtcp) else RtcpKeys(crypto.ks, key, masterSalt, rtcpIndex)
    {
      if |masterSalt| != SALT_LEN || |key| != 16 {
        return EINVAL;
      }
      var prf := new CipherHandle(crypto.ks);
      prf.key := key;
      var rtp := DeriveKeys(prf, masterSalt, Zeros(6), 0, salt, beyond);
      cipher.key, macKey, salt := rtp.cipher, rtp.auth, rtp.salt;
      rtcp := DeriveKeys(prf, masterSalt, Be32(rtcpIndex), 3, rtcp.salt, beyond);
      return Ok;
    }

    /** Lines 494-509: moves the window, or refuses. */
    method Update(sn: uint16, packetRoc: uint32, u: Undefined) returns (ok: bool)
      requires packetRoc == ComputeRoc(roc, last, sn)
      modifies this`roc, this`last, this`window
      ensures ok == Advance(old(Snapshot()).st, sn, u).Some?
      ensures Snapshot() == if !ok then old(Snapshot()) else
                old(Snapshot()).(st := Advance(old(Snapshot()).st, sn, u).value)
    {
      var diff := Diff16(last, sn);
      if diff > 0 {
        window := ShiftLeft(window, diff, u.left);
        window := OrWord(window, 1);
        last, roc := sn, packetRoc;
      } else {
        diff := Negate16(diff);
        if diff >= 64 || ShiftRight(window, diff, u.right) % 2 == 1 {
          return false;
        }
        window := OrWord(window, ShiftLeft(1, diff, u.left));
      }
      return true;
    }

    /** `srtp_crypt`. */
    method Crypt(buf: array<byte>, len: nat, u: Undefined, beyond: Bytes) returns (status: Status)
      requires Valid() && 12 <= len <= buf.Length && |beyond| == 16
      modifies this`roc, this`last, this`window, cipher`ctr, buf
      ensures Srtp.Crypt(crypto, old(Snapshot()), old(buf[..len]), u) == Outcome(status, Snapshot(), buf[..len])
      ensures buf[len..] == old(buf[len..]) && Valid()
    {
      ghost var was, p := buf[..], buf[..len];
      assert buf[8..12] == p[8..12];
      var offset := ComputeOffset(buf, len);
      if offset.None? {
        return EINVAL;
      }
      var sn := RtpSeq(buf[..len]);
      var packetRoc := ComputeRoc(roc, last, sn);
      var ok := Update(sn, packetRoc, u);
      if !ok {
        return EACCES;
      }
      if flags % 2 == 1 {
        return Ok;
      }
      var counter := CounterBlock(salt, buf[8..12], packetRoc, sn);
      DoCtrCrypt(cipher, counter, buf, offset.value, len - offset.value, beyond);
      StretchOfPacket(crypto, cipher.key, FromBe(counter), was, p, offset.value, len, buf[..]);
      return Ok;
    }

    /** How long the trailer is: lines 550-576 and 631-647. */
    method Trailer(sn: uint16) returns (rocLen: nat, tagBytes: nat)
      requires Valid()
      ensures TrailerFor(Snapshot().cfg, sn) == Srtp.Trailer(rocLen, tagBytes)
    {
      rocLen, tagBytes := 0, 0;
      if flags / 4 % 2 == 0 {
        tagBytes := tagLen;
        var mode := flags / 16 % 4;
        if mode != 0 {
          MultipleOfMod(sn, rccRate);
          if sn % rccRate == 0 {
            rocLen := 4;
            if mode == 3 { tagBytes := 0; } else { tagBytes := tagBytes - 4; }
          } else if mode % 2 == 1 {
            tagBytes := 0;
          }
        }
      }
    }

    /** Lines 589-597. */
    method Append(buf: array<byte>, len: nat, rocLen: nat, tagBytes: nat)
      requires Valid() && 12 <= len && len + rocLen + tagBytes <= buf.Length && (rocLen == 0 || rocLen == 4)
      modifies buf
      ensures buf[..] == old(buf[..len])
                         + TrailerBytes(crypto, Snapshot(), old(buf[..len]), Srtp.Trailer(rocLen, tagBytes))
                         + old(buf[len + rocLen + tagBytes..])
    {
      ghost var was := buf[..];
      var e := buf[..len];
      var packetRoc := ComputeRoc(roc, last, RtpSeq(e));
      var tag := Tag(crypto, macKey, e, packetRoc, tagBytes);
      var carried: Bytes := if rocLen > 0 then Be32(roc) else [];
      if rocLen > 0 {
        CopyTo(buf, len, carried);
      }
      ghost var mid := buf[..];
      assert mid == was[..len] + carried + was[len + rocLen..];
      CopyTo(buf, len + rocLen, tag);
      TwoCopies(was, len, carried, tag, mid, buf[..]);
    }

    /** Lines 582-606 of `srtp_send`. */
    method Protect(buf: array<byte>, len: nat, rocLen: nat, tagBytes: nat, u: Undefined, beyond: Bytes)
      returns (status: Status)
      requires Valid() && 12 <= len && len + rocLen + tagBytes <= buf.Length && |beyond| == 16
      requires TrailerFor(Snapshot().cfg, RtpSeq(buf[..len])) == Srtp.Trailer(rocLen, tagBytes)
      modifies this`roc, this`last, this`window, cipher`ctr, buf
      ensures Valid()
      ensures var o := Srtp.Protect(crypto, old(Snapshot()), old(buf[..len]), u);
              && status == o.status && Snapshot() == o.session
              && (status == Ok ==> buf[..] == o.packet + old(buf[len + rocLen + tagBytes..]))
              && (status != Ok ==> buf[..] == old(buf[..]))
    {
      ghost var was := buf[..];
      status := Crypt(buf, len, u, beyond);
      assert buf[..] == buf[..len] + was[len..];
      if status != Ok {
        return;
      }
      if flags / 4 % 2 == 0 {
        Append(buf, len, rocLen, tagBytes);
      }
    }

    /** `srtp_send`: `newLen` is what `*lenp` holds on return, which is the length on the wire
        even when the packet is refused. */
    method Send(buf: array<byte>, len: nat, bufsize: nat, u: Undefined, beyond: Bytes)
      returns (status: Status, newLen: nat)
      requires Valid() && len <= buf.Length && bufsize <= buf.Length && |beyond| == 16
      modifies this`roc, this`last, this`window, cipher`ctr, buf
      ensures Valid() && newLen >= len
      ensures var o := Srtp.Send(crypto, old(Snapshot()), old(buf[..len]), bufsize, u);
              && status == o.status && Snapshot() == o.session
              && (status == Ok ==> newLen <= bufsize && buf[..] == o.packet + old(buf[newLen..]))
              && (status != Ok ==> buf[..] == old(buf[..]))
      ensures newLen == if len >= 12 then WireLength(old(Snapshot()).cfg, old(buf[..len])) else len
    {
      newLen := len;
      if len < 12 {
        return EINVAL, newLen;
      }
      var rocLen, tagBytes := Trailer(RtpSeq(buf[..len]));
      newLen := len + rocLen + tagBytes;
      if bufsize < newLen {
        return ENOSPC, newLen;
      }
      status := Protect(buf, len, rocLen, tagBytes, u, beyond);
    }

    /** Lines 655-681: checks the tag, then adopts a carried counter. */
    method Verify(buf: array<byte>, len: nat, body: nat, rocLen: nat, tagBytes: nat) returns (ok: bool)
      requires Valid() && !Unauthenticated(Snapshot().cfg)
      requires 12 <= body && body + rocLen + tagBytes == len <= buf.Length
      requires TrailerFor(Snapshot().cfg, RtpSeq(buf[..len])) == Srtp.Trailer(rocLen, tagBytes)
      modifies this`roc
      ensures Valid() && (!ok ==> Snapshot() == old(Snapshot()))
      ensures Srtp.Authenticate(crypto, old(Snapshot()), buf[..len])
              == if ok then Outcome(Ok, Snapshot(), buf[..body]) else Outcome(EACCES, Snapshot(), buf[..len])
    {
      ghost var w := buf[..len];
      var packetRoc := ComputeRoc(roc, last, RtpSeq(buf[..len]));
      var rcc := packetRoc;
      if rocLen > 0 {
        assert w[body..body + 4] == buf[body..body + 4];
        rcc := U32(buf[body..body + 4]);
      }
      var tag := buf[body + rocLen..len];
      AuthenticateParts(crypto, Snapshot(), w, Srtp.Trailer(rocLen, tagBytes), rcc, buf[..body], tag);
      ok := tag == Tag(crypto, macKey, buf[..body], rcc, tagBytes);
      if ok && rocLen > 0 {
        roc := Resync(roc, rcc, packetRoc);
      }
    }

    /** Lines 629-683 of `srtp_recv`. */
    method Authenticate(buf: array<byte>, len: nat) returns (status: Status, newLen: nat)
      requires Valid() && 12 <= len <= buf.Length
      modifies this`roc
      ensures Valid()
      ensures var o := Srtp.Authenticate(crypto, old(Snapshot()), buf[..len]);
              && status == o.status && Snapshot() == o.session
              && (status == Ok ==> newLen == |o.packet| && buf[..newLen] == o.packet)
    {
      newLen := len;
      if flags / 4 % 2 == 0 {
        var rocLen, tagBytes := Trailer(RtpSeq(buf[..len]));
        if len < 12 + rocLen + tagBytes {
          return EINVAL, newLen;
        }
        newLen := len - rocLen - tagBytes;
        var ok := Verify(buf, len, newLen, rocLen, tagBytes);
        if !ok {
          return EACCES, newLen;
        }
      }
      return Ok, newLen;
    }

    /** `srtp_recv`: `newLen` is what `*lenp` holds on return. */
    method Recv(buf: array<byte>, len: nat, u: Undefined, beyond: Bytes)
      returns (status: Status, newLen: nat)
      requires Valid() && len <= buf.Length && |beyond| == 16
      modifies this`roc, this`last, this`window, cipher`ctr, buf
      ensures Valid()
      ensures var o := Srtp.Recv(crypto, old(Snapshot()), old(buf[..len]), u);
              && status == o.status && Snapshot() == o.session
              && (status == Ok ==> newLen <= len && buf[..] == o.packet + old(buf[newLen..]))
              && (status != Ok ==> buf[..] == old(buf[..]))
    {
      newLen := len;
      if len < 12 {
        return EINVAL, newLen;
      }
      ghost var was := buf[..];
      ghost var a := Srtp.Authenticate(crypto, Snapshot(), buf[..len]);
      assert Srtp.Recv(crypto, Snapshot(), buf[..len], u)
          == if a.status != Ok then a else Srtp.Crypt(crypto, a.session, a.packet, u);
      status, newLen := Authenticate(buf, len);
      if status != Ok {
        return;
      }
      assert buf[..] == a.packet + was[newLen..];
      status := Crypt(buf, newLen, u, beyond);
      assert buf[..] == buf[..newLen] + was[newLen..];
    }
  }

  /** `AuthenticateBy` for a packet cut into pieces. */
  lemma AuthenticateParts(c: Crypto, s: Session, w: Bytes, t: Trailer, rcc: uint32, e: Bytes, tag: Bytes)
    requires ValidConfig(s.cfg) && |w| >= 12 && !Unauthenticated(s.cfg) && |e| >= 12
    requires t == TrailerFor(s.cfg, RtpSeq(w)) && |e| + t.roc + t.tag == |w|
    requires e == w[..|e|] && tag == w[|e| + t.roc..]
    requires rcc == if t.roc > 0 then U32(w[|e|..|e| + 4]) else EstimatedRoc(s.st, RtpSeq(w))
    ensures Srtp.Authenticate(c, s, w) ==
            if tag != Tag(c, s.cfg.keys.auth, e, rcc, t.tag) then Outcome(EACCES, s, w)
            else
              var est := EstimatedRoc(s.st, RtpSeq(w));
              Outcome(Ok, if t.roc > 0 then s.(st := s.st.(roc := Resync(s.st.roc, rcc, est))) else s, e)
  {
    AuthenticateBy(c, s, w, t, |e|, rcc);
  }

  /** Two adjacent writes are one. */
  lemma TwoCopies(was: Bytes, at: nat, x: Bytes, y: Bytes, mid: Bytes, now: Bytes)
    requires at + |x| + |y| <= |was|
    requires mid == was[..at] + x + was[at + |x|..]
    requires now == mid[..at + |x|] + y + mid[at + |x| + |y|..]
    ensures now == was[..at] + (x + y) + was[at + |x| + |y|..]
  {
    assert mid[..at + |x|] == was[..at] + x;
    assert mid[at + |x| + |y|..] == was[at + |x| + |y|..];
  }

  /** Encrypting the tail of a packet in a larger buffer. */
  lemma StretchOfPacket(c: Crypto, key: Bytes, ctr: nat, was: Bytes, p: Bytes, off: nat, len: nat, now: Bytes)
    requires off <= len <= |was| && p == was[..len] && Crypted(c.ks, key, ctr, was, off, len, now)
    ensures now[..len] == p[..off] + CtrXor(c.ks, key, ctr, p[off..]) && now[len..] == was[len..]
  {
    CryptedStretch(c.ks, key, ctr, was, off, len, now);
    assert was[off..len] == p[off..];
    assert was[..off] == p[..off];
  }
}
