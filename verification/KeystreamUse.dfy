/** The counter blocks a session draws on (libsrtp_decrypt/srtp.c, `rtp_crypt`;
    section 4.1.1 of RFC 3711): their formula, and that none is used twice. */
module KeystreamUse {
  import opened Wrappers
  import opened Bits
  import opened ByteStrings
  import opened RollOverCounter
  import opened ReplayWindow
  import opened CounterMode
  import opened Srtp
  import opened Network

  // ----- the counter block as one integer

  lemma FourWords(w0: Bytes, w1: Bytes, w2: Bytes, w3: Bytes)
    requires |w0| == |w1| == |w2| == |w3| == 4
    ensures FromBe(w0 + w1 + w2 + w3)
            == 0x1_0000_0000 * (0x1_0000_0000 * (0x1_0000_0000 * U32(w0) + U32(w1)) + U32(w2)) + U32(w3)
  {
    FromBeShort(w0 + w1 + w2, w3);
    FromBeShort(w0 + w1, w2);
    FromBeShort(w0, w1);
    FromBeFour(w0);
    FromBeFour(w1);
    FromBeFour(w2);
    FromBeFour(w3);
  }

  const ZERO4: Bytes := [0, 0, 0, 0]

  /** The words that `rtp_crypt` combines with the salt: SSRC, counter and sequence number. */
  function IndexWords(ssrc: Bytes, roc: uint32, sn: uint16): (r: Bytes)
    requires |ssrc| == 4
    ensures |r| == 16
  {
    ZERO4 + ssrc + Be32(roc) + (Be16(sn) + [0, 0])
  }

  lemma IndexWordsValue(ssrc: Bytes, roc: uint32, sn: uint16)
    requires |ssrc| == 4
    ensures FromBe(IndexWords(ssrc, roc, sn)) == 0x1_0000_0000_0000_0000 * U32(ssrc) + 0x1_0000 * (0x1_0000 * roc + sn)
  {
    var low := Be16(sn) + [0, 0];
    FourWords(ZERO4, ssrc, Be32(roc), low);
    Be32RoundTrip(roc);
    Be16RoundTrip(sn);
    assert U32(low) == 0x1_0000 * sn;
    assert U32(ZERO4) == 0;
  }

  lemma XorDisjointHalves(hi: Bytes, lo: Bytes)
    requires |hi| == |lo| == 8
    ensures XorBytes(hi + (ZERO4 + ZERO4), (ZERO4 + ZERO4) + lo) == hi + lo
  {
    var a, b := hi + (ZERO4 + ZERO4), (ZERO4 + ZERO4) + lo;
    forall j | 0 <= j < 16
      ensures XorBytes(a, b)[j] == (hi + lo)[j]
    {
      XorBytesAt(a, b, j);
      XorZero(a[j]);
      XorZero(b[j]);
    }
  }

  /** The two shifted terms of the formula do not overlap. */
  lemma IndexWordsXor(ssrc: Bytes, roc: uint32, sn: uint16)
    requires |ssrc| == 4
    ensures Xor(0x1_0000_0000_0000_0000 * U32(ssrc), 0x1_0000 * (0x1_0000 * roc + sn))
            == FromBe(IndexWords(ssrc, roc, sn))
  {
    var low := Be16(sn) + [0, 0];
    var hi, lo := (ZERO4 + ssrc) + (ZERO4 + ZERO4), (ZERO4 + ZERO4) + (Be32(roc) + low);
    XorDisjointHalves(ZERO4 + ssrc, Be32(roc) + low);
    assert (ZERO4 + ssrc) + (Be32(roc) + low) == IndexWords(ssrc, roc, sn);
    FromBeXor(hi, lo);
    SsrcWordsValue(ssrc);
    CounterWordsValue(roc, sn);
  }

  lemma SsrcWordsValue(ssrc: Bytes)
    requires |ssrc| == 4
    ensures FromBe((ZERO4 + ssrc) + (ZERO4 + ZERO4)) == 0x1_0000_0000_0000_0000 * U32(ssrc)
  {
    assert (ZERO4 + ssrc) + (ZERO4 + ZERO4) == ZERO4 + ssrc + ZERO4 + ZERO4;
    FourWords(ZERO4, ssrc, ZERO4, ZERO4);
    assert U32(ZERO4) == 0;
  }

  lemma CounterWordsValue(roc: uint32, sn: uint16)
    ensures FromBe((ZERO4 + ZERO4) + (Be32(roc) + (Be16(sn) + [0, 0]))) == 0x1_0000 * (0x1_0000 * roc + sn)
  {
    IndexWordsValue(ZERO4, roc, sn);
    assert IndexWords(ZERO4, roc, sn) == (ZERO4 + ZERO4) + (Be32(roc) + (Be16(sn) + [0, 0]));
    assert U32(ZERO4) == 0;
  }

  /** The counter block is the IV of section 4.1.1 of RFC 3711,
      (k_s * 2^16) XOR (SSRC * 2^64) XOR (i * 2^16) for the 48-bit packet index i. */
  lemma CounterBlockIsRfcIv(salt: Bytes, ssrc: Bytes, roc: uint32, sn: uint16)
    requires |salt| == 16 && salt[14] == 0 && salt[15] == 0 && |ssrc| == 4
    ensures FromBe(CounterBlock(salt, ssrc, roc, sn))
            == Xor(0x1_0000 * FromBe(salt[..14]),
                   Xor(0x1_0000_0000_0000_0000 * U32(ssrc), 0x1_0000 * (0x1_0000 * roc + sn)))
  {
    assert salt == salt[..14] + [0, 0];
    FromBeLowZero(salt[..14]);
    FromBeXor(salt, IndexWords(ssrc, roc, sn));
    IndexWordsXor(ssrc, roc, sn);
  }

  // ----- no overlap

  /** The two low octets of every counter block are zero. */
  lemma CounterBlockLowZero(salt: Bytes, ssrc: Bytes, roc: uint32, sn: uint16)
    requires |salt| == 16 && salt[14] == 0 && salt[15] == 0 && |ssrc| == 4
    ensures CounterBlock(salt, ssrc, roc, sn)[14] == 0 && CounterBlock(salt, ssrc, roc, sn)[15] == 0
  {
    XorBytesAt(salt, IndexWords(ssrc, roc, sn), 14);
    XorBytesAt(salt, IndexWords(ssrc, roc, sn), 15);
    XorZero(0);
  }

  lemma CounterBlockInjective(salt: Bytes, ssrc: Bytes, roc: uint32, sn: uint16,
                              ssrc': Bytes, roc': uint32, sn': uint16)
    requires |salt| == 16 && |ssrc| == 4 && |ssrc'| == 4
    requires CounterBlock(salt, ssrc, roc, sn) == CounterBlock(salt, ssrc', roc', sn')
    ensures ssrc == ssrc' && roc == roc' && sn == sn'
  {
    var a, b := IndexWords(ssrc, roc, sn), IndexWords(ssrc', roc', sn');
    XorBytesInjective(salt, a, b);
    assert a[4..8] == ssrc && b[4..8] == ssrc';
    assert a[8..12] == Be32(roc) && b[8..12] == Be32(roc');
    Be32Injective(roc, roc');
    Be16RoundTrip(sn);
    Be16RoundTrip(sn');
    assert a[12] == Be16(sn)[0] && a[13] == Be16(sn)[1];
    assert b[12] == Be16(sn')[0] && b[13] == Be16(sn')[1];
  }

  lemma Pow256Fourteen()
    ensures 0x1_0000 * Pow256(14) == 0x1_0000_0000_0000_0000_0000_0000_0000_0000
  {
    assert Pow256(4) == 0x1_0000_0000;
    assert Pow256(8) == 0x1_0000_0000 * Pow256(4);
    assert Pow256(12) == 0x1_0000_0000 * Pow256(8);
  }

  /** Blocks of two packets can only meet if the packets have the same counter block. */
  lemma BlocksApart(m: nat, h: nat, a: nat, m': nat, h': nat, b: nat)
    requires m == 0x1_0000 * h && m' == 0x1_0000 * h'
    requires h < Pow256(14) && h' < Pow256(14) && a < 0x1_0000 && b < 0x1_0000
    requires Mod128(m + a) == Mod128(m' + b)
    ensures m == m' && a == b
  {
    Pow256Fourteen();
    SmallMod128(m + a);
    SmallMod128(m' + b);
  }

  lemma SmallMod128(n: nat)
    requires n < 0x1_0000_0000_0000_0000_0000_0000_0000_0000
    ensures Mod128(n) == n
  {
  }

  /** Keystreams of at most 2^16 blocks that start at blocks with zero low octets only meet if
      they start at the same block. */
  lemma SameBlock(x: Bytes, a: nat, y: Bytes, b: nat)
    requires |x| == |y| == 16 && x[14] == 0 && x[15] == 0 && y[14] == 0 && y[15] == 0
    requires a < 0x1_0000 && b < 0x1_0000 && Mod128(FromBe(x) + a) == Mod128(FromBe(y) + b)
    ensures x == y && a == b
  {
    var h := LowZeroValue(x);
    var h' := LowZeroValue(y);
    BlocksApart(FromBe(x), h, a, FromBe(y), h', b);
    FromBeInjective(x, y);
  }

  lemma LowZeroValue(x: Bytes) returns (h: nat)
    requires |x| == 16 && x[14] == 0 && x[15] == 0
    ensures FromBe(x) == 0x1_0000 * h && h < Pow256(14)
  {
    h := FromBe(x[..14]);
    assert x == x[..14] + [0, 0];
    FromBeLowZero(x[..14]);
    FromBeBound(x[..14]);
  }

  /** The first counter value of a packet's keystream, by its true index. */
  function PacketCounter(salt: Bytes, x: Sent): nat
    requires |salt| == 16 && |x.plain| >= 12
  {
    StartCounter(salt, RocOf(x.index), x.plain)
  }

  /** Octet j of the payload of every packet on the wire is combined with octet j mod 16 of
      block j / 16 from there on. */
  lemma WireByBlocks(c: Crypto, cfg: Config, x: Sent, off: nat, j: nat)
    requires Sealed(c, cfg, x) && !Unencrypted(cfg) && Offset(x.plain) == Some(off) && off + j < |x.plain|
    ensures |x.wire| >= |x.plain|
    ensures x.wire[off + j]
            == XorByteOf(x.plain[off + j], CtrByte(c.ks, cfg.keys.cipher, PacketCounter(cfg.keys.salt, x), j))
  {
    NearestIndex(x.top, x.index);
    WireIsEncrypted(c, x.origin, x.plain, x.bufsize, x.u, off);
    PayloadByBlocks(c, cfg.keys, RocOf(x.index), x.plain, off, j);
  }

  lemma PayloadByBlocks(c: Crypto, keys: Keys, roc: uint32, p: Bytes, off: nat, j: nat)
    requires |keys.salt| == 16 && |p| >= 12 && off + j < |p|
    ensures CryptPayload(c, keys, roc, p, off)[off + j]
            == XorByteOf(p[off + j], CtrByte(c.ks, keys.cipher, StartCounter(keys.salt, roc, p), j))
  {
    CtrXorAt(c.ks, keys.cipher, StartCounter(keys.salt, roc, p), p[off..], j);
  }

  lemma WireIsEncrypted(c: Crypto, s: Session, p: Bytes, bufsize: nat, u: Undefined, off: nat)
    requires ValidConfig(s.cfg) && !Unencrypted(s.cfg) && |p| >= 12 && Offset(p) == Some(off)
    requires Send(c, s, p, bufsize, u).status == Ok
    ensures CryptPayload(c, s.cfg.keys, EstimatedRoc(s.st, RtpSeq(p)), p, off) <= Send(c, s, p, bufsize, u).packet
  {
  }

  lemma BlocksMeet(salt: Bytes, ssrc: Bytes, roc: uint32, sn: uint16, a: nat,
                   ssrc': Bytes, roc': uint32, sn': uint16, b: nat)
    requires |salt| == 16 && salt[14] == 0 && salt[15] == 0 && |ssrc| == 4 && |ssrc'| == 4
    requires a < 0x1_0000 && b < 0x1_0000
    requires Mod128(FromBe(CounterBlock(salt, ssrc, roc, sn)) + a)
             == Mod128(FromBe(CounterBlock(salt, ssrc', roc', sn')) + b)
    ensures ssrc == ssrc' && roc == roc' && sn == sn' && a == b
  {
    CounterBlockLowZero(salt, ssrc, roc, sn);
    CounterBlockLowZero(salt, ssrc', roc', sn');
    SameBlock(CounterBlock(salt, ssrc, roc, sn), a, CounterBlock(salt, ssrc', roc', sn'), b);
    CounterBlockInjective(salt, ssrc, roc, sn, ssrc', roc', sn');
  }

  lemma CountersApart(salt: Bytes, roc: uint32, p: Bytes, a: nat, roc': uint32, p': Bytes, b: nat)
    requires |salt| == 16 && salt[14] == 0 && salt[15] == 0 && |p| >= 12 && |p'| >= 12
    requires roc != roc' || RtpSeq(p) != RtpSeq(p')
    requires a < 0x1_0000 && b < 0x1_0000
    ensures Mod128(StartCounter(salt, roc, p) + a) != Mod128(StartCounter(salt, roc', p') + b)
  {
    if Mod128(StartCounter(salt, roc, p) + a) == Mod128(StartCounter(salt, roc', p') + b) {
      BlocksMeet(salt, p[8..12], roc, RtpSeq(p), a, p'[8..12], roc', RtpSeq(p'), b);
    }
  }

  lemma ApartByIndex(salt: Bytes, x: Sent, a: nat, y: Sent, b: nat)
    requires |salt| == 16 && salt[14] == 0 && salt[15] == 0
    requires |x.plain| >= 12 && SeqOf(x.index) == RtpSeq(x.plain)
    requires |y.plain| >= 12 && SeqOf(y.index) == RtpSeq(y.plain)
    requires x.index != y.index && -0x1_0000_0000_0000 < x.index - y.index < 0x1_0000_0000_0000
    requires a < 0x1_0000 && b < 0x1_0000
    ensures CounterAt(salt, x, a) != CounterAt(salt, y, b)
  {
    if RocOf(x.index) == RocOf(y.index) && SeqOf(x.index) == SeqOf(y.index) {
      CountersDetermineIndex(x.index, y.index);
    }
    CountersApart(salt, RocOf(x.index), x.plain, a, RocOf(y.index), y.plain, b);
  }

  /** No block of the first 2^16 of one packet is one of the other's. */
  ghost predicate Apart(salt: Bytes, x: Sent, y: Sent)
    requires |salt| == 16
  {
    && |x.plain| >= 12 && |y.plain| >= 12
    && forall a: nat, b: nat :: a < 0x1_0000 && b < 0x1_0000 ==> CounterAt(salt, x, a) != CounterAt(salt, y, b)
  }

  function CounterAt(salt: Bytes, x: Sent, block: nat): nat
    requires |salt| == 16 && |x.plain| >= 12
  {
    Mod128(PacketCounter(salt, x) + block)
  }

  ghost predicate Near(x: Sent, y: Sent) {
    -0x1_0000_0000_0000 < x.index - y.index < 0x1_0000_0000_0000
  }

  ghost predicate AllApart(salt: Bytes, sent: seq<Sent>)
    requires |salt| == 16
  {
    forall k, l :: 0 <= k < l < |sent| && Near(sent[k], sent[l]) ==> Apart(salt, sent[k], sent[l])
  }

  lemma PairApart(salt: Bytes, x: Sent, y: Sent)
    requires |salt| == 16 && salt[14] == 0 && salt[15] == 0
    requires |x.plain| >= 12 && SeqOf(x.index) == RtpSeq(x.plain)
    requires |y.plain| >= 12 && SeqOf(y.index) == RtpSeq(y.plain)
    requires x.index != y.index && Near(x, y)
    ensures Apart(salt, x, y)
  {
    forall a: nat, b: nat | a < 0x1_0000 && b < 0x1_0000
      ensures CounterAt(salt, x, a) != CounterAt(salt, y, b)
    {
      ApartByIndex(salt, x, a, y, b);
    }
  }

  lemma SenderApart(c: Crypto, cfg: Config, n: Net)
    requires ValidConfig(cfg) && SenderInv(c, cfg, n)
    ensures AllApart(cfg.keys.salt, n.sent)
  {
    forall k, l | 0 <= k < l < |n.sent| && Near(n.sent[k], n.sent[l])
      ensures Apart(cfg.keys.salt, n.sent[k], n.sent[l])
    {
      assert Sealed(c, cfg, n.sent[k]) && Sealed(c, cfg, n.sent[l]);
      PairApart(cfg.keys.salt, n.sent[k], n.sent[l]);
    }
  }

  /** Over every legal run, in every mode: two packets less than 2^48 indices apart, with
      payloads of at most 2^16 blocks, share no keystream block. */
  lemma NoBlockTwice(c: Crypto, cfg: Config, acts: seq<Action>)
    requires ValidConfig(cfg) && LegalRun(c, cfg, acts)
    ensures AllApart(cfg.keys.salt, Run(c, cfg, acts).sent)
  {
    RunKeepsSender(c, cfg, acts);
    SenderApart(c, cfg, Run(c, cfg, acts));
  }
}
