/** What the tag buys: a receiver fed with arbitrary octets, in any order and at any distance,
    hands out only what the sender was given (libsrtp_decrypt/srtp.c, lines 437-446, 586-597
    and 649-685; section 3.3 of RFC 3711). */
module Authenticity {
  import opened Wrappers
  import opened ByteStrings
  import opened RollOverCounter
  import opened ReplayWindow
  import opened Srtp
  import opened RoundTrip
  import opened CounterCarry
  import opened Network
  import opened Rejections

  /** The message `srtp_send` puts under the tag of a packet: its octets and its counter. */
  ghost function TaggedMessage(c: Crypto, x: Sent): Bytes
    requires |x.origin.cfg.keys.salt| == 16 && |x.plain| >= 12
  {
    Crypt(c, x.origin, x.plain, x.u).packet + Be32(RocOf(x.index))
  }

  /** A packet of the sender whose header fits 16 bits. */
  ghost predicate Whole(c: Crypto, cfg: Config, x: Sent) {
    Sealed(c, cfg, x) && !HeaderWraps(x.plain)
  }

  ghost predicate AllWhole(c: Crypto, cfg: Config, sent: seq<Sent>) {
    forall k :: 0 <= k < |sent| ==> Whole(c, cfg, sent[k])
  }

  /** The sender's tags are on these messages, in every mode: octet k of the tag on the wire is
      octet k of the hash of the encrypted packet and the counter of its true index. */
  lemma TagIsOnMessage(c: Crypto, cfg: Config, x: Sent, k: nat)
    requires Whole(c, cfg, x) && cfg.flags / 4 % 2 == 0 && k < TrailerFor(cfg, RtpSeq(x.plain)).tag
    ensures var e := Crypt(c, x.origin, x.plain, x.u);
            var t := TrailerFor(cfg, RtpSeq(x.plain));
            && |x.wire| == |x.plain| + t.roc + t.tag && x.wire[..|x.plain|] == e.packet
            && x.wire[|x.plain| + t.roc + k] == c.mac(cfg.keys.auth, e.packet + Be32(RocOf(x.index)), k)
            && TaggedMessage(c, x) == e.packet + Be32(RocOf(x.index))
  {
    var e, t := Crypt(c, x.origin, x.plain, x.u), TrailerFor(cfg, RtpSeq(x.plain));
    NearestIndex(x.top, x.index);
    TagUsesEncryptionRoc(c, x.origin, x.plain, x.bufsize, x.u);
    TrailerParts(e.packet, if t.roc > 0 then Be32(e.session.st.roc) else [],
                 Tag(c, cfg.keys.auth, e.packet, RocOf(x.index), t.tag));
    DigestAt(c, cfg.keys.auth, e.packet + Be32(RocOf(x.index)), t.tag, k);
  }

  // ----- what the receiver checks

  /** The packet is long enough to have a trailer. */
  predicate Cuttable(cfg: Config, w: Bytes)
    requires ValidConfig(cfg)
  {
    |w| >= 12 && |w| >= 12 + TrailerFor(cfg, RtpSeq(w)).roc + TrailerFor(cfg, RtpSeq(w)).tag
  }

  /** The packet without its trailer. */
  function Body(cfg: Config, w: Bytes): Bytes
    requires ValidConfig(cfg) && Cuttable(cfg, w)
  {
    w[..|w| - TrailerFor(cfg, RtpSeq(w)).roc - TrailerFor(cfg, RtpSeq(w)).tag]
  }

  /** The counter under the tag: the carried one if there is one, else the estimate. */
  function CheckedRoc(r: Session, w: Bytes): uint32
    requires ValidConfig(r.cfg) && Cuttable(r.cfg, w)
  {
    var len := |Body(r.cfg, w)|;
    if TrailerFor(r.cfg, RtpSeq(w)).roc > 0 then U32(w[len..len + 4]) else EstimatedRoc(r.st, RtpSeq(w))
  }

  /** The message `srtp_recv` computes the tag of. */
  ghost function CheckedMessage(r: Session, w: Bytes): Bytes
    requires ValidConfig(r.cfg) && Cuttable(r.cfg, w)
  {
    Body(r.cfg, w) + Be32(CheckedRoc(r, w))
  }

  /** The session that decrypts: the receiver, after it took over a carried counter. */
  function Decrypting(r: Session, w: Bytes): Session
    requires ValidConfig(r.cfg) && Cuttable(r.cfg, w)
  {
    if TrailerFor(r.cfg, RtpSeq(w)).roc > 0 then r.(st := Adopt(r.st, RtpSeq(w), CheckedRoc(r, w))) else r
  }

  /** No valid tag but the sender's: if w passes the check, the sender tagged that message. */
  ghost predicate Unforged(c: Crypto, cfg: Config, sent: seq<Sent>, r: Session, w: Bytes)
    requires AllWhole(c, cfg, sent) && ValidConfig(r.cfg)
  {
    |w| >= 12 && Authenticate(c, r, w).status == Ok ==>
      && Cuttable(r.cfg, w)
      && exists k :: 0 <= k < |sent| && Whole(c, cfg, sent[k]) && CheckedMessage(r, w) == TaggedMessage(c, sent[k])
  }

  /** The tagged message pins both the octets and the counter. */
  lemma MessagePins(a: Bytes, roc: uint32, b: Bytes, roc': uint32)
    requires a + Be32(roc) == b + Be32(roc')
    ensures a == b && roc == roc'
  {
    assert |a| == |b|;
    assert (a + Be32(roc))[..|a|] == a && (b + Be32(roc'))[..|b|] == b;
    assert (a + Be32(roc))[|a|..] == Be32(roc) && (b + Be32(roc'))[|b|..] == Be32(roc');
    Be32Injective(roc, roc');
  }

  lemma AuthenticatedPart(c: Crypto, r: Session, w: Bytes, u: Undefined)
    requires ValidConfig(r.cfg) && !Unauthenticated(r.cfg) && Recv(c, r, w, u).status == Ok
    ensures |w| >= 12 && Authenticate(c, r, w).status == Ok && Cuttable(r.cfg, w)
    ensures Recv(c, r, w, u) == Crypt(c, Decrypting(r, w), Body(r.cfg, w), u)
    ensures RtpSeq(Body(r.cfg, w)) == RtpSeq(w)
    ensures EstimatedRoc(Decrypting(r, w).st, RtpSeq(w)) == CheckedRoc(r, w)
  {
    AuthenticateBy(c, r, w, TrailerFor(r.cfg, RtpSeq(w)), |Body(r.cfg, w)|, CheckedRoc(r, w));
    AssertionHolds(r.st, RtpSeq(w), CheckedRoc(r, w));
  }

  /** The record x is what came out: same octets, same counters. */
  ghost predicate IsRecord(x: Sent, sn: uint16, roc: uint32, out: Bytes) {
    out == x.plain && SeqOf(x.index) == sn && RocOf(x.index) == roc
  }

  /** One call, in every mode: whatever arrives, what is handed out was given to the sender,
      and it was decrypted under the counters it was encrypted with. */
  lemma OnlySentIsAccepted(c: Crypto, cfg: Config, sent: seq<Sent>, r: Session, w: Bytes, u: Undefined) returns (k: nat)
    requires ValidConfig(cfg) && !Unauthenticated(cfg) && r.cfg == cfg
    requires AllWhole(c, cfg, sent) && Unforged(c, cfg, sent, r, w) && Recv(c, r, w, u).status == Ok
    ensures Cuttable(cfg, w) && k < |sent|
    ensures IsRecord(sent[k], RtpSeq(w), CheckedRoc(r, w), Recv(c, r, w, u).packet)
    ensures Advance(Decrypting(r, w).st, RtpSeq(w), u) == Some(Recv(c, r, w, u).session.st)
  {
    AuthenticatedPart(c, r, w, u);
    k :| 0 <= k < |sent| && Whole(c, cfg, sent[k]) && CheckedMessage(r, w) == TaggedMessage(c, sent[k]);
    MessagePins(Body(cfg, w), CheckedRoc(r, w),
                Crypt(c, sent[k].origin, sent[k].plain, sent[k].u).packet, RocOf(sent[k].index));
    DecryptsRecord(c, cfg, sent[k], Decrypting(r, w), u);
  }

  lemma DecryptsRecord(c: Crypto, cfg: Config, x: Sent, r: Session, u: Undefined)
    requires Whole(c, cfg, x) && r.cfg == cfg
    requires var e := Crypt(c, x.origin, x.plain, x.u).packet;
             EstimatedRoc(r.st, RtpSeq(e)) == RocOf(x.index) && Crypt(c, r, e, u).status == Ok
    ensures var e := Crypt(c, x.origin, x.plain, x.u).packet;
            && RtpSeq(e) == RtpSeq(x.plain) && Crypt(c, r, e, u).packet == x.plain
            && Advance(r.st, RtpSeq(x.plain), u) == Some(Crypt(c, r, e, u).session.st)
  {
    var e := Crypt(c, x.origin, x.plain, x.u);
    OffsetBounds(x.plain);
    assert e.packet[..Offset(x.plain).value] == x.plain[..Offset(x.plain).value];
    OffsetFromHeader(x.plain, e.packet);
    NearestIndex(x.top, x.index);
    CryptTwice(c, x.origin, r, x.plain, x.u, u);
  }

  // ----- whole runs

  function StartRx(cfg: Config): Rx {
    Rx(Session(cfg, Fresh), 0, [], [])
  }

  /** Every arrival is unforged. */
  ghost predicate TagsHold(c: Crypto, cfg: Config, sent: seq<Sent>, arrived: seq<Arrived>)
    requires ValidConfig(cfg) && AllWhole(c, cfg, sent)
  {
    arrived == [] ||
    var before := arrived[..|arrived| - 1];
    && TagsHold(c, cfg, sent, before)
    && Unforged(c, cfg, sent, RecvAll(c, StartRx(cfg), before).r, arrived[|arrived| - 1].w)
  }

  /** No arrival sits exactly 2^15 behind the top. */
  ghost predicate NoneOpposite(c: Crypto, cfg: Config, arrived: seq<Arrived>)
    requires ValidConfig(cfg)
  {
    arrived == [] ||
    var before, a := arrived[..|arrived| - 1], arrived[|arrived| - 1];
    && NoneOpposite(c, cfg, before)
    && (|a.w| >= 12 ==> Diff16(RecvAll(c, StartRx(cfg), before).r.st.last, RtpSeq(a.w)) != -0x8000)
  }

  ghost predicate FromSender(sent: seq<Sent>, i: int, out: Bytes) {
    exists k :: 0 <= k < |sent| && IsRecord(sent[k], SeqOf(i), RocOf(i), out)
  }

  /** Every output is a packet of the sender, under the counters of the index it is logged at. */
  ghost predicate AllFromSender(sent: seq<Sent>, x: Rx) {
    && At(x.r.st, x.top) && |x.out| == |x.log|
    && forall j :: 0 <= j < |x.out| ==> FromSender(sent, x.log[j], x.out[j])
  }

  /** No index is logged twice, and the window remembers those in reach. */
  ghost predicate AllOnce(x: Rx) {
    Safe(x.r.st, x.top, Elements(x.log)) && Distinct(x.log)
  }

  lemma RefusedTake(c: Crypto, x: Rx, a: Arrived)
    requires ValidConfig(x.r.cfg) && RccMode(x.r.cfg) == 0 && Recv(c, x.r, a.w, a.u).status != Ok
    ensures Take(c, x, a) == x
  {
    RefusedWithoutCarry(c, x.r, a.w, a.u);
  }

  /** One more output. */
  ghost function Push(x: Rx, i: int, st: Replay, out: Bytes): Rx {
    Rx(x.r.(st := st), Max(i, x.top), x.log + [i], x.out + [out])
  }

  lemma TakeIsPush(c: Crypto, x: Rx, a: Arrived)
    requires ValidConfig(x.r.cfg) && Recv(c, x.r, a.w, a.u).status == Ok
    ensures |a.w| >= 12
    ensures var o := Recv(c, x.r, a.w, a.u);
            Take(c, x, a) == Push(x, x.top + Diff16(x.r.st.last, RtpSeq(a.w)), o.session.st, o.packet)
  {
  }

  lemma SameCounters(sent: seq<Sent>, st: Replay, top: int, sn: uint16, k: nat, out: Bytes)
    requires At(st, top) && k < |sent| && IsRecord(sent[k], sn, EstimatedRoc(st, sn), out)
    ensures var i := top + Diff16(st.last, sn); SeqOf(i) == sn && FromSender(sent, i, out)
  {
    var i := top + Diff16(st.last, sn);
    SeqOfStep(top, sn);
    NearestIndex(top, i);
    assert IsRecord(sent[k], SeqOf(i), RocOf(i), out);
  }

  lemma PushFromSender(sent: seq<Sent>, x: Rx, sn: uint16, u: Undefined, k: nat, st: Replay, out: Bytes)
    requires AllFromSender(sent, x) && k < |sent| && IsRecord(sent[k], sn, EstimatedRoc(x.r.st, sn), out)
    requires Advance(x.r.st, sn, u) == Some(st)
    ensures AllFromSender(sent, Push(x, x.top + Diff16(x.r.st.last, sn), st, out))
  {
    SameCounters(sent, x.r.st, x.top, sn, k, out);
    AdvanceIff(x.r.st, x.top, x.top + Diff16(x.r.st.last, sn), u);
  }

  lemma PushOnce(x: Rx, i: int, u: Undefined, st: Replay, out: Bytes)
    requires AllOnce(x) && -0x8000 < i - x.top < 0x8000 && Advance(x.r.st, SeqOf(i), u) == Some(st)
    ensures AllOnce(Push(x, i, st, out))
  {
    AdvanceKeepsSafe(x.r.st, x.top, Elements(x.log), i, u);
    assert Elements(x.log + [i]) == Elements(x.log) + {i};
  }

  lemma AcceptedFromSender(c: Crypto, sent: seq<Sent>, x: Rx, a: Arrived, k: nat)
    requires ValidConfig(x.r.cfg) && AllFromSender(sent, x) && k < |sent| && |a.w| >= 12
    requires Recv(c, x.r, a.w, a.u).status == Ok
    requires IsRecord(sent[k], RtpSeq(a.w), EstimatedRoc(x.r.st, RtpSeq(a.w)), Recv(c, x.r, a.w, a.u).packet)
    requires Advance(x.r.st, RtpSeq(a.w), a.u) == Some(Recv(c, x.r, a.w, a.u).session.st)
    ensures AllFromSender(sent, Take(c, x, a))
  {
    var o := Recv(c, x.r, a.w, a.u);
    PushFromSender(sent, x, RtpSeq(a.w), a.u, k, o.session.st, o.packet);
    TakeIsPush(c, x, a);
  }

  /** With carrying off, all that is handed out was given to the sender, and was decrypted
      under the counters of the index the receiver logs it at. */
  lemma {:induction false} AcceptedAtIndex(c: Crypto, cfg: Config, sent: seq<Sent>, arrived: seq<Arrived>)
    requires ValidConfig(cfg) && RccMode(cfg) == 0 && !Unauthenticated(cfg)
    requires AllWhole(c, cfg, sent) && TagsHold(c, cfg, sent, arrived)
    ensures AllFromSender(sent, RecvAll(c, StartRx(cfg), arrived))
  {
    if arrived != [] {
      var before, a := arrived[..|arrived| - 1], arrived[|arrived| - 1];
      AcceptedAtIndex(c, cfg, sent, before);
      var x := RecvAll(c, StartRx(cfg), before);
      if Recv(c, x.r, a.w, a.u).status != Ok {
        RefusedTake(c, x, a);
      } else {
        var k := OnlySentIsAccepted(c, cfg, sent, x.r, a.w, a.u);
        AcceptedFromSender(c, sent, x, a, k);
      }
    }
  }

  ghost predicate WasSent(sent: seq<Sent>, out: Bytes) {
    exists k :: 0 <= k < |sent| && sent[k].plain == out
  }

  /** Over every run of a network that delivers any octets at any distance, in every mode that
      authenticates: as long as what passes the check is what the sender tagged, all that is
      handed out was given to the sender. */
  lemma {:induction false} AcceptedWereSent(c: Crypto, cfg: Config, sent: seq<Sent>, arrived: seq<Arrived>)
    requires ValidConfig(cfg) && !Unauthenticated(cfg)
    requires AllWhole(c, cfg, sent) && TagsHold(c, cfg, sent, arrived)
    ensures forall out :: out in RecvAll(c, StartRx(cfg), arrived).out ==> WasSent(sent, out)
  {
    if arrived != [] {
      var before, a := arrived[..|arrived| - 1], arrived[|arrived| - 1];
      AcceptedWereSent(c, cfg, sent, before);
      var x := RecvAll(c, StartRx(cfg), before);
      if Recv(c, x.r, a.w, a.u).status == Ok {
        var k := OnlySentIsAccepted(c, cfg, sent, x.r, a.w, a.u);
        assert sent[k].plain == Recv(c, x.r, a.w, a.u).packet;
        TakeIsPush(c, x, a);
      }
    }
  }

  lemma RecvAdvances(c: Crypto, r: Session, w: Bytes, u: Undefined)
    requires ValidConfig(r.cfg) && RccMode(r.cfg) == 0 && Recv(c, r, w, u).status == Ok
    ensures |w| >= 12 && Advance(r.st, RtpSeq(w), u) == Some(Recv(c, r, w, u).session.st)
  {
    if !Unauthenticated(r.cfg) {
      AuthenticatedPart(c, r, w, u);
    }
  }

  lemma TakeOnce(c: Crypto, x: Rx, a: Arrived)
    requires ValidConfig(x.r.cfg) && RccMode(x.r.cfg) == 0 && AllOnce(x)
    requires |a.w| >= 12 ==> Diff16(x.r.st.last, RtpSeq(a.w)) != -0x8000
    ensures AllOnce(Take(c, x, a))
  {
    if Recv(c, x.r, a.w, a.u).status != Ok {
      RefusedTake(c, x, a);
    } else {
      var o := Recv(c, x.r, a.w, a.u);
      RecvAdvances(c, x.r, a.w, a.u);
      SeqOfStep(x.top, RtpSeq(a.w));
      PushOnce(x, x.top + Diff16(x.r.st.last, RtpSeq(a.w)), a.u, o.session.st, o.packet);
      TakeIsPush(c, x, a);
    }
  }

  /** `srtp_recv` with carrying off, authenticated or not: over every run of arbitrary octets
      of which none sits exactly 2^15 behind the top, no index is accepted twice. */
  lemma {:induction false} NoneAcceptedTwice(c: Crypto, cfg: Config, arrived: seq<Arrived>)
    requires ValidConfig(cfg) && RccMode(cfg) == 0 && NoneOpposite(c, cfg, arrived)
    ensures AllOnce(RecvAll(c, StartRx(cfg), arrived))
  {
    if arrived != [] {
      var before := arrived[..|arrived| - 1];
      NoneAcceptedTwice(c, cfg, before);
      TakeOnce(c, RecvAll(c, StartRx(cfg), before), arrived[|arrived| - 1]);
    }
  }

  /** Two outputs of a run that come from one packet of the sender. */
  ghost predicate Replayed(sent: seq<Sent>, x: Rx, i: nat, j: nat)
    requires i < j < |x.log| == |x.out|
  {
    exists k :: 0 <= k < |sent| && IsRecord(sent[k], SeqOf(x.log[i]), RocOf(x.log[i]), x.out[i])
                && IsRecord(sent[k], SeqOf(x.log[j]), RocOf(x.log[j]), x.out[j])
  }

  lemma NeverReplayed(sent: seq<Sent>, x: Rx, i: nat, j: nat)
    requires AllOnce(x) && |x.out| == |x.log| && i < j < |x.log|
    requires -0x1_0000_0000_0000 < x.log[i] - x.log[j] < 0x1_0000_0000_0000
    ensures !Replayed(sent, x, i, j)
  {
    if Replayed(sent, x, i, j) {
      CountersDetermineIndex(x.log[i], x.log[j]);
    }
  }

  /** Both together, with carrying off: what is handed out was given to the sender, and no packet is handed out
      twice among indices that span less than 2^48. */
  lemma AcceptedWereSentOnce(c: Crypto, cfg: Config, sent: seq<Sent>, arrived: seq<Arrived>)
    requires ValidConfig(cfg) && RccMode(cfg) == 0 && !Unauthenticated(cfg)
    requires AllWhole(c, cfg, sent) && TagsHold(c, cfg, sent, arrived) && NoneOpposite(c, cfg, arrived)
    ensures var x := RecvAll(c, StartRx(cfg), arrived);
            && AllFromSender(sent, x)
            && forall i, j :: 0 <= i < j < |x.log| && -0x1_0000_0000_0000 < x.log[i] - x.log[j] < 0x1_0000_0000_0000 ==>
                 !Replayed(sent, x, i, j)
  {
    AcceptedAtIndex(c, cfg, sent, arrived);
    NoneAcceptedTwice(c, cfg, arrived);
    var x := RecvAll(c, StartRx(cfg), arrived);
    forall i, j | 0 <= i < j < |x.log| && -0x1_0000_0000_0000 < x.log[i] - x.log[j] < 0x1_0000_0000_0000
      ensures !Replayed(sent, x, i, j)
    {
      NeverReplayed(sent, x, i, j);
    }
  }
}
