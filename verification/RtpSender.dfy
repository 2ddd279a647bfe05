/** RTP framing and sequence numbering (src/transport/generic.cr), and the index that the
    SRTP session behind it rebuilds. */
module RtpSender {
  import opened Wrappers
  import opened ByteStrings
  import opened RollOverCounter
  import opened ReplayWindow
  import opened Srtp
  import opened RoundTrip
  import opened Bits
  import opened Rejections
  import opened KeyDerivation
  import opened SrtpObject

  /** The packet that `form_rtp` builds for the counter-th frame.  The count has no bound here;
      `@seq_no` is its Int32 wrap, and everything in the header depends on the low 32 bits. */
  function RtpPacket(counter: nat, pt: byte, samplesPerFrame: nat, payload: Bytes): Bytes {
    Header(counter, pt, counter * samplesPerFrame % 0x1_0000_0000) + payload
  }

  function Header(counter: nat, pt: byte, timestamp: uint32): (h: Bytes)
    ensures |h| == 12
  {
    [0x80, if counter % 0x1_0000_0000 == 1 && pt < 0x80 then pt + 0x80 else pt]
    + Be16(counter % 0x1_0000) + Be32(timestamp) + [1, 2, 3, 4]
  }

  /** `handle_rtp`: the payload and its sequence number for the jitter buffer. */
  function HandleRtp(p: Bytes): Result<(Bytes, uint16)> {
    if |p| < 12 then IndexError else Success((p[12..], U16(p[2], p[3])))
  }

  /** The framing is undone by `handle_rtp`, up to 16 bits of the counter, and
      `srtp_crypt` finds the payload right after the header. */
  lemma FramingRoundTrip(counter: nat, pt: byte, samplesPerFrame: nat, payload: Bytes)
    ensures Framed(RtpPacket(counter, pt, samplesPerFrame, payload), counter, payload)
  {
    HeaderFraming(counter, pt, counter * samplesPerFrame % 0x1_0000_0000, payload);
  }

  lemma HeaderFraming(counter: nat, pt: byte, timestamp: uint32, payload: Bytes)
    ensures Framed(Header(counter, pt, timestamp) + payload, counter, payload)
  {
    var h := Header(counter, pt, timestamp);
    var p := h + payload;
    var sn := Be16(counter % 0x1_0000);
    Be16RoundTrip(counter % 0x1_0000);
    assert h[0] == 0x80 && h[2] == sn[0] && h[3] == sn[1];
    assert p[0] == h[0] && p[2] == h[2] && p[3] == h[3];
    assert p[12..] == payload;
    assert FullHeader(p) == Some(12);
    OffsetFits(p, 12);
  }

  /** Every field of a packet: version 2 and nothing else in the first octet, the payload type
      with the marker on the first packet, the low 16 bits of the count, the timestamp, the
      source 1.2.3.4 and the payload. */
  ghost predicate HasFields(p: Bytes, counter: nat, pt: byte, timestamp: nat, payload: Bytes) {
    && |p| == 12 + |payload| && p[0] == 0x80
    && p[1] % 0x80 == pt % 0x80 && (p[1] >= 0x80 <==> pt >= 0x80 || counter % 0x1_0000_0000 == 1)
    && U16(p[2], p[3]) == counter % 0x1_0000
    && U32(p[4..8]) == timestamp
    && p[8..12] == [1, 2, 3, 4] && p[12..] == payload
  }

  /** ... of the packet of `form_rtp`, with the number of samples before this frame. */
  lemma PacketFields(counter: nat, pt: byte, samplesPerFrame: nat, payload: Bytes)
    ensures HasFields(RtpPacket(counter, pt, samplesPerFrame, payload), counter, pt,
                      counter * samplesPerFrame % 0x1_0000_0000, payload)
  {
    HeaderFields(counter, pt, counter * samplesPerFrame % 0x1_0000_0000, payload);
  }

  lemma HeaderFields(counter: nat, pt: byte, timestamp: uint32, payload: Bytes)
    ensures HasFields(Header(counter, pt, timestamp) + payload, counter, pt, timestamp, payload)
  {
    var h := Header(counter, pt, timestamp);
    var p := h + payload;
    HeaderOctets(counter, pt, timestamp, h);
    MarkerBit(pt);
    Be16RoundTrip(counter % 0x1_0000);
    Be32RoundTrip(timestamp);
    assert p[12..] == payload;
    assert p[4..8] == Be32(timestamp);
  }

  lemma MarkerBit(pt: byte)
    ensures pt < 0x80 ==> (pt + 0x80) % 0x80 == pt % 0x80
  {
  }

  ghost predicate Framed(p: Bytes, counter: nat, payload: Bytes) {
    && HandleRtp(p) == Success((payload, SeqOf(counter)))
    && |p| == 12 + |payload| && RtpSeq(p) == SeqOf(counter)
    && Offset(p) == Some(12) && !HeaderWraps(p)
  }

  lemma HeaderOctets(counter: nat, pt: byte, timestamp: uint32, h: Bytes)
    requires h == Header(counter, pt, timestamp)
    ensures var sn, ts := Be16(counter % 0x1_0000), Be32(timestamp);
            && h[0] == 0x80 && h[1] == (if counter % 0x1_0000_0000 == 1 && pt < 0x80 then pt + 0x80 else pt)
            && h[2] == sn[0] && h[3] == sn[1]
            && h[4] == ts[0] && h[5] == ts[1] && h[6] == ts[2] && h[7] == ts[3]
            && h[8] == 1 && h[9] == 2 && h[10] == 3 && h[11] == 4
  {
  }

  /** The twelve header octets, one by one. */
  method WriteHeader(data: array<byte>, counter: nat, pt: byte, timestamp: uint32)
    requires data.Length >= 12
    modifies data
    ensures data[..12] == Header(counter, pt, timestamp)
  {
    ghost var h := Header(counter, pt, timestamp);
    HeaderOctets(counter, pt, timestamp, h);
    data[0] := 0x80;
    data[1] := pt;
    if counter % 0x1_0000_0000 == 1 {
      data[1] := if data[1] < 0x80 then data[1] + 0x80 else data[1];
    }
    assert data[0] == h[0] && data[1] == h[1];
    var sn, ts := Be16(counter % 0x1_0000), Be32(timestamp);
    data[2], data[3], data[4], data[5] := sn[0], sn[1], ts[0], ts[1];
    data[6], data[7], data[8], data[9], data[10], data[11] := ts[2], ts[3], 1, 2, 3, 4;
  }

  // ----- the counter and the index

  /** One frame period: a packet sent, or a frame that only counts, because there was
      silence or because no session is keyed yet. */
  datatype Frame = Audio(payload: Bytes, u: Undefined) | Silent

  datatype Talk = Talk(counter: nat, s: Session, refused: bool)

  /** `send_audio` into `srtp_send` with 64 octets to spare, or `observe_silence`. */
  function Period(c: Crypto, t: Talk, pt: byte, samplesPerFrame: nat, f: Frame): Talk
    requires ValidConfig(t.s.cfg)
  {
    match f
    case Silent => t.(counter := t.counter + 1)
    case Audio(payload, u) =>
      Handed(c, t, RtpPacket(t.counter + 1, pt, samplesPerFrame, payload), u)
  }

  function RunTalk(c: Crypto, cfg: Config, pt: byte, samplesPerFrame: nat, frames: seq<Frame>): (t: Talk)
    requires ValidConfig(cfg)
    ensures t.s.cfg == cfg
  {
    if frames == [] then Talk(0, Session(cfg, Fresh), false)
    else
      var t := RunTalk(c, cfg, pt, samplesPerFrame, frames[..|frames| - 1]);
      Period(c, t, pt, samplesPerFrame, frames[|frames| - 1])
  }

  /** How many frames passed since the last packet. */
  function Quiet(frames: seq<Frame>): nat {
    if frames == [] || frames[|frames| - 1].Audio? then 0 else Quiet(frames[..|frames| - 1]) + 1
  }

  /** Consecutive packets are less than 2^15 counts apart. */
  ghost predicate Spaced(frames: seq<Frame>) {
    frames == [] ||
    (Spaced(frames[..|frames| - 1]) && (frames[|frames| - 1].Audio? ==> Quiet(frames[..|frames| - 1]) + 1 < 0x8000))
  }

  ghost predicate OnCount(t: Talk, frames: seq<Frame>) {
    && t.counter == |frames| && !t.refused && Quiet(frames) <= |frames|
    && At(t.s.st, |frames| - Quiet(frames))
  }

  lemma AheadIsSent(c: Crypto, s: Session, p: Bytes, u: Undefined, top: int, i: int)
    requires ValidConfig(s.cfg) && |p| >= 12 && Offset(p).Some? && RtpSeq(p) == SeqOf(i)
    requires At(s.st, top) && 0 < i - top < 0x8000
    ensures Send(c, s, p, |p| + 64, u).status == Ok && At(Send(c, s, p, |p| + 64, u).session.st, i)
  {
    AdvanceIff(s.st, top, i, u);
    RoomEnough(c, s, p, u);
  }

  ghost predicate Kept(t: Talk, t': Talk) {
    At(t'.s.st, t'.counter) && t'.refused == t.refused && t'.counter == t.counter + 1
  }

  lemma AudioKeepsCount(c: Crypto, t: Talk, pt: byte, samplesPerFrame: nat, payload: Bytes, u: Undefined, top: int)
    requires ValidConfig(t.s.cfg) && At(t.s.st, top) && 0 < t.counter + 1 - top < 0x8000
    ensures Kept(t, Period(c, t, pt, samplesPerFrame, Audio(payload, u)))
  {
    FramingRoundTrip(t.counter + 1, pt, samplesPerFrame, payload);
    SubmitKeepsCount(c, t, RtpPacket(t.counter + 1, pt, samplesPerFrame, payload), payload, u, top);
  }

  /** The SRTP half of a period. */
  function Handed(c: Crypto, t: Talk, p: Bytes, u: Undefined): Talk
    requires ValidConfig(t.s.cfg)
  {
    var o := Send(c, t.s, p, |p| + 64, u);
    Talk(t.counter + 1, o.session, t.refused || o.status != Ok)
  }

  lemma SubmitKeepsCount(c: Crypto, t: Talk, p: Bytes, payload: Bytes, u: Undefined, top: int)
    requires ValidConfig(t.s.cfg) && At(t.s.st, top) && 0 < t.counter + 1 - top < 0x8000
    requires Framed(p, t.counter + 1, payload)
    ensures Kept(t, Handed(c, t, p, u))
  {
    AheadIsSent(c, t.s, p, u, top, t.counter + 1);
  }

  /** Over every run of packets and silences in which packets are less than 2^15 counts
      apart, no packet is refused and the session's index lags the counter by the silence
      since the last packet: right after a packet it is the counter. */
  lemma {:induction false} IndexIsTheCounter(c: Crypto, cfg: Config, pt: byte, samplesPerFrame: nat, frames: seq<Frame>)
    requires ValidConfig(cfg) && Spaced(frames)
    ensures OnCount(RunTalk(c, cfg, pt, samplesPerFrame, frames), frames)
  {
    if frames == [] {
    } else {
      var before, f := frames[..|frames| - 1], frames[|frames| - 1];
      IndexIsTheCounter(c, cfg, pt, samplesPerFrame, before);
      var t := RunTalk(c, cfg, pt, samplesPerFrame, before);
      if f.Audio? {
        AudioKeepsCount(c, t, pt, samplesPerFrame, f.payload, f.u, |before| - Quiet(before));
      }
    }
  }

  /** The two fields of the session spell out the counter, less the silence since. */
  ghost predicate SpellsCounter(t: Talk, frames: seq<Frame>) {
    !t.refused && 0x1_0000 * t.s.st.roc + t.s.st.last + Quiet(frames) == t.counter == |frames|
  }

  lemma OnCountSpells(t: Talk, frames: seq<Frame>)
    requires OnCount(t, frames) && |frames| < 0x1_0000_0000_0000
    ensures SpellsCounter(t, frames)
  {
    SmallIndex(|frames| - Quiet(frames));
  }

  /** ... while the index fits 48 bits. */
  lemma FieldsSpellCounter(c: Crypto, cfg: Config, pt: byte, samplesPerFrame: nat, frames: seq<Frame>)
    requires ValidConfig(cfg) && Spaced(frames) && |frames| < 0x1_0000_0000_0000
    ensures SpellsCounter(RunTalk(c, cfg, pt, samplesPerFrame, frames), frames)
  {
    IndexIsTheCounter(c, cfg, pt, samplesPerFrame, frames);
    OnCountSpells(RunTalk(c, cfg, pt, samplesPerFrame, frames), frames);
  }

  /** After every such run, a packet that follows a silence of more than 2^15 and at most
      2^16 - 64 counts is refused, on every machine. */
  lemma RefusedAfterSilence(c: Crypto, cfg: Config, pt: byte, samplesPerFrame: nat, frames: seq<Frame>,
                            payload: Bytes, u: Undefined)
    requires ValidConfig(cfg) && Spaced(frames) && 0x8000 < Quiet(frames) + 1 <= 0x1_0000 - 64
    ensures LostOne(RunTalk(c, cfg, pt, samplesPerFrame, frames),
                    RunTalk(c, cfg, pt, samplesPerFrame, frames + [Audio(payload, u)]))
  {
    IndexIsTheCounter(c, cfg, pt, samplesPerFrame, frames);
    RefusedPeriod(c, RunTalk(c, cfg, pt, samplesPerFrame, frames), pt, samplesPerFrame, payload, u,
                  |frames| - Quiet(frames));
    assert (frames + [Audio(payload, u)])[..|frames|] == frames;
  }

  /** The frame counted, the packet was refused and the session stayed where it was. */
  ghost predicate LostOne(t: Talk, t': Talk) {
    t'.refused && t'.counter == t.counter + 1 && t'.s == t.s
  }

  lemma RefusedPeriod(c: Crypto, t: Talk, pt: byte, samplesPerFrame: nat, payload: Bytes, u: Undefined, top: int)
    requires ValidConfig(t.s.cfg) && At(t.s.st, top) && 0x8000 < t.counter + 1 - top <= 0x1_0000 - 64
    ensures LostOne(t, Period(c, t, pt, samplesPerFrame, Audio(payload, u)))
  {
    FramingRoundTrip(t.counter + 1, pt, samplesPerFrame, payload);
    RefusedHanded(c, t, RtpPacket(t.counter + 1, pt, samplesPerFrame, payload), payload, u, top);
  }

  lemma RefusedHanded(c: Crypto, t: Talk, p: Bytes, payload: Bytes, u: Undefined, top: int)
    requires ValidConfig(t.s.cfg) && At(t.s.st, top) && 0x8000 < t.counter + 1 - top <= 0x1_0000 - 64
    requires Framed(p, t.counter + 1, payload)
    ensures LostOne(t, Handed(c, t, p, u))
  {
    ByLag(t.s.st, top, t.counter + 1, u);
    RoomEnough(c, t.s, p, u);
    RefusedSend(c, t.s, p, |p| + 64, u);
  }

  lemma SmallIndex(i: nat)
    requires i < 0x1_0000_0000_0000
    ensures 0x1_0000 * RocOf(i) + SeqOf(i) == i
  {
    assert 0 <= i / 0x1_0000 < 0x1_0000_0000;
  }

  // ----- the transport object

  /** The transport object: a counter that only grows. */
  class RtpTransport {
    var counter: nat
    const pt: byte
    const samplesPerFrame: nat

    constructor (pt: byte, samplesPerFrame: nat)
      ensures counter == 0 && this.pt == pt && this.samplesPerFrame == samplesPerFrame
    {
      counter := 0;
      this.pt := pt;
      this.samplesPerFrame := samplesPerFrame;
    }

    /** `inc_seq_no`, and all of `observe_silence`. */
    method IncSeqNo()
      modifies this`counter
      ensures counter == old(counter) + 1
    {
      counter := counter + 1;
    }

    /** `form_rtp`. */
    method FormRtp(payload: Bytes) returns (data: array<byte>)
      ensures fresh(data) && data[..] == RtpPacket(counter, pt, samplesPerFrame, payload)
      ensures HasFields(data[..], counter, pt, counter * samplesPerFrame % 0x1_0000_0000, payload)
    {
      PacketFields(counter, pt, samplesPerFrame, payload);
      data := new byte[|payload| + 12](_ => 0);
      var timestamp := counter * samplesPerFrame % 0x1_0000_0000;
      WriteHeader(data, counter, pt, timestamp);
      ghost var head := Header(counter, pt, timestamp);
      for k := 0 to |payload|
        invariant data[..12] == head
        invariant data[12..12 + k] == payload[..k]
      {
        data[12 + k] := payload[k];
        assert data[12..12 + k + 1] == data[12..12 + k] + [payload[k]];
      }
      assert data[..] == data[..12] + data[12..12 + |payload|];
    }

    /** How far the index that the session rebuilt lies behind the counter. */
    ghost function Lag(s: SrtpSession): int
      reads this, s
    {
      counter - (0x1_0000 * s.roc + s.last)
    }

    /** `send_audio` of the transport and of its SRTP subclass: number the packet, form it,
        copy it into a buffer with 64 octets to spare, protect it there, cut the buffer to the
        new length and send it, whatever the status was.  A packet that the window refuses goes
        out in the clear, with nul octets where the trailer belongs.  The session takes every
        packet less than 2^15 counts after the last, and its two fields then spell the count;
        it takes none more than 2^15 and at most 2^16 - 64 after. */
    method SendAudio(s: SrtpSession, payload: Bytes, u: Undefined, beyond: Bytes)
      returns (status: Status, wire: Bytes)
      requires s.Valid() && |beyond| == 16
      modifies this`counter, s`roc, s`last, s`window, s.cipher`ctr
      ensures s.Valid() && counter == old(counter) + 1
      ensures status == if Advance(old(s.Snapshot()).st, SeqOf(counter), u).Some? then Ok else EACCES
      ensures var p := RtpPacket(counter, pt, samplesPerFrame, payload);
              OnTheWire(s.crypto, old(s.Snapshot()), p, u, Outcome(status, s.Snapshot(), wire))
      ensures 0 <= old(Lag(s)) && old(Lag(s)) + 1 < 0x8000 && counter < 0x1_0000_0000_0000 ==>
                status == Ok && Lag(s) == 0
      ensures 0x8000 < old(Lag(s)) + 1 <= 0x1_0000 - 64 ==> status == EACCES
    {
      IncSeqNo();
      var data := FormRtp(payload);
      FramingRoundTrip(counter, pt, samplesPerFrame, payload);
      SentByLag(s.crypto, s.Snapshot(), data[..], counter, u);
      status, wire := Protected(s, data, u, beyond);
    }
  }

  /** What `send_audio` makes of a packet: the protected packet, or the packet as it was
      followed by as many nul octets as the trailer would have had. */
  ghost predicate OnTheWire(c: Crypto, s: Session, p: Bytes, u: Undefined, o: Outcome)
    requires ValidConfig(s.cfg) && |p| >= 12
  {
    var sent := Send(c, s, p, |p| + 64, u);
    && o.status == sent.status && o.session == sent.session
    && o.packet == if sent.status == Ok then sent.packet else p + Zeros(WireLength(s.cfg, p) - |p|)
  }

  /** The copy, the call and the cut. */
  method Protected(s: SrtpSession, data: array<byte>, u: Undefined, beyond: Bytes)
    returns (status: Status, wire: Bytes)
    requires s.Valid() && |beyond| == 16 && data.Length >= 12
    modifies s`roc, s`last, s`window, s.cipher`ctr
    ensures s.Valid()
    ensures OnTheWire(s.crypto, old(s.Snapshot()), data[..], u, Outcome(status, s.Snapshot(), wire))
  {
    var b := new byte[data.Length + 64](_ => 0);
    CopyTo(b, 0, data[..]);
    ghost var p, was := data[..], b[..];
    assert was == p + Zeros(64);
    assert b[..data.Length] == p;
    TrailerFits(s.Snapshot().cfg, p);
    ghost var o := Send(s.crypto, s.Snapshot(), p, |p| + 64, u);
    var len;
    status, len := s.Send(b, data.Length, b.Length, u, beyond);
    wire := b[..len];
    CutAt(p, was, o.packet, len, b[..]);
  }

  lemma TrailerFits(cfg: Config, p: Bytes)
    requires ValidConfig(cfg) && |p| >= 12
    ensures |p| <= WireLength(cfg, p) <= |p| + 64
  {
  }

  /** What is left of the buffer after the cut, whether the packet was replaced or not. */
  lemma CutAt(p: Bytes, was: Bytes, sent: Bytes, len: nat, now: Bytes)
    requires was == p + Zeros(64) && |p| <= len <= |p| + 64 == |now|
    ensures now == sent + was[len..] ==> now[..len] == sent
    ensures now == was ==> now[..len] == p + Zeros(len - |p|)
  {
  }

  lemma RoomEnough(c: Crypto, s: Session, p: Bytes, u: Undefined)
    requires ValidConfig(s.cfg) && |p| >= 12 && Offset(p).Some?
    ensures Send(c, s, p, |p| + 64, u).status == if Advance(s.st, RtpSeq(p), u).Some? then Ok else EACCES
    ensures Advance(s.st, RtpSeq(p), u).Some? ==>
              Advance(s.st, RtpSeq(p), u).value == Send(c, s, p, |p| + 64, u).session.st
  {
  }

  /** What the window makes of the i-th frame, by how far it is ahead of the last packet. */
  lemma ByLag(st: Replay, top: int, i: int, u: Undefined)
    requires At(st, top)
    ensures 0 < i - top < 0x8000 ==> Advance(st, SeqOf(i), u).Some? && At(Advance(st, SeqOf(i), u).value, i)
    ensures 0x8000 < i - top <= 0x1_0000 - 64 ==> Advance(st, SeqOf(i), u).None?
  {
    if 0 < i - top < 0x8000 {
      AdvanceIff(st, top, i, u);
    } else if 0x8000 < i - top <= 0x1_0000 - 64 {
      OneRoundBack(i);
      AdvanceIff(st, top, i - 0x1_0000, u);
    }
  }

  /** The outcome for the i-th frame, by how far the index that the session spells is behind. */
  lemma SentByLag(c: Crypto, s: Session, p: Bytes, i: nat, u: Undefined)
    requires ValidConfig(s.cfg) && |p| >= 12 && Offset(p).Some? && RtpSeq(p) == SeqOf(i)
    ensures var o := Send(c, s, p, |p| + 64, u);
            var lag := i - (0x1_0000 * s.st.roc + s.st.last);
            && o.status == (if Advance(s.st, SeqOf(i), u).Some? then Ok else EACCES)
            && (0 < lag < 0x8000 && i < 0x1_0000_0000_0000 ==>
                  o.status == Ok && 0x1_0000 * o.session.st.roc + o.session.st.last == i)
            && (0x8000 < lag <= 0x1_0000 - 64 ==> o.status == EACCES)
  {
    var top := 0x1_0000 * s.st.roc + s.st.last;
    SpelledIndex(s.st, top);
    ByLag(s.st, top, i, u);
    RoomEnough(c, s, p, u);
    if i < 0x1_0000_0000_0000 {
      SmallIndex(i);
    }
  }

  lemma OneRoundBack(i: int)
    ensures SeqOf(i - 0x1_0000) == SeqOf(i)
  {
  }

  /** A frame less than 2^16 ahead of the last packet is refused on every machine if and only
      if it is more than 2^15 ahead and, one round back, out of reach or already marked. */
  lemma RefusedIffLongSilence(st: Replay, top: int, i: int)
    requires At(st, top) && 0 < i - top < 0x1_0000
    ensures (forall u :: Advance(st, SeqOf(i), u).None?) <==>
            i - top > 0x8000 && (i - top <= 0x1_0000 - 64 || Bit(st.window, 0x1_0000 - (i - top)))
  {
    var j := if i - top < 0x8000 then i else i - 0x1_0000;
    OneRoundBack(i);
    forall u
      ensures Advance(st, SeqOf(i), u).Some? <==> Passes(st, top, j, u)
    {
      AdvanceIff(st, top, j, u);
    }
    assert Advance(st, SeqOf(i), Undefined(0, 0)).Some? <==> Passes(st, top, j, Undefined(0, 0));
  }

  /** Two fields that spell an index stand at it. */
  lemma SpelledIndex(st: Replay, top: int)
    requires top == 0x1_0000 * st.roc + st.last
    ensures At(st, top)
  {
    assert top / 0x1_0000 == st.roc;
  }
}
