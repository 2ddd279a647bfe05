/** What a refused packet leaves behind (libsrtp_decrypt/srtp.c, lines 466-507 and 649-685). */
module Rejections {
  import opened Wrappers
  import opened ByteStrings
  import opened RollOverCounter
  import opened ReplayWindow
  import opened Srtp

  /** Every failing path of `srtp_send` leaves session and packet as they were, in every mode. */
  lemma RefusedSend(c: Crypto, s: Session, p: Bytes, bufsize: nat, u: Undefined)
    requires ValidConfig(s.cfg)
    ensures var o := Send(c, s, p, bufsize, u); o.status != Ok ==> o.session == s && o.packet == p
  {
  }

  /** The carried counter of a packet, where the receiver reads one. */
  function Carried(cfg: Config, w: Bytes): Option<uint32>
    requires ValidConfig(cfg)
  {
    if |w| < 12 || !Carries(cfg, RtpSeq(w)) then None
    else
      var t := TrailerFor(cfg, RtpSeq(w));
      if |w| < 12 + t.roc + t.tag then None
      else Some(U32(w[|w| - 4 - t.tag..|w| - t.tag]))
  }

  /** The tag of a packet that carries a counter matches. */
  predicate CarriedTagMatches(c: Crypto, cfg: Config, w: Bytes)
    requires ValidConfig(cfg) && Carried(cfg, w).Some?
  {
    var n := TrailerFor(cfg, RtpSeq(w)).tag;
    w[|w| - n..] == Tag(c, cfg.keys.auth, w[..|w| - 4 - n], Carried(cfg, w).value, n)
  }

  /** `srtp_recv` adopts a carried counter before the window is consulted, so a refused
      packet changes the session exactly when it carries another counter under a matching
      tag; otherwise every failing path leaves the session as it was. */
  lemma RefusedRecv(c: Crypto, s: Session, w: Bytes, u: Undefined)
    requires ValidConfig(s.cfg) && Recv(c, s, w, u).status != Ok
    ensures Recv(c, s, w, u).session != s <==>
            && Carried(s.cfg, w).Some?
            && CarriedTagMatches(c, s.cfg, w)
            && Carried(s.cfg, w).value != EstimatedRoc(s.st, RtpSeq(w))
    ensures Recv(c, s, w, u).session == s.(st := s.st.(roc := Recv(c, s, w, u).session.st.roc))
  {
    if |w| >= 12 {
      AuthenticateMoves(c, s, w);
    }
  }

  lemma AuthenticateMoves(c: Crypto, s: Session, w: Bytes)
    requires ValidConfig(s.cfg) && |w| >= 12
    ensures Authenticate(c, s, w).session != s <==>
            && Carried(s.cfg, w).Some?
            && CarriedTagMatches(c, s.cfg, w)
            && Carried(s.cfg, w).value != EstimatedRoc(s.st, RtpSeq(w))
    ensures Authenticate(c, s, w).session == s.(st := s.st.(roc := Authenticate(c, s, w).session.st.roc))
  {
    if Carried(s.cfg, w).Some? {
      var t, rcc := TrailerFor(s.cfg, RtpSeq(w)), Carried(s.cfg, w).value;
      AuthenticateBy(c, s, w, t, |w| - 4 - t.tag, rcc);
      ResyncMoves(s.st.roc, rcc, EstimatedRoc(s.st, RtpSeq(w)));
    }
  }

  lemma ResyncMoves(roc: uint32, rcc: uint32, est: uint32)
    ensures Resync(roc, rcc, est) == roc <==> rcc == est
  {
  }

  lemma RefusedWithoutCarry(c: Crypto, s: Session, w: Bytes, u: Undefined)
    requires ValidConfig(s.cfg) && RccMode(s.cfg) == 0 && Recv(c, s, w, u).status != Ok
    ensures Recv(c, s, w, u).session == s
  {
    RefusedRecv(c, s, w, u);
  }

  // ----- runs

  /** A receiver with the unbounded index of its top, the accepted indices and the outputs. */
  datatype Rx = Rx(r: Session, top: int, log: seq<int>, out: seq<Bytes>)

  function Take(c: Crypto, x: Rx, a: Arrived): (y: Rx)
    requires ValidConfig(x.r.cfg)
    ensures y.r.cfg == x.r.cfg
  {
    var o := Recv(c, x.r, a.w, a.u);
    if o.status != Ok then x.(r := o.session)
    else
      var i := x.top + Diff16(x.r.st.last, RtpSeq(a.w));
      Rx(o.session, if i > x.top then i else x.top, x.log + [i], x.out + [o.packet])
  }

  function RecvAll(c: Crypto, x: Rx, arrived: seq<Arrived>): (y: Rx)
    requires ValidConfig(x.r.cfg)
    ensures y.r.cfg == x.r.cfg
  {
    if arrived == [] then x
    else Take(c, RecvAll(c, x, arrived[..|arrived| - 1]), arrived[|arrived| - 1])
  }

  /** The run with every refused packet deleted. */
  function Accepted(c: Crypto, x: Rx, arrived: seq<Arrived>): seq<Arrived>
    requires ValidConfig(x.r.cfg)
  {
    if arrived == [] then []
    else
      var before, last := arrived[..|arrived| - 1], arrived[|arrived| - 1];
      var y := RecvAll(c, x, before);
      Accepted(c, x, before) + if Recv(c, y.r, last.w, last.u).status == Ok then [last] else []
  }

  /** With carrying off, refused packets are invisible: any run of arbitrary arrivals ends in
      the same session with the same outputs as the run without them, in which one packet is
      handed out for each arrival. */
  lemma {:induction false} RefusedAreInvisible(c: Crypto, x: Rx, arrived: seq<Arrived>)
    requires ValidConfig(x.r.cfg) && RccMode(x.r.cfg) == 0
    ensures RecvAll(c, x, Accepted(c, x, arrived)) == RecvAll(c, x, arrived)
    ensures |RecvAll(c, x, arrived).out| == |x.out| + |Accepted(c, x, arrived)|
  {
    if arrived == [] {
    } else {
      var before, last := arrived[..|arrived| - 1], arrived[|arrived| - 1];
      RefusedAreInvisible(c, x, before);
      var y, kept := RecvAll(c, x, before), Accepted(c, x, before);
      if Recv(c, y.r, last.w, last.u).status == Ok {
        assert (kept + [last])[..|kept|] == kept;
      } else {
        RefusedWithoutCarry(c, y.r, last.w, last.u);
        assert kept + [] == kept;
      }
    }
  }
}
