/** A sender and a receiver session joined by a network that drops, duplicates and
    reorders packets: safety over every run. */
module Network {
  import opened Wrappers
  import opened ByteStrings
  import opened RollOverCounter
  import opened ReplayWindow
  import opened Srtp
  import opened RoundTrip
  import opened CounterCarry

  /** A packet on the wire, its index, and the call that made it. */
  datatype Sent = Sent(index: int, plain: Bytes, wire: Bytes, origin: Session, top: int, bufsize: nat, u: Undefined)

  /** Both sessions with the unbounded index of their tops, everything ever put on the wire,
      which of it the receiver accepted, and what the receiver handed out. */
  datatype Net = Net(s: Session, r: Session, ts: int, tr: int, sent: seq<Sent>, got: seq<nat>, out: seq<Bytes>)

  /** The network chooses freely which packet arrives next and how often. */
  datatype Action =
    | Submit(p: Bytes, bufsize: nat, u: Undefined)
    | Deliver(k: nat, u: Undefined)

  function Start(cfg: Config): Net {
    Net(Session(cfg, Fresh), Session(cfg, Fresh), 0, 0, [], [], [])
  }

  function DoSubmit(c: Crypto, n: Net, p: Bytes, bufsize: nat, u: Undefined): Net
    requires ValidConfig(n.s.cfg)
  {
    var o := Send(c, n.s, p, bufsize, u);
    if o.status != Ok then n.(s := o.session)
    else
      var i := n.ts + Diff16(n.s.st.last, RtpSeq(p));
      n.(s := o.session, ts := if i > n.ts then i else n.ts,
         sent := n.sent + [Sent(i, p, o.packet, n.s, n.ts, bufsize, u)])
  }

  function DoDeliver(c: Crypto, n: Net, k: nat, u: Undefined): Net
    requires ValidConfig(n.r.cfg)
  {
    if k >= |n.sent| then n
    else
      var o := Recv(c, n.r, n.sent[k].wire, u);
      if o.status != Ok then n.(r := o.session)
      else
        var i := n.sent[k].index;
        n.(r := o.session, tr := if i > n.tr then i else n.tr, got := n.got + [k], out := n.out + [o.packet])
  }

  function Step(c: Crypto, n: Net, a: Action): (n': Net)
    requires ValidConfig(n.s.cfg) && ValidConfig(n.r.cfg)
    ensures n'.s.cfg == n.s.cfg && n'.r.cfg == n.r.cfg
  {
    match a
    case Submit(p, bufsize, u) => DoSubmit(c, n, p, bufsize, u)
    case Deliver(k, u) => DoDeliver(c, n, k, u)
  }

  function Run(c: Crypto, cfg: Config, acts: seq<Action>): (n: Net)
    requires ValidConfig(cfg)
    ensures n.s.cfg == n.r.cfg == cfg
  {
    if acts == [] then Start(cfg) else Step(c, Run(c, cfg, acts[..|acts| - 1]), acts[|acts| - 1])
  }

  /** The sender's packets are never exactly 2^15 behind; arrivals are strictly within 2^15 of
      the receiver's highest accepted index. */
  ghost predicate Legal(n: Net, a: Action) {
    match a
    case Submit(p, _, _) => |p| >= 12 ==> Diff16(n.s.st.last, RtpSeq(p)) != -0x8000
    case Deliver(k, _) => k < |n.sent| ==> -0x8000 < n.sent[k].index - n.tr < 0x8000
  }

  ghost predicate LegalRun(c: Crypto, cfg: Config, acts: seq<Action>)
    requires ValidConfig(cfg)
  {
    acts == [] || (LegalRun(c, cfg, acts[..|acts| - 1]) && Legal(Run(c, cfg, acts[..|acts| - 1]), acts[|acts| - 1]))
  }

  /** A packet that can be undone: its header fits 16 bits, and if it carries a counter it is
      not late across a wrap (with carrying off none is). */
  predicate Sound(s: Session, p: Bytes)
    requires s.cfg.rccRate > 0 && |p| >= 12
  {
    !HeaderWraps(p) && InTime(s, RtpSeq(p))
  }

  /** Only such packets are sent. */
  ghost predicate SoundRun(c: Crypto, cfg: Config, acts: seq<Action>)
    requires ValidConfig(cfg)
  {
    acts == [] ||
    var before, a := acts[..|acts| - 1], acts[|acts| - 1];
    && SoundRun(c, cfg, before)
    && (a.Submit? && |a.p| >= 12 ==> Sound(Run(c, cfg, before).s, a.p))
  }

  // ----- the invariant

  ghost function Indices(sent: seq<Sent>): set<int> {
    set k | 0 <= k < |sent| :: sent[k].index
  }

  ghost function GotIndices(n: Net): set<int>
    requires forall j :: 0 <= j < |n.got| ==> n.got[j] < |n.sent|
  {
    set j | 0 <= j < |n.got| :: n.sent[n.got[j]].index
  }

  ghost predicate Sealed(c: Crypto, cfg: Config, x: Sent) {
    && x.origin.cfg == cfg && ValidConfig(cfg) && |x.plain| >= 12
    && At(x.origin.st, x.top) && SeqOf(x.index) == RtpSeq(x.plain) && -0x8000 <= x.index - x.top < 0x8000
    && Send(c, x.origin, x.plain, x.bufsize, x.u).status == Ok
    && Send(c, x.origin, x.plain, x.bufsize, x.u).packet == x.wire
  }

  ghost predicate AllSealed(c: Crypto, cfg: Config, sent: seq<Sent>) {
    forall k :: 0 <= k < |sent| ==> Sealed(c, cfg, sent[k])
  }

  ghost predicate SoundSent(x: Sent) {
    x.origin.cfg.rccRate > 0 && |x.plain| >= 12 && Sound(x.origin, x.plain)
  }

  lemma {:induction false} RunSound(c: Crypto, cfg: Config, acts: seq<Action>, k: nat)
    requires ValidConfig(cfg) && SoundRun(c, cfg, acts) && k < |Run(c, cfg, acts).sent|
    ensures SoundSent(Run(c, cfg, acts).sent[k])
  {
    var before := acts[..|acts| - 1];
    if k < |Run(c, cfg, before).sent| {
      RunSound(c, cfg, before, k);
    }
  }

  lemma AllSealedPush(c: Crypto, cfg: Config, sent: seq<Sent>, x: Sent)
    requires AllSealed(c, cfg, sent) && Sealed(c, cfg, x)
    ensures AllSealed(c, cfg, sent + [x])
  {
  }

  lemma IndicesPush(sent: seq<Sent>, x: Sent)
    ensures Indices(sent + [x]) == Indices(sent) + {x.index}
  {
    var all := sent + [x];
    assert all[|sent|] == x;
    assert forall k :: 0 <= k < |sent| ==> all[k] == sent[k];
  }

  ghost predicate SenderInv(c: Crypto, cfg: Config, n: Net) {
    && Safe(n.s.st, n.ts, Indices(n.sent))
    && AllSealed(c, cfg, n.sent)
    && (forall k, l :: 0 <= k < l < |n.sent| ==> n.sent[k].index != n.sent[l].index)
  }

  ghost predicate Faithful(n: Net) {
    && |n.out| == |n.got|
    && (forall j :: 0 <= j < |n.got| ==> n.got[j] < |n.sent| && n.out[j] == n.sent[n.got[j]].plain)
  }

  ghost predicate ReceiverInv(n: Net) {
    && Faithful(n)
    && Distinct(n.got)
    && Safe(n.r.st, n.tr, GotIndices(n))
  }

  /** A packet recorded under an index never used before. */
  ghost predicate FreshRecord(c: Crypto, cfg: Config, n: Net, x: Sent, s: Session) {
    && x.index !in Indices(n.sent) && Sealed(c, cfg, x)
    && Safe(s.st, Max(x.index, n.ts), Indices(n.sent) + {x.index})
  }

  lemma SubmitOutcome(c: Crypto, cfg: Config, n: Net, p: Bytes, bufsize: nat, u: Undefined)
      returns (x: Sent, s: Session)
    requires ValidConfig(cfg) && n.s.cfg == cfg
    requires Legal(n, Submit(p, bufsize, u)) && Safe(n.s.st, n.ts, Indices(n.sent))
    requires Send(c, n.s, p, bufsize, u).status == Ok
    ensures DoSubmit(c, n, p, bufsize, u) == Record(n, x, s) && FreshRecord(c, cfg, n, x, s)
  {
    SendAdvances(c, n.s, p, bufsize, u);
    var i := n.ts + Diff16(n.s.st.last, RtpSeq(p));
    SeqOfStep(n.ts, RtpSeq(p));
    x, s := SubmitRecords(c, n, p, bufsize, u, i);
    SealedBySend(c, cfg, x);
    AdvanceKeepsSafe(n.s.st, n.ts, Indices(n.sent), i, u);
  }

  lemma SubmitRecords(c: Crypto, n: Net, p: Bytes, bufsize: nat, u: Undefined, i: int) returns (x: Sent, s: Session)
    requires ValidConfig(n.s.cfg) && Send(c, n.s, p, bufsize, u).status == Ok && |p| >= 12
    requires i == n.ts + Diff16(n.s.st.last, RtpSeq(p))
    ensures s == Send(c, n.s, p, bufsize, u).session
    ensures x == Sent(i, p, Send(c, n.s, p, bufsize, u).packet, n.s, n.ts, bufsize, u)
    ensures DoSubmit(c, n, p, bufsize, u) == Record(n, x, s)
  {
    s := Send(c, n.s, p, bufsize, u).session;
    x := Sent(i, p, Send(c, n.s, p, bufsize, u).packet, n.s, n.ts, bufsize, u);
  }

  lemma SealedBySend(c: Crypto, cfg: Config, x: Sent)
    requires x.origin.cfg == cfg && ValidConfig(cfg) && |x.plain| >= 12
    requires At(x.origin.st, x.top) && SeqOf(x.index) == RtpSeq(x.plain) && -0x8000 <= x.index - x.top < 0x8000
    requires Send(c, x.origin, x.plain, x.bufsize, x.u).status == Ok
    requires Send(c, x.origin, x.plain, x.bufsize, x.u).packet == x.wire
    ensures Sealed(c, cfg, x)
  {
  }

  lemma SubmitKeeps(c: Crypto, cfg: Config, n: Net, p: Bytes, bufsize: nat, u: Undefined)
    requires ValidConfig(cfg) && n.s.cfg == cfg
    requires Legal(n, Submit(p, bufsize, u)) && SenderInv(c, cfg, n)
    ensures SenderInv(c, cfg, DoSubmit(c, n, p, bufsize, u))
    ensures ReceiverInv(n) ==> ReceiverInv(DoSubmit(c, n, p, bufsize, u))
  {
    if Send(c, n.s, p, bufsize, u).status == Ok {
      var x, s := SubmitOutcome(c, cfg, n, p, bufsize, u);
      RecordKeepsSender(c, cfg, n, x, s);
      RecordKeepsReceiver(n, x, s);
    } else {
      assert DoSubmit(c, n, p, bufsize, u) == n;
    }
  }

  /** The sender's move: one more packet on the wire. */
  ghost function Record(n: Net, x: Sent, s: Session): Net {
    n.(s := s, ts := Max(x.index, n.ts), sent := n.sent + [x])
  }

  lemma RecordKeepsSender(c: Crypto, cfg: Config, n: Net, x: Sent, s: Session)
    requires SenderInv(c, cfg, n) && FreshRecord(c, cfg, n, x, s)
    ensures SenderInv(c, cfg, Record(n, x, s))
  {
    AllSealedPush(c, cfg, n.sent, x);
    IndicesPush(n.sent, x);
    forall k | 0 <= k < |n.sent|
      ensures n.sent[k].index != x.index
    {
      assert n.sent[k].index in Indices(n.sent);
    }
  }

  lemma RecordKeepsReceiver(n: Net, x: Sent, s: Session)
    ensures ReceiverInv(n) ==> ReceiverInv(Record(n, x, s))
  {
    if ReceiverInv(n) {
      assert GotIndices(Record(n, x, s)) == GotIndices(n);
    }
  }

  /** The receiver's move: one more packet handed out. */
  ghost function Accept(n: Net, k: nat, st: Replay): Net
    requires k < |n.sent|
  {
    n.(r := n.r.(st := st), tr := Max(n.sent[k].index, n.tr), got := n.got + [k], out := n.out + [n.sent[k].plain])
  }

  /** The packet is accepted exactly when it is ahead, or in reach with its bit clear. */
  ghost predicate DeliveryByWindow(c: Crypto, n: Net, k: nat, u: Undefined)
    requires k < |n.sent| && ValidConfig(n.r.cfg)
  {
    if InReach(n.r.st, n.tr, n.sent[k].index) then
      var next := Advance(n.r.st, SeqOf(n.sent[k].index), u);
      next.Some? && DoDeliver(c, n, k, u) == Accept(n, k, next.value)
    else DoDeliver(c, n, k, u) == n
  }

  lemma DeliverOutcome(c: Crypto, cfg: Config, n: Net, k: nat, u: Undefined)
    requires ValidConfig(cfg) && n.r.cfg == cfg
    requires k < |n.sent| && Legal(n, Deliver(k, u)) && SoundSent(n.sent[k])
    requires Sealed(c, cfg, n.sent[k]) && At(n.r.st, n.tr)
    ensures DeliveryByWindow(c, n, k, u)
  {
    var x := n.sent[k];
    RoundTripByIndex(c, x.origin, n.r, x.top, n.tr, x.index, x.plain, x.bufsize, x.u, u);
  }

  lemma AcceptKeeps(n: Net, k: nat, u: Undefined, st: Replay)
    requires k < |n.sent| && Legal(n, Deliver(k, u)) && ReceiverInv(n)
    requires Advance(n.r.st, SeqOf(n.sent[k].index), u) == Some(st)
    ensures ReceiverInv(Accept(n, k, st))
  {
    var n', i := Accept(n, k, st), n.sent[k].index;
    AdvanceKeepsSafe(n.r.st, n.tr, GotIndices(n), i, u);
    assert GotIndices(n') == GotIndices(n) + {i} by {
      assert n'.got[|n.got|] == k;
      assert forall j :: 0 <= j < |n.got| ==> n'.got[j] == n.got[j];
    }
    forall j | 0 <= j < |n.got|
      ensures n.got[j] != k
    {
      assert n.sent[n.got[j]].index in GotIndices(n);
    }
  }

  lemma DeliverKeeps(c: Crypto, cfg: Config, n: Net, k: nat, u: Undefined)
    requires ValidConfig(cfg) && n.r.cfg == cfg
    requires k < |n.sent| && Legal(n, Deliver(k, u)) && SoundSent(n.sent[k])
    requires SenderInv(c, cfg, n) && ReceiverInv(n)
    ensures SenderInv(c, cfg, DoDeliver(c, n, k, u)) && ReceiverInv(DoDeliver(c, n, k, u))
  {
    DeliverOutcome(c, cfg, n, k, u);
    if InReach(n.r.st, n.tr, n.sent[k].index) {
      AcceptKeeps(n, k, u, Advance(n.r.st, SeqOf(n.sent[k].index), u).value);
    }
  }

  lemma {:induction false} RunKeeps(c: Crypto, cfg: Config, acts: seq<Action>)
    requires ValidConfig(cfg) && LegalRun(c, cfg, acts) && SoundRun(c, cfg, acts)
    ensures SenderInv(c, cfg, Run(c, cfg, acts)) && ReceiverInv(Run(c, cfg, acts))
  {
    if acts == [] {
    } else {
      var before := acts[..|acts| - 1];
      var n := Run(c, cfg, before);
      RunKeeps(c, cfg, before);
      match acts[|acts| - 1]
      case Submit(p, bufsize, u) => SubmitKeeps(c, cfg, n, p, bufsize, u);
      case Deliver(k, u) =>
        if k < |n.sent| {
          RunSound(c, cfg, before, k);
          DeliverKeeps(c, cfg, n, k, u);
        }
    }
  }

  /** The sender's half of the invariant holds in every mode, whatever the receiver does. */
  lemma {:induction false} RunKeepsSender(c: Crypto, cfg: Config, acts: seq<Action>)
    requires ValidConfig(cfg) && LegalRun(c, cfg, acts)
    ensures SenderInv(c, cfg, Run(c, cfg, acts))
  {
    if acts == [] {
    } else {
      var before := acts[..|acts| - 1];
      RunKeepsSender(c, cfg, before);
      match acts[|acts| - 1]
      case Submit(p, bufsize, u) => SubmitKeeps(c, cfg, Run(c, cfg, before), p, bufsize, u);
      case Deliver(k, u) =>
    }
  }

  ghost predicate WasSubmitted(acts: seq<Action>, p: Bytes) {
    exists m :: 0 <= m < |acts| && acts[m].Submit? && acts[m].p == p
  }

  lemma {:induction false} SentWasSubmitted(c: Crypto, cfg: Config, acts: seq<Action>, k: nat)
    requires ValidConfig(cfg) && k < |Run(c, cfg, acts).sent|
    ensures WasSubmitted(acts, Run(c, cfg, acts).sent[k].plain)
  {
    var last := |acts| - 1;
    var before := acts[..last];
    var n := Run(c, cfg, before);
    if k < |n.sent| {
      SentWasSubmitted(c, cfg, before, k);
      var m :| 0 <= m < |before| && before[m].Submit? && before[m].p == n.sent[k].plain;
      assert acts[m] == before[m];
      assert Run(c, cfg, acts).sent[k] == n.sent[k];
    } else {
      assert acts[last].Submit?;
    }
  }

  /** What the receiver handed out is, octet for octet, what was given to the sender; no
      packet is handed out twice, and no index is used twice. */
  ghost predicate DeliveredOnceAndExactly(n: Net, acts: seq<Action>) {
    && Faithful(n) && Distinct(n.got)
    && (forall j :: 0 <= j < |n.out| ==> WasSubmitted(acts, n.out[j]))
    && (forall k, l :: 0 <= k < l < |n.sent| ==> n.sent[k].index != n.sent[l].index)
  }

  /** ... over every legal run, in every mode. */
  lemma LossyNetworkSafe(c: Crypto, cfg: Config, acts: seq<Action>)
    requires ValidConfig(cfg) && LegalRun(c, cfg, acts) && SoundRun(c, cfg, acts)
    ensures DeliveredOnceAndExactly(Run(c, cfg, acts), acts)
  {
    RunKeeps(c, cfg, acts);
    var n := Run(c, cfg, acts);
    forall j | 0 <= j < |n.out|
      ensures WasSubmitted(acts, n.out[j])
    {
      SentWasSubmitted(c, cfg, acts, n.got[j]);
    }
  }

  /** After every legal run, a packet on the wire that is ahead of the receiver is accepted,
      and one behind is accepted exactly when its bit is in reach and clear; a refusal
      changes nothing. */
  lemma NextDelivery(c: Crypto, cfg: Config, acts: seq<Action>, k: nat, u: Undefined)
    requires ValidConfig(cfg) && LegalRun(c, cfg, acts) && SoundRun(c, cfg, acts)
    requires k < |Run(c, cfg, acts).sent| && Legal(Run(c, cfg, acts), Deliver(k, u))
    ensures DeliveryByWindow(c, Run(c, cfg, acts), k, u)
  {
    RunKeeps(c, cfg, acts);
    RunSound(c, cfg, acts, k);
    DeliverOutcome(c, cfg, Run(c, cfg, acts), k, u);
  }
}
