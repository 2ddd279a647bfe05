/** The replay window of an SRTP session (libsrtp_decrypt/srtp.c, lines 488-509;
    section 3.3.2 of RFC 3711): a 64-bit word that must agree with a plain set of
    packet indices. */
module ReplayWindow {
  import opened Wrappers
  import opened Bits
  import opened RollOverCounter

  type uint64 = n: nat | n < 0x1_0000_0000_0000_0000

  /** The highest packet accepted so far and the bit word hanging from it. */
  datatype Replay = Replay(roc: uint32, last: uint16, window: uint64)

  const Fresh: Replay := Replay(0, 0, 0)

  /** What the two shifts of one call yield when their count is outside 0..63,
      where C leaves the result undefined. */
  datatype Undefined = Undefined(left: uint64, right: uint64)

  function ShiftLeft(w: uint64, d: int, undefined: uint64): uint64 {
    if 0 <= d < 64 then ShlBound(w, d); Shl64(w, d) else undefined
  }

  function ShiftRight(w: uint64, d: int, undefined: uint64): nat {
    if 0 <= d < 64 then Shr(w, d) else undefined
  }

  function OrWord(a: uint64, b: uint64): uint64 {
    OrBound64(a, b);
    Or(a, b)
  }

  /** `diff = -diff` in an `int16_t`. */
  function Negate16(d: int): int {
    if d == -0x8000 then d else -d
  }

  /** The session update of `srtp_crypt`; `None` is the EACCES return. */
  function Advance(st: Replay, sn: uint16, u: Undefined): Option<Replay> {
    var diff := Diff16(st.last, sn);
    if diff > 0 then
      Some(Replay(ComputeRoc(st.roc, st.last, sn), sn, OrWord(ShiftLeft(st.window, diff, u.left), 1)))
    else
      var back := Negate16(diff);
      if back >= 64 || ShiftRight(st.window, back, u.right) % 2 == 1 then
        None
      else
        Some(st.(window := OrWord(st.window, ShiftLeft(1, back, u.left))))
  }

  // ----- what the word means

  ghost predicate At(st: Replay, top: int) {
    st.roc == RocOf(top) && st.last == SeqOf(top)
  }

  ghost predicate Recorded(w: uint64, top: int, i: int) {
    i <= top && (top - i < 64 ==> Bit(w, top - i))
  }

  /** Every accepted index is at or below the top, and its bit is set while it is in reach. */
  ghost predicate Safe(st: Replay, top: int, seen: set<int>) {
    At(st, top) && forall i :: i in seen ==> Recorded(st.window, top, i)
  }

  ghost predicate BitMeansSeen(w: uint64, top: int, seen: set<int>, k: nat) {
    Bit(w, k) <==> top - k in seen
  }

  /** Bit k is set exactly when the packet k behind the top was accepted. */
  ghost predicate Exact(w: uint64, top: int, seen: set<int>) {
    forall k: nat :: k < 64 ==> BitMeansSeen(w, top, seen, k)
  }

  ghost predicate InReach(st: Replay, top: int, i: int) {
    top < i || (top - i < 64 && !Bit(st.window, top - i))
  }

  lemma AheadBits(w: uint64, d: nat, undefined: uint64, k: nat)
    requires 0 < d && k < 64
    ensures d < 64 ==> Bit(OrWord(ShiftLeft(w, d, undefined), 1), k) == (k == 0 || (d <= k && Bit(w, k - d)))
    ensures k == 0 ==> Bit(OrWord(ShiftLeft(w, d, undefined), 1), k)
  {
    OrBit(ShiftLeft(w, d, undefined), 1, k);
    OneBit(k);
    if d < 64 {
      ShlBit(w, d, k);
    }
  }

  lemma BehindBits(w: uint64, d: nat, undefined: uint64, k: nat)
    requires d < 64 && k < 64
    ensures Bit(OrWord(w, ShiftLeft(1, d, undefined)), k) == (k == d || Bit(w, k))
  {
    OrBit(w, ShiftLeft(1, d, undefined), k);
    ShlBit(1, d, k);
    if d <= k {
      OneBit(k - d);
    }
  }

  /** Exactly 2^15 behind, both shift counts are negative and only the undefined value
      decides; everywhere else the window does. */
  ghost predicate Passes(st: Replay, top: int, i: int, u: Undefined) {
    if top - i == 0x8000 then u.right % 2 == 0 else InReach(st, top, i)
  }

  /** A packet passes exactly when it is ahead, or in reach with its bit clear;
      a packet that passes moves the top to the larger index. */
  lemma AdvanceIff(st: Replay, top: int, i: int, u: Undefined)
    requires At(st, top) && -0x8000 <= i - top < 0x8000
    ensures Advance(st, SeqOf(i), u).Some? <==> Passes(st, top, i, u)
    ensures Advance(st, SeqOf(i), u).Some? ==> At(Advance(st, SeqOf(i), u).value, if i > top then i else top)
    ensures Advance(st, SeqOf(i), u).Some? && i <= top ==>
              Advance(st, SeqOf(i), u).value == st.(window := OrWord(st.window, ShiftLeft(1, top - i, u.left)))
    ensures i > top ==>
              Advance(st, SeqOf(i), u)
              == Some(Replay(RocOf(i), SeqOf(i), OrWord(ShiftLeft(st.window, i - top, u.left), 1)))
  {
    NearestIndex(top, i);
  }

  /** Whether a packet passes is the window's decision, whatever the machine makes of
      undefined shifts, if and only if it is not exactly 2^15 behind. */
  lemma WindowDecidesIff(st: Replay, top: int, i: int)
    requires At(st, top) && -0x8000 <= i - top < 0x8000
    ensures (forall u :: Advance(st, SeqOf(i), u).Some? <==> InReach(st, top, i)) <==> i - top != -0x8000
  {
    forall u
      ensures Advance(st, SeqOf(i), u).Some? <==> Passes(st, top, i, u)
    {
      AdvanceIff(st, top, i, u);
    }
    if i - top == -0x8000 {
      assert Advance(st, SeqOf(i), Undefined(0, 0)).Some?;
    }
  }

  ghost function Max(a: int, b: int): int { if a > b then a else b }

  /** Whatever the undefined shifts yield, an accepted packet is new and stays recorded. */
  lemma AdvanceKeepsSafe(st: Replay, top: int, seen: set<int>, i: int, u: Undefined)
    requires Safe(st, top, seen) && -0x8000 < i - top < 0x8000
    requires Advance(st, SeqOf(i), u).Some?
    ensures i !in seen
    ensures Safe(Advance(st, SeqOf(i), u).value, Max(i, top), seen + {i})
  {
    AdvanceIff(st, top, i, u);
    assert i in seen ==> Recorded(st.window, top, i);
    var w := Advance(st, SeqOf(i), u).value.window;
    var top' := Max(i, top);
    forall j | j in seen + {i}
      ensures Recorded(w, top', j)
    {
      assert j == i || Recorded(st.window, top, j);
      if top' - j < 64 {
        if i > top {
          AheadBits(st.window, i - top, u.left, top' - j);
        } else {
          BehindBits(st.window, top - i, u.left, top' - j);
        }
      }
    }
  }

  lemma AdvanceAheadExact(w: uint64, top: int, seen: set<int>, i: int, undefined: uint64)
    requires Exact(w, top, seen) && i > top
    requires forall j :: j in seen ==> j <= top
    ensures Exact(OrWord(ShiftLeft(w, i - top, undefined), 1), i, seen + {i})
            <==> (i - top < 64 || OrWord(undefined, 1) == 1)
  {
    var d := i - top;
    var w' := OrWord(ShiftLeft(w, d, undefined), 1);
    if d < 64 {
      forall k: nat | k < 64
        ensures BitMeansSeen(w', i, seen + {i}, k)
      {
        AheadBits(w, d, undefined, k);
        if d <= k {
          assert BitMeansSeen(w, top, seen, k - d);
        }
      }
    } else {
      forall k: nat | k < 64
        ensures BitMeansSeen(1, i, seen + {i}, k)
      {
        OneBit(k);
      }
      if Exact(w', i, seen + {i}) {
        forall k: nat | k < 64
          ensures Bit(w', k) == Bit(1, k)
        {
          assert BitMeansSeen(w', i, seen + {i}, k);
          assert BitMeansSeen(1, i, seen + {i}, k);
        }
        Pow64();
        SameBits(w', 1, 64);
      }
    }
  }

  lemma AdvanceBehindExact(w: uint64, top: int, seen: set<int>, i: int, undefined: uint64)
    requires Exact(w, top, seen) && top - 64 < i <= top
    ensures Exact(OrWord(w, ShiftLeft(1, top - i, undefined)), top, seen + {i})
  {
    var w' := OrWord(w, ShiftLeft(1, top - i, undefined));
    forall k: nat | k < 64
      ensures BitMeansSeen(w', top, seen + {i}, k)
    {
      BehindBits(w, top - i, undefined, k);
      assert BitMeansSeen(w, top, seen, k);
    }
  }

  // ----- whole runs

  /** One call of `srtp_crypt` on a well-formed packet. */
  datatype Arrival = Arrival(sn: uint16, u: Undefined)

  /** A session together with the unbounded index of its top and the accepted indices. */
  datatype History = History(st: Replay, top: int, log: seq<int>)

  function IndexOf(h: History, sn: uint16): int {
    h.top + Diff16(h.st.last, sn)
  }

  function Arrive(h: History, a: Arrival): History {
    match Advance(h.st, a.sn, a.u)
    case None => h
    case Some(st) =>
      var i := IndexOf(h, a.sn);
      History(st, if i > h.top then i else h.top, h.log + [i])
  }

  function RunWindow(arrivals: seq<Arrival>): History {
    if arrivals == [] then History(Fresh, 0, [])
    else Arrive(RunWindow(arrivals[..|arrivals| - 1]), arrivals[|arrivals| - 1])
  }

  /** No arrival sits exactly 2^15 behind the top, where even the negation is lost. */
  ghost predicate OffHalfRange(arrivals: seq<Arrival>) {
    forall n :: 0 <= n < |arrivals| ==> Diff16(RunWindow(arrivals[..n]).st.last, arrivals[n].sn) != -0x8000
  }

  ghost predicate ShortJumps(arrivals: seq<Arrival>) {
    forall n :: 0 <= n < |arrivals| ==> Diff16(RunWindow(arrivals[..n]).st.last, arrivals[n].sn) < 64
  }

  ghost predicate Distinct<T>(s: seq<T>) {
    forall i, j :: 0 <= i < j < |s| ==> s[i] != s[j]
  }

  ghost function Elements(s: seq<int>): set<int> {
    set x | x in s
  }

  lemma IndexFacts(h: History, sn: uint16)
    requires At(h.st, h.top)
    ensures SeqOf(IndexOf(h, sn)) == sn
  {
    SeqOfStep(h.top, sn);
  }

  lemma ArriveKeepsSafe(h: History, a: Arrival)
    requires Safe(h.st, h.top, Elements(h.log)) && Distinct(h.log)
    requires Diff16(h.st.last, a.sn) != -0x8000
    ensures Safe(Arrive(h, a).st, Arrive(h, a).top, Elements(Arrive(h, a).log)) && Distinct(Arrive(h, a).log)
  {
    if Advance(h.st, a.sn, a.u).Some? {
      var i := IndexOf(h, a.sn);
      IndexFacts(h, a.sn);
      AdvanceKeepsSafe(h.st, h.top, Elements(h.log), i, a.u);
      assert Elements(h.log + [i]) == Elements(h.log) + {i};
    }
  }

  /** Over every run of `srtp_crypt`, however long and whatever the undefined shifts yield,
      the word remembers every accepted index in reach and no index is accepted twice.
      Between two calls nothing else moves the session; a carried counter would. */
  lemma {:induction false} NoIndexTwice(arrivals: seq<Arrival>)
    requires OffHalfRange(arrivals)
    ensures var h := RunWindow(arrivals); Safe(h.st, h.top, Elements(h.log)) && Distinct(h.log)
  {
    if arrivals == [] {
    } else {
      var n := |arrivals| - 1;
      var before := arrivals[..n];
      forall m | 0 <= m < |before|
        ensures Diff16(RunWindow(before[..m]).st.last, before[m].sn) != -0x8000
      {
        assert before[..m] == arrivals[..m];
      }
      NoIndexTwice(before);
      ArriveKeepsSafe(RunWindow(before), arrivals[n]);
    }
  }

  lemma FreshExact()
    ensures Exact(0, 0, {})
  {
    forall k: nat | k < 64
      ensures BitMeansSeen(0, 0, {}, k)
    {
      ZeroBit(k);
    }
  }

  lemma ArriveKeepsExact(h: History, a: Arrival)
    requires Safe(h.st, h.top, Elements(h.log)) && Exact(h.st.window, h.top, Elements(h.log))
    requires -0x8000 < Diff16(h.st.last, a.sn) < 64
    ensures Exact(Arrive(h, a).st.window, Arrive(h, a).top, Elements(Arrive(h, a).log))
  {
    if Advance(h.st, a.sn, a.u).Some? {
      var i := IndexOf(h, a.sn);
      IndexFacts(h, a.sn);
      AdvanceIff(h.st, h.top, i, a.u);
      assert Elements(h.log + [i]) == Elements(h.log) + {i};
      if i > h.top {
        assert forall j :: j in Elements(h.log) ==> Recorded(h.st.window, h.top, j);
        AdvanceAheadExact(h.st.window, h.top, Elements(h.log), i, a.u.left);
      } else {
        AdvanceBehindExact(h.st.window, h.top, Elements(h.log), i, a.u.left);
      }
    }
  }

  lemma {:induction false} ExactOverRuns(arrivals: seq<Arrival>)
    requires OffHalfRange(arrivals) && ShortJumps(arrivals)
    ensures var h := RunWindow(arrivals); Exact(h.st.window, h.top, Elements(h.log))
  {
    if arrivals == [] {
      FreshExact();
      assert Elements([]) == {};
    } else {
      var n := |arrivals| - 1;
      var before := arrivals[..n];
      forall m | 0 <= m < |before|
        ensures -0x8000 < Diff16(RunWindow(before[..m]).st.last, before[m].sn) < 64
      {
        assert before[..m] == arrivals[..m];
      }
      NoIndexTwice(before);
      ExactOverRuns(before);
      ArriveKeepsExact(RunWindow(before), arrivals[n]);
    }
  }

  lemma PassesIffNew(h: History, next: Arrival)
    requires Safe(h.st, h.top, Elements(h.log)) && Exact(h.st.window, h.top, Elements(h.log))
    requires Diff16(h.st.last, next.sn) != -0x8000
    ensures Advance(h.st, next.sn, next.u).Some? <==>
            IndexOf(h, next.sn) !in h.log && h.top - IndexOf(h, next.sn) < 64
  {
    var i := IndexOf(h, next.sn);
    IndexFacts(h, next.sn);
    AdvanceIff(h.st, h.top, i, next.u);
    assert i in h.log ==> Recorded(h.st.window, h.top, i);
    if 0 <= h.top - i < 64 {
      assert BitMeansSeen(h.st.window, h.top, Elements(h.log), h.top - i);
    }
  }

  /** Over every run whose forward jumps stay below 64, the word is the set of accepted
      indices in reach, so the next packet passes iff it is new and less than 64 behind. */
  lemma WindowIsTheSet(arrivals: seq<Arrival>, next: Arrival)
    requires OffHalfRange(arrivals) && ShortJumps(arrivals)
    requires Diff16(RunWindow(arrivals).st.last, next.sn) != -0x8000
    ensures var h := RunWindow(arrivals);
            && Exact(h.st.window, h.top, Elements(h.log))
            && (Advance(h.st, next.sn, next.u).Some? <==>
                IndexOf(h, next.sn) !in h.log && h.top - IndexOf(h, next.sn) < 64)
  {
    NoIndexTwice(arrivals);
    ExactOverRuns(arrivals);
    PassesIffNew(RunWindow(arrivals), next);
  }

  // ----- where the promises of section 3.3.2 of RFC 3711 stop

  lemma AdvanceSmall(u: Undefined)
    ensures Advance(Fresh, 0, u) == Some(Replay(0, 0, 1))
    ensures Advance(Replay(0, 0, 1), 1, u) == Some(Replay(0, 1, 3))
    ensures u.left == 3 ==> Advance(Replay(0, 1, 3), 65, u) == Some(Replay(0, 65, 3))
    ensures Advance(Replay(0, 65, 3), 64, u) == None
  {
    assert Or(0, 1) == 1 && Or(2, 1) == 3 && Or(3, 1) == 3;
    assert Shl64(1, 1) == 2 && Shr(3, 1) == 1;
  }

  /** A jump of 64 on a machine that masks the shift count leaves stale bits behind:
      after 0, 1 and 65 the packet 64, never seen and one behind, is refused. */
  lemma StaleBitAfterLongJump(u: Undefined)
    requires u.left == 3
    ensures var first := Advance(Fresh, 0, u);
            && first.Some?
            && var second := Advance(first.value, 1, u);
            && second.Some?
            && var third := Advance(second.value, 65, u);
            && third.Some?
            && Advance(third.value, 64, u).None?
  {
    AdvanceSmall(u);
  }

  lemma {:induction false} RunStaysAt(arrivals: seq<Arrival>)
    ensures At(RunWindow(arrivals).st, RunWindow(arrivals).top)
  {
    if arrivals != [] {
      var h, a := RunWindow(arrivals[..|arrivals| - 1]), arrivals[|arrivals| - 1];
      RunStaysAt(arrivals[..|arrivals| - 1]);
      IndexFacts(h, a.sn);
      AdvanceIff(h.st, h.top, IndexOf(h, a.sn), a.u);
    }
  }

  /** The packet 2^15 behind the top of a history. */
  function Opposite(h: History, u: Undefined): Arrival {
    Arrival(SeqOf(h.top - 0x8000), u)
  }

  /** h' is h with the opposite index logged once more. */
  ghost predicate LoggedOpposite(h: History, h': History) {
    h'.top == h.top && h'.log == h.log + [h.top - 0x8000]
  }

  lemma OppositePasses(h: History, u: Undefined)
    requires At(h.st, h.top) && u.right % 2 == 0
    ensures LoggedOpposite(h, Arrive(h, Opposite(h, u)))
  {
    NearestIndex(h.top, h.top - 0x8000);
    AdvanceIff(h.st, h.top, h.top - 0x8000, u);
  }

  lemma OppositeLogged(arrivals: seq<Arrival>, u: Undefined)
    requires u.right % 2 == 0
    ensures LoggedOpposite(RunWindow(arrivals), RunWindow(arrivals + [Opposite(RunWindow(arrivals), u)]))
  {
    var a := Opposite(RunWindow(arrivals), u);
    RunStaysAt(arrivals);
    OppositePasses(RunWindow(arrivals), u);
    assert (arrivals + [a])[..|arrivals|] == arrivals;
  }

  ghost predicate LoggedTwice(h: History, h': History) {
    h'.log == h.log + [h.top - 0x8000] + [h.top - 0x8000]
  }

  lemma OnceMore(h: History, h': History, u: Undefined)
    requires LoggedOpposite(h, h')
    ensures Opposite(h', u) == Opposite(h, u)
    ensures forall h'' :: LoggedOpposite(h', h'') ==> LoggedTwice(h, h'')
  {
  }

  /** After every run, the packet exactly 2^15 behind the top is accepted twice in a row on a
      machine whose undefined right shift comes out even: `NoIndexTwice` needs its exclusion. */
  lemma ReplayAtHalfRange(arrivals: seq<Arrival>, u: Undefined)
    requires u.right % 2 == 0
    ensures var again := Opposite(RunWindow(arrivals), u);
            LoggedTwice(RunWindow(arrivals), RunWindow(arrivals + [again] + [again]))
  {
    var once := arrivals + [Opposite(RunWindow(arrivals), u)];
    OppositeLogged(arrivals, u);
    OnceMore(RunWindow(arrivals), RunWindow(once), u);
    OppositeLogged(once, u);
  }
}
