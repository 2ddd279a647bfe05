/** Rebuilding the 48-bit packet index from a 16-bit sequence number
    (libsrtp_decrypt/srtp.c, `srtp_compute_roc`; section 3.3.1 of RFC 3711). */
module RollOverCounter {
  type uint16 = n: nat | n < 0x1_0000
  type uint32 = n: nat | n < 0x1_0000_0000

  function Inc32(n: uint32): uint32 { if n == 0x1_0000_0000 - 1 then 0 else n + 1 }
  function Dec32(n: uint32): uint32 { if n == 0 then 0x1_0000_0000 - 1 else n - 1 }

  /** `(uint16_t)(a - b)`. */
  function Sub16(a: uint16, b: uint16): uint16 { if a >= b then a - b else a - b + 0x1_0000 }

  /** `srtp_compute_roc`: the counter that goes with `sn` when the highest packet
      seen so far is (`roc`, `last`). */
  function ComputeRoc(roc: uint32, last: uint16, sn: uint16): uint32 {
    if Sub16(sn, last) < 0x8000 then
      if sn < last then Inc32(roc) else roc
    else
      if sn > last then Dec32(roc) else roc
  }

  /** `(int16_t)(sn - last)`. */
  function Diff16(last: uint16, sn: uint16): (d: int)
    ensures -0x8000 <= d < 0x8000
    ensures (last + d) % 0x1_0000 == sn
  {
    var d := sn - last;
    if d >= 0x8000 then d - 0x1_0000 else if d < -0x8000 then d + 0x1_0000 else d
  }

  /** The counters of the packet whose unbounded index is `i`. */
  function RocOf(i: int): uint32 { i / 0x1_0000 % 0x1_0000_0000 }
  function SeqOf(i: int): uint16 { i % 0x1_0000 }

  lemma SeqOfStep(t: int, sn: uint16)
    ensures SeqOf(t + Diff16(SeqOf(t), sn)) == sn
  {
    var q, r := t / 0x1_0000, t % 0x1_0000;
    var d := Diff16(r, sn);
    if r + d == sn {
      assert t + d == 0x1_0000 * q + sn;
    } else if r + d == sn + 0x1_0000 {
      assert t + d == 0x1_0000 * (q + 1) + sn;
    } else {
      assert t + d == 0x1_0000 * (q - 1) + sn;
    }
  }

  lemma CarryAcross(t: int, i: int)
    requires -0x8000 <= i - t < 0x8000
    ensures SeqOf(i) == SeqOf(t) + (i - t) - 0x1_0000 * (i / 0x1_0000 - t / 0x1_0000)
    ensures -1 <= i / 0x1_0000 - t / 0x1_0000 <= 1
  {
  }

  lemma WrapStep(q: int)
    ensures (q + 1) % 0x1_0000_0000 == Inc32(q % 0x1_0000_0000)
    ensures (q - 1) % 0x1_0000_0000 == Dec32(q % 0x1_0000_0000)
  {
  }

  /** Index estimation picks the nearest index: a packet that is at most 2^15 behind, or
      less than 2^15 ahead of the highest index `t`, gets its true counter and distance. */
  lemma NearestIndex(t: int, i: int)
    requires -0x8000 <= i - t < 0x8000
    ensures ComputeRoc(RocOf(t), SeqOf(t), SeqOf(i)) == RocOf(i)
    ensures Diff16(SeqOf(t), SeqOf(i)) == i - t
  {
    CarryAcross(t, i);
    WrapStep(t / 0x1_0000);
    var c := i / 0x1_0000 - t / 0x1_0000;
    if c == 0 {
    } else if c == 1 {
    } else {
    }
  }

  /** ... and it is the only index in that range that carries the sequence number. */
  lemma NearestIndexUnique(t: int, i: int, j: int)
    requires -0x8000 <= i - t < 0x8000 && -0x8000 <= j - t < 0x8000
    requires SeqOf(i) == SeqOf(j)
    ensures i == j
  {
    NearestIndex(t, i);
    NearestIndex(t, j);
  }

  /** Indices less than 2^48 apart are told apart by their counters. */
  lemma CountersDetermineIndex(i: int, j: int)
    requires RocOf(i) == RocOf(j) && SeqOf(i) == SeqOf(j)
    requires -0x1_0000_0000_0000 < i - j < 0x1_0000_0000_0000
    ensures i == j
  {
    var p, q := i / 0x1_0000, j / 0x1_0000;
    assert i - j == 0x1_0000 * (p - q);
    assert -0x1_0000_0000 < p - q < 0x1_0000_0000;
    assert p - q == 0x1_0000_0000 * (p / 0x1_0000_0000 - q / 0x1_0000_0000);
  }

  /** The estimate of Appendix A of RFC 3711. */
  function AppendixA(roc: uint32, last: uint16, sn: uint16): uint32 {
    if last < 0x8000 then
      if sn - last > 0x8000 then Dec32(roc) else roc
    else
      if last - 0x8000 > sn then Inc32(roc) else roc
  }

  /** The code follows Appendix A except at one distance, where it steps back. */
  lemma AgreesWithAppendixA(roc: uint32, last: uint16, sn: uint16)
    ensures ComputeRoc(roc, last, sn) == AppendixA(roc, last, sn) <==> sn - last != 0x8000
  {
    WrapsMove(roc);
  }

  lemma WrapsMove(roc: uint32)
    ensures Inc32(roc) != roc && Dec32(roc) != roc
  {
  }

  /** A sum or difference of three counters cut to 32 bits. */
  function Wrap32(n: int): uint32
    requires -0x1_0000_0000 <= n < 0x2_0000_0000
  {
    if n < 0 then n + 0x1_0000_0000 else if n < 0x1_0000_0000 then n else n - 0x1_0000_0000
  }

  /** `roc + rcc - est` in 32-bit arithmetic. */
  function Resync(roc: uint32, rcc: uint32, est: uint32): uint32 {
    Wrap32(roc + (rcc - est))
  }

  /** Moving the stored counter by the difference between a carried counter and the
      estimate makes the carried counter the new estimate, whatever the session held. */
  lemma ResyncHitsCarried(roc: uint32, last: uint16, sn: uint16, rcc: uint32)
    ensures ComputeRoc(Resync(roc, rcc, ComputeRoc(roc, last, sn)), last, sn) == rcc
  {
    var est := ComputeRoc(roc, last, sn);
    if est == roc {
      assert Resync(roc, rcc, est) == rcc;
    } else if est == Inc32(roc) {
      assert Resync(roc, rcc, est) == Dec32(rcc);
    } else {
      assert Resync(roc, rcc, est) == Inc32(rcc);
    }
  }
}
