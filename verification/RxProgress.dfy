/**
 * The ACK history is exact within its size, duplicates of consumed messages are re-acknowledged with the
 * status the message got, and a drain stops only where it must.
 */
module RxProgress {
  import opened Basics
  import opened Fragment
  import opened NativeData
  import opened RxSpec
  import opened RxProof
  import Psn

  // ----- ACK history -----

  /**
   * The 1024-slot ring returns the exact status of each of the last 1024 consumed messages and misses
   * on older ones, across PSN wraparound.
   */
  lemma HistoryExact(s: Rx, p: Peer, striping: bool, posted: seq<Wqe>, faults: set<(nat, nat)>, i: nat)
    requires Inv(s, p, striping, posted, faults) && i < |s.cq| && |s.cq| - i <= Psn.HALF
    ensures HistLookup(s.hist, Psn.Of(p.base, i))
            == if |s.cq| - i <= 1024 then Some(if s.cq[i].status == Success then AckOk else AckError) else None
  {
    var n := |s.cq|;
    OfIsReduced(p.base, i);
    hide Psn.Of, ReorderOk, CqOk, ActiveOk;
    if n - i > ACK_HISTORY_SIZE {
      var j := NewestInSlot(p.base, i, n);
      SlotOf(p.base, i);
      SlotOf(p.base, j);
      if Psn.Of(p.base, i) == Psn.Of(p.base, j) { Psn.OfInjective(p.base, i, j); }
    }
  }

  lemma SlotShift(x: int, k: int)
    ensures (x + k * ACK_HISTORY_SIZE) % ACK_HISTORY_SIZE == x % ACK_HISTORY_SIZE
  {
  }

  /** The newest of `n` messages that shares its slot with message `i`. */
  lemma NewestInSlot(base: nat, i: nat, n: nat) returns (j: nat)
    requires n - i > ACK_HISTORY_SIZE
    ensures n - ACK_HISTORY_SIZE <= j < n && i < j
    ensures (base + i) % ACK_HISTORY_SIZE == (base + j) % ACK_HISTORY_SIZE
  {
    var d := n - 1 - i;
    j := n - 1 - d % ACK_HISTORY_SIZE;
    var q := d / ACK_HISTORY_SIZE;
    assert base + j == (base + i) + q * ACK_HISTORY_SIZE;
    SlotShift(base + i, q);
  }

  /** A stale fragment changes nothing but, unless it is suppressed, sends one ACK with the message's own status. */
  lemma StaleFragmentOnlyReacks(s: Rx, p: Peer, striping: bool, posted: seq<Wqe>, faults: set<(nat, nat)>, i: nat, k: nat, env: Env)
    requires Inv(s, p, striping, posted, faults)
    requires i < |s.cq| && |s.cq| - i <= Psn.HALF && k < Frags(p.msgs[i])
    ensures var s' := Step(s, p, striping, 0, Arrive(i, k, env));
            var status := if |s.cq| - i <= 1024 && s.cq[i].status != Success then AckError else AckOk;
            if s.rnr.None? then s' == SendAck(s, p.msgs[i].srcQp, Psn.Of(p.base, i), status)
            else s' == s || s' == SendAck(s.(rnr := s'.rnr), p.msgs[i].srcQp, Psn.Of(p.base, i), status)
  {
    FrameFacts(p, i, k);
    Psn.DeltaOfCounters(p.base, i, |s.cq|);
    Psn.DeltaOfCounters(p.base, |s.cq|, |s.cq|);
    HistoryExact(s, p, striping, posted, faults, i);
    var h, psn, q := FrameOf(p, i, k), Psn.Of(p.base, i), PayloadOf(p.msgs[i].data, k);
    var s1 := if RnrMatches(s, h, psn) then s.(rnr := None) else s;
    assert BufferFragment(s1, h, psn, q, env) == Reack(s1, h.srcQp, psn);
    if !striping && s.active.Some? {
      OrderedActiveCases(s1, s1.active.value, p, |s.cq|, i, k, env);
    }
  }

  // ----- draining -----

  /** Completions are only ever appended, and a drain leaves the mark of a receiver-not-ready answer alone. */
  lemma {:induction false} DrainAppends(s: Rx, f: set<(nat, nat)>)
    ensures s.cq <= Drain(s, f).cq && Drain(s, f).rnr == s.rnr
    decreases |s.reorder|
  {
    if s.active.None? {
      KeptNoLonger(s.reorder, s.expected);
      var p := Prune(s);
      var r := Find(p.reorder, p.expected);
      if r.Some? && p.reorder[r.value].Complete() && p.recvs != [] {
        DrainAppends(Deliver(p, r.value, f), f);
      }
    }
  }

  /** After draining, the expected message is not waiting complete unless the receives have run out. */
  lemma {:induction false} DrainExhausts(s: Rx, f: set<(nat, nat)>)
    requires s.active.None?
    ensures var d := Drain(s, f);
            && d.active.None?
            && var r := Find(d.reorder, d.expected);
               r.Some? && d.reorder[r.value].Complete() ==> d.recvs == []
    decreases |s.reorder|
  {
    KeptNoLonger(s.reorder, s.expected);
    var p := Prune(s);
    var r := Find(p.reorder, p.expected);
    if r.Some? && p.reorder[r.value].Complete() && p.recvs != [] {
      DrainExhausts(Deliver(p, r.value, f), f);
    }
  }
}
