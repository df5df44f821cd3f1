/**
 * The Apple receive state as the driver keeps it (kernel/ibdev.c): a ring of slots with head, tail and ready
 * count, the index of the slot being filled, the byte counter and the discard flag. Every method is proved
 * to compute the function of the same role in `AppleSpec`.
 */
module AppleEngine {
  import opened Basics
  import opened AppleSpec
  import RxSpec

  const PAGE_SIZE: nat := 4096

  /** struct tbv_apple_pending_rx; `buf` are the `delivered` bytes, `capacity` the size of the allocation. */
  datatype Slot = Slot(buf: seq<Byte>, capacity: nat, status: RxSpec.WcStatus, active: bool, ready: bool)

  const EMPTY := Slot([], 0, RxSpec.Success, false, false)

  function Reset(p: Slot): Slot { Slot([], p.capacity, RxSpec.Success, false, false) }

  function MsgOf(p: Slot): Msg { Msg(p.buf, p.status) }

  // ----- the ring -----

  /** `head`, `tail` and the ready count agree, and a slot being filled is the one at the tail. */
  ghost predicate Ring(n: nat, head: nat, tail: nat, ready: nat, active: int) {
    && ready <= n
    && (if n == 0 then head == 0 && tail == 0 else head < n && tail == RingAt(head, ready, n))
    && (active == -1 || (active == tail && ready < n))
  }

  function Waiting(a: seq<Slot>, head: nat, ready: nat): seq<Msg>
    requires ready <= |a| && (|a| > 0 ==> head < |a|)
  {
    seq(ready, k requires 0 <= k < ready => MsgOf(a[RingAt(head, k, |a|)]))
  }

  /** Writing the slot at the tail leaves the waiting messages alone. */
  lemma TailIsFree(a: seq<Slot>, head: nat, tail: nat, ready: nat, active: int, p: Slot)
    requires Ring(|a|, head, tail, ready, active) && ready < |a|
    ensures Waiting(a[tail := p], head, ready) == Waiting(a, head, ready)
  {
  }

  /** The slot at the tail becomes the last waiting one. */
  lemma TailJoins(a: seq<Slot>, head: nat, tail: nat, ready: nat, active: int)
    requires Ring(|a|, head, tail, ready, active) && ready < |a|
    ensures var next := (tail + 1) % |a|;
            && Ring(|a|, head, next, ready + 1, -1)
            && Waiting(a, head, ready + 1) == Waiting(a, head, ready) + [MsgOf(a[tail])]
  {
    RingAtIsModulo(tail, 1, |a|);
  }

  lemma HeadLeaves(a: seq<Slot>, head: nat, tail: nat, ready: nat, active: int, p: Slot)
    requires Ring(|a|, head, tail, ready, active) && ready > 0
    ensures var next := (head + 1) % |a|;
            && Ring(|a|, next, tail, ready - 1, active)
            && Waiting(a[head := p], next, ready - 1) == Waiting(a, head, ready)[1..]
            && (active >= 0 ==> active < |a| && active != head)
  {
    RingAtIsModulo(head, 1, |a|);
  }

  lemma {:induction false} BytesFirst(ready: seq<Msg>)
    requires ready != []
    ensures Bytes(ready) == |ready[0].bytes| + Bytes(ready[1..])
    decreases |ready|
  {
    if |ready| == 1 {
      assert ready[..0] == [] && ready[1..] == [];
    } else {
      var n := |ready| - 1;
      BytesFirst(ready[..n]);
      assert ready[..n][1..] == ready[1..][..n - 1];
    }
  }

  lemma BytesLast(ready: seq<Msg>, m: Msg)
    ensures Bytes(ready + [m]) == Bytes(ready) + |m.bytes|
  {
    assert (ready + [m])[..|ready|] == ready;
  }

  /** The growth loop of tbv_apple_rx_copy_piece_to_buf always reaches the size it needs. */
  method Grow(capacity: nat, required: nat, maxBytes: nat) returns (size: nat)
    requires required <= maxBytes < U32_MOD
    ensures size >= required
  {
    size := if capacity > 0 then capacity else PAGE_SIZE;
    while size < required
      invariant size > 0
      decreases required - size
    {
      if size * 2 >= U32_MOD || size * 2 > maxBytes { return maxBytes; }
      size := size * 2;
    }
  }

  class ApplePort {
    const slots: array<Slot>
    var head: nat
    var tail: nat
    var readyCount: nat
    var pendingBytes: nat
    /** Index of the slot being filled, or -1. */
    var activeSlot: int
    var discard: bool
    const recvqSize: nat
    var recvq: seq<RxSpec.Wqe>
    var cq: seq<Completion>

    /** The ring indices agree and the byte counter is exactly what the slots hold. */
    ghost predicate Valid()
      reads this, slots
    {
      Ring(slots.Length, head, tail, readyCount, activeSlot) && pendingBytes == HeldBytes(View())
    }

    ghost function View(): Port
      reads this, slots
      requires Ring(slots.Length, head, tail, readyCount, activeSlot)
    {
      Port(slots.Length, Waiting(slots[..], head, readyCount),
           if activeSlot >= 0 then Some(MsgOf(slots[activeSlot])) else None, discard, recvq, cq)
    }

    constructor (slotCount: nat, recvCount: nat)
      ensures Valid() && View() == Fresh(slotCount) && fresh(slots)
    {
      slots := new Slot[slotCount](_ => EMPTY);
      head, tail, readyCount, pendingBytes, activeSlot, discard := 0, 0, 0, 0, -1, false;
      recvqSize, recvq, cq := recvCount, [], [];
    }

    method PostRecv(w: RxSpec.Wqe) returns (ok: bool)
      requires Valid()
      modifies `recvq
      ensures Valid() && View() == Post(old(View()), recvqSize, w) && ok == (old(|recvq|) < recvqSize)
    {
      ok := |recvq| < recvqSize;
      if ok { recvq := recvq + [w]; }
    }

    /** Give the slot at the head back: its bytes leave the counter, which never saturates. */
    method ReleaseHead()
      requires Valid() && readyCount > 0
      modifies slots, `head, `readyCount, `pendingBytes
      ensures Valid() && View() == old(View()).(ready := old(View()).ready[1..])
    {
      ghost var a, before := slots[..], View();
      var p := slots[head];
      HeadLeaves(a, head, tail, readyCount, activeSlot, Reset(p));
      BytesFirst(before.ready);
      assert before.ready[0] == MsgOf(p);
      hide Bytes, Waiting;
      pendingBytes := SubOrZero(pendingBytes, |p.buf|);
      slots[head] := Reset(p);
      assert slots[..] == a[head := Reset(p)];
      head := (head + 1) % slots.Length;
      readyCount := readyCount - 1;
    }

    /** tbv_apple_rx_drain_pending_locked */
    method DrainPending(faults: set<(nat, nat)>)
      requires Valid()
      modifies slots, `head, `readyCount, `pendingBytes, `recvq, `cq
      ensures Valid() && View() == Drain(old(View()), faults)
    {
      while readyCount > 0
        invariant Valid() && Drain(View(), faults) == Drain(old(View()), faults)
        decreases readyCount
      {
        assert |View().ready| == readyCount;
        if recvq == [] { return; }
        ghost var before := View();
        var w := recvq[0];
        recvq := recvq[1..];
        var c := FillReceive(w, faults);
        cq := cq + [c];
        ReleaseHead();
        assert View() == before.(ready := before.ready[1..], recvs := before.recvs[1..],
                                 cq := before.cq + [Complete(before.ready[0], before.recvs[0], faults)]);
      }
      assert View().ready == [];
    }

    /** Copy the message at the head into the receive and work out its completion. */
    method FillReceive(w: RxSpec.Wqe, faults: set<(nat, nat)>) returns (c: Completion)
      requires Valid() && readyCount > 0
      ensures |View().ready| == readyCount && c == Complete(View().ready[0], w, faults)
    {
      var p := slots[head];
      assert View().ready[0] == MsgOf(p);
      var copyLen := Min(|p.buf|, |w.region|);
      var status := p.status;
      var copied := RxSpec.CopyToWqe(w, 0, p.buf[..copyLen], faults);
      if copied.failed {
        status := RxSpec.ProtErr;
      } else if |p.buf| > |w.region| {
        status := RxSpec.LenErr;
      }
      c := Completion(copied.wqe, status, copied.delivered);
    }

    /** tbv_apple_pending_active_locked */
    method OpenSlot(msgLimit: nat, totalLimit: nat) returns (ok: bool)
      requires Valid()
      modifies slots, `activeSlot
      ensures Valid()
      ensures ok == (old(View()).active.Some?
                     || !(slots.Length == 0 || readyCount >= slots.Length || msgLimit == 0 || totalLimit == 0))
      ensures !ok || old(View()).active.Some? ==> View() == old(View())
      ensures ok && old(View()).active.None? ==> View() == old(View()).(active := Some(Msg([], RxSpec.Success)))
      ensures ok ==> activeSlot >= 0
    {
      if activeSlot >= 0 { return true; }
      if slots.Length == 0 || readyCount >= slots.Length || msgLimit == 0 || totalLimit == 0 { return false; }
      ghost var a := slots[..];
      var p := Reset(slots[tail]).(active := true);
      TailIsFree(a, head, tail, readyCount, activeSlot, p);
      hide Waiting, Bytes;
      slots[tail] := p;
      assert slots[..] == a[tail := p];
      activeSlot := tail;
      return true;
    }

    /** tbv_apple_pending_finish_locked */
    method FinishSlot()
      requires Valid() && activeSlot >= 0
      modifies slots, `activeSlot, `readyCount, `tail
      ensures Valid()
      ensures View() == old(View()).(active := None, ready := old(View()).ready + [old(View()).active.value])
    {
      ghost var a, m := slots[..], MsgOf(slots[activeSlot]);
      var p := slots[activeSlot].(active := false, ready := true);
      TailIsFree(a, head, tail, readyCount, activeSlot, p);
      TailJoins(a[tail := p], head, tail, readyCount, activeSlot);
      BytesLast(Waiting(a, head, readyCount), m);
      hide Waiting, Bytes;
      slots[activeSlot] := p;
      assert slots[..] == a[tail := p];
      activeSlot := -1;
      readyCount := readyCount + 1;
      tail := (tail + 1) % slots.Length;
    }

    /** Replace the slot being filled. */
    method PutActive(p: Slot, added: nat)
      requires Valid() && activeSlot >= 0 && |p.buf| == |slots[activeSlot].buf| + added
      modifies slots, `pendingBytes
      ensures Valid() && View() == old(View()).(active := Some(MsgOf(p)))
    {
      ghost var a := slots[..];
      TailIsFree(a, head, tail, readyCount, activeSlot, p);
      hide Waiting, Bytes;
      slots[activeSlot] := p;
      assert slots[..] == a[tail := p];
      pendingBytes := pendingBytes + added;
    }

    /** tbv_apple_rx_copy_piece_to_buf on the slot being filled, and the status it leaves behind. */
    method CopyPiece(data: seq<Byte>, msgLimit: nat, totalLimit: nat, alloc: bool) returns (memOk: bool)
      requires Valid() && activeSlot >= 0 && data != []
      modifies slots, `pendingBytes
      ensures Valid() && (alloc ==> memOk)
      ensures var s := old(View());
              forall faults :: View()
                == s.(active := Some(AddPiece(s.active.value, HeldBytes(s), data, Env(msgLimit, totalLimit, memOk, faults))))
    {
      hide Waiting, Bytes;
      memOk := true;
      var p := slots[activeSlot];
      var required := |p.buf| + |data|;
      var maxBytes := Min(msgLimit, MAX_MSG_SIZE);
      if required >= U32_MOD || maxBytes == 0 || required > maxBytes {
        PutActive(p.(status := RxSpec.LenErr), 0);
        return;
      }
      if totalLimit == 0 || pendingBytes + |data| >= U32_MOD || pendingBytes + |data| > totalLimit {
        PutActive(p.(status := RxSpec.LenErr), 0);
        return;
      }
      var capacity := p.capacity;
      if required > p.capacity {
        capacity := Grow(p.capacity, required, maxBytes);
        if !alloc {
          memOk := false;
          PutActive(p.(status := RxSpec.ProtErr), 0);
          return;
        }
      }
      PutActive(p.(buf := p.buf + data, capacity := capacity), |data|);
    }

    /** tbv_ibdev_rx_apple_frame */
    method RxAppleFrame(data: seq<Byte>, sof: bool, last: bool, msgLimit: nat, totalLimit: nat, alloc: bool,
                        faults: set<(nat, nat)>) returns (memOk: bool)
      requires Valid()
      modifies this, slots
      ensures Valid() && (alloc ==> memOk)
      ensures View() == RxFrame(old(View()), data, sof, last, Env(msgLimit, totalLimit, memOk, faults))
    {
      hide Ring, Waiting, Bytes, AddPiece, Drain;
      memOk := true;
      if |data| == 0 || |data| > FRAME_SIZE { return; }
      DrainPending(faults);
      memOk := SortFrame(data, sof, last, msgLimit, totalLimit, alloc, faults);
    }

    method SortFrame(data: seq<Byte>, sof: bool, last: bool, msgLimit: nat, totalLimit: nat, alloc: bool,
                     faults: set<(nat, nat)>) returns (memOk: bool)
      requires Valid() && data != []
      modifies this, slots
      ensures Valid() && (alloc ==> memOk)
      ensures View() == Sort(old(View()), data, sof, last, Env(msgLimit, totalLimit, memOk, faults))
    {
      assert |View().ready| == readyCount;
      hide Waiting, Bytes, AddPiece, Drain;
      memOk := true;
      if discard {
        if last { discard := false; }
        return;
      }
      if activeSlot < 0 && !sof && !last { return; }
      var open := OpenSlot(msgLimit, totalLimit);
      if !open {
        if !last { discard := true; }
        return;
      }
      memOk := CopyPiece(data, msgLimit, totalLimit, alloc);
      if last {
        FinishSlot();
        DrainPending(faults);
      }
    }
  }
}
