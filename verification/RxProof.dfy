/**
 * The native receive engine delivers messages once, in order and intact.
 *
 * A peer has one fixed message per sequence number. Its fragments reach the engine in any order, any
 * number of times or not at all, interleaved with receives being posted at any moment; allocations and
 * buffer copies may fail. Whatever the run, the completions are the peer's first messages in order.
 */
module RxProof {
  import opened Basics
  import opened Fragment
  import opened NativeData
  import opened RxSpec
  import Psn

  datatype Message = Message(srcQp: nat, data: seq<Byte>, imm: Option<nat>, solicited: bool)

  /** The remote end: message `i` travels under PSN `base + i` modulo 2^24. */
  datatype Peer = Peer(base: nat, destQp: nat, msgs: seq<Message>)
  {
    ghost predicate Valid() {
      forall i | 0 <= i < |msgs| :: |msgs[i].data| <= MAX_MSG_SIZE
    }
  }

  function Frags(m: Message): nat { Count(|m.data|, MAX_PAYLOAD) }

  /** The header the send loop puts on fragment `k` of message `i`. */
  function FrameOf(p: Peer, i: nat, k: nat): DataHeader
    requires i < |p.msgs| && k < Frags(p.msgs[i])
  {
    var m := p.msgs[i];
    var piece := PieceOf(|m.data|, MAX_PAYLOAD, k);
    DataHeader(if m.imm.Some? then OP_SEND_IMM else OP_SEND,
               if !piece.last then 0 else if m.solicited then 3 else 1,
               p.destQp, m.srcQp, Psn.Of(p.base, i), piece.len, |m.data|, 0,
               if m.imm.Some? then m.imm.value else 0, piece.offset)
  }

  lemma FrameFacts(p: Peer, i: nat, k: nat)
    requires p.Valid() && i < |p.msgs| && k < Frags(p.msgs[i])
    ensures var h, m := FrameOf(p, i, k), p.msgs[i];
            && !BadSendHeader(h)
            && ShapeOf(h) == Some(Shape(k, Frags(m)))
            && ImmOf(h) == m.imm && h.imm == |m.data| && h.srcQp == m.srcQp
            && h.fragOffset == k * MAX_PAYLOAD && h.length == |PayloadOf(m.data, k)|
            && h.psn % Psn.MODULUS == Psn.Of(p.base, i)
            && h.Last() == (k == Frags(m) - 1)
  {
    var h, m := FrameOf(p, i, k), p.msgs[i];
    ShapeAcceptsExactlyPieces(|m.data|, MAX_PAYLOAD, MAX_FRAGS, h.fragOffset, h.length, h.Last(), k, Frags(m));
    if |m.data| > 0 { PieceLength(|m.data|, MAX_PAYLOAD, k); }
  }

  // ----- what a buffer holds -----

  /** `region` is `before` with exactly the pieces in `done` of `data` stored, as far as they fit. */
  ghost predicate Filled(region: seq<Byte>, before: seq<Byte>, data: seq<Byte>, done: set<nat>) {
    && |region| == |before|
    && forall p: nat | p < |region| ::
         region[p] == if p < |data| && p / MAX_PAYLOAD in done then data[p] else before[p]
  }

  lemma FillPiece(region: seq<Byte>, before: seq<Byte>, data: seq<Byte>, done: set<nat>, k: nat, n: nat)
    requires Filled(region, before, data, done) && k < Count(|data|, MAX_PAYLOAD)
    requires n == LandingOf(PayloadOf(data, k), k * MAX_PAYLOAD, |region|) && n > 0
    ensures Filled(Write(region, k * MAX_PAYLOAD, PayloadOf(data, k)[..n]), before, data, done + {k})
  {
    var q := PayloadOf(data, k);
    var region' := Write(region, k * MAX_PAYLOAD, q[..n]);
    CeilingBounds(|data|, MAX_PAYLOAD);
    PieceLength(|data|, MAX_PAYLOAD, k);
    forall p: nat | p < |region'|
      ensures region'[p] == if p < |data| && p / MAX_PAYLOAD in done + {k} then data[p] else before[p]
    {
      assert k * MAX_PAYLOAD <= p < k * MAX_PAYLOAD + |q| <==> p < |data| && p / MAX_PAYLOAD == k;
    }
  }

  /** A piece of which nothing lies inside the buffer. */
  lemma FillNothing(region: seq<Byte>, before: seq<Byte>, data: seq<Byte>, done: set<nat>, k: nat)
    requires Filled(region, before, data, done) && k < Count(|data|, MAX_PAYLOAD)
    requires LandingOf(PayloadOf(data, k), k * MAX_PAYLOAD, |region|) == 0
    ensures Filled(region, before, data, done + {k})
  {
    CeilingBounds(|data|, MAX_PAYLOAD);
    if |data| > 0 { PieceLength(|data|, MAX_PAYLOAD, k); }
    forall p: nat | p < |region| && p < |data| ensures p / MAX_PAYLOAD != k {
    }
  }

  lemma FilledAll(region: seq<Byte>, before: seq<Byte>, data: seq<Byte>, done: set<nat>)
    requires Filled(region, before, data, done)
    requires Range(Count(|data|, MAX_PAYLOAD)) <= done
    ensures region == if |data| <= |region| then data + before[|data|..] else data[..|region|]
  {
    CeilingBounds(|data|, MAX_PAYLOAD);
    forall p: nat | p < |data| ensures p / MAX_PAYLOAD in done {
      assert p / MAX_PAYLOAD in Range(Count(|data|, MAX_PAYLOAD));
    }
  }

  /** How much of a piece at `offset` lies inside a buffer of `size` bytes. */
  function LandingOf(q: seq<Byte>, offset: nat, size: nat): nat {
    if offset < size then Min(|q|, size - offset) else 0
  }

  /** How many bytes the pieces in `done` of a message of `total` bytes put into a buffer of `size` bytes. */
  function Landed(total: nat, size: nat, done: set<nat>): int {
    SeenBytes(Min(total, size), MAX_PAYLOAD, done * Range(Count(Min(total, size), MAX_PAYLOAD)))
  }

  /** A piece lands as the same piece of the message cut off at the end of the buffer. */
  lemma LandsInside(total: nat, size: nat, k: nat)
    requires k < Count(total, MAX_PAYLOAD)
    ensures var n, len := Min(total, size), PieceOf(total, MAX_PAYLOAD, k).len;
            var landing := if k * MAX_PAYLOAD < size then Min(len, size - k * MAX_PAYLOAD) else 0;
            landing == if k < Count(n, MAX_PAYLOAD) then PieceOf(n, MAX_PAYLOAD, k).len else 0
  {
    var n := Min(total, size);
    CeilingBounds(n, MAX_PAYLOAD);
    if k < Count(n, MAX_PAYLOAD) {
      MulMonotone(k, Count(n, MAX_PAYLOAD) - 1, MAX_PAYLOAD);
    } else {
      MulMonotone(Count(n, MAX_PAYLOAD), k, MAX_PAYLOAD);
    }
    hide Count;
  }

  lemma LandedAdd(data: seq<Byte>, size: nat, done: set<nat>, k: nat)
    requires k !in done && k < Count(|data|, MAX_PAYLOAD)
    ensures Landed(|data|, size, done + {k}) == Landed(|data|, size, done) + LandingOf(PayloadOf(data, k), k * MAX_PAYLOAD, size)
  {
    hide SeenBytes, Count, PieceOf, Range;
    var n := Min(|data|, size);
    var all := Range(Count(n, MAX_PAYLOAD));
    LandsInside(|data|, size, k);
    if k < Count(n, MAX_PAYLOAD) {
      assert (done + {k}) * all == done * all + {k};
      SeenBytesAdd(n, MAX_PAYLOAD, done * all, k);
    } else {
      assert (done + {k}) * all == done * all;
    }
  }

  lemma LandedAll(total: nat, size: nat, done: set<nat>)
    requires Range(Count(total, MAX_PAYLOAD)) <= done
    ensures Landed(total, size, done) == Min(total, size)
  {
    var n := Min(total, size);
    CountMonotone(n, total);
    assert done * Range(Count(n, MAX_PAYLOAD)) == Range(Count(n, MAX_PAYLOAD));
    SeenBytesAll(n, MAX_PAYLOAD);
  }

  lemma CountMonotone(a: nat, b: nat)
    requires a <= b
    ensures Count(a, MAX_PAYLOAD) <= Count(b, MAX_PAYLOAD)
  {
  }

  // ----- buffered messages -----

  function IdxSet(frags: seq<Frag>): set<nat> {
    if frags == [] then {} else IdxSet(frags[..|frags| - 1]) + {frags[|frags| - 1].offset / MAX_PAYLOAD}
  }

  ghost predicate FragOk(f: Frag, data: seq<Byte>) {
    var k := f.offset / MAX_PAYLOAD;
    f.offset == k * MAX_PAYLOAD && k < Count(|data|, MAX_PAYLOAD) && f.data == PayloadOf(data, k)
  }

  /** The stored fragments are distinct pieces of `data`. */
  ghost predicate FragsOk(frags: seq<Frag>, data: seq<Byte>) {
    && (forall t | 0 <= t < |frags| :: FragOk(frags[t], data))
    && (forall t, u | 0 <= t < u < |frags| :: frags[t].offset != frags[u].offset)
  }

  lemma {:induction false} IdxSetMembers(frags: seq<Frag>, x: nat)
    ensures x in IdxSet(frags) <==> exists t :: 0 <= t < |frags| && frags[t].offset / MAX_PAYLOAD == x
  {
    if frags != [] {
      var init := frags[..|frags| - 1];
      IdxSetMembers(init, x);
      if x in IdxSet(init) {
        var t :| 0 <= t < |init| && init[t].offset / MAX_PAYLOAD == x;
        assert frags[t].offset / MAX_PAYLOAD == x;
      }
    }
  }

  ghost predicate Faulted(id: nat, faults: set<(nat, nat)>) { exists o: nat :: (id, o) in faults }

  /** Copying the stored fragments fills in exactly their pieces, unless a copy faults. */
  lemma {:induction false} CopyFragsFills(w: Wqe, frags: seq<Frag>, data: seq<Byte>, faults: set<(nat, nat)>)
    requires FragsOk(frags, data)
    ensures var c := CopyFrags(w, frags, faults);
            && c.wqe.id == w.id && |c.wqe.region| == |w.region|
            && (c.failed ==> Faulted(w.id, faults))
            && |IdxSet(frags)| == |frags|
            && (!c.failed ==>
                  Filled(c.wqe.region, w.region, data, IdxSet(frags)) && c.delivered == Landed(|data|, |w.region|, IdxSet(frags)))
  {
    if frags != [] {
      var n := |frags| - 1;
      var init, f := frags[..n], frags[n];
      CopyFragsFills(w, init, data, faults);
      assert FragOk(frags[n], data);
      var k := f.offset / MAX_PAYLOAD;
      IdxSetMembers(init, k);
      forall t | 0 <= t < n ensures init[t].offset / MAX_PAYLOAD != k {
        assert FragOk(frags[t], data) && frags[t].offset != frags[n].offset;
      }
      var r := CopyFrags(w, init, faults);
      if !r.failed {
        CopyPiece(r.wqe, w.region, data, IdxSet(init), k, faults);
      }
    }
  }

  /** One piece copied into a partly filled buffer. */
  lemma CopyPiece(w: Wqe, before: seq<Byte>, data: seq<Byte>, done: set<nat>, k: nat, faults: set<(nat, nat)>)
    requires k < Count(|data|, MAX_PAYLOAD) && k !in done
    ensures var c := CopyToWqe(w, k * MAX_PAYLOAD, PayloadOf(data, k), faults);
            && c.wqe.id == w.id && |c.wqe.region| == |w.region|
            && (c.failed ==> Faulted(w.id, faults))
            && (Filled(w.region, before, data, done) && !c.failed ==>
                  && Filled(c.wqe.region, before, data, done + {k})
                  && Landed(|data|, |w.region|, done + {k}) == Landed(|data|, |w.region|, done) + c.delivered)
  {
    var q := PayloadOf(data, k);
    var c := CopyToWqe(w, k * MAX_PAYLOAD, q, faults);
    if c.failed { assert (w.id, k * MAX_PAYLOAD) in faults; }
    if Filled(w.region, before, data, done) && !c.failed {
      LandedAdd(data, |w.region|, done, k);
      var n := LandingOf(q, k * MAX_PAYLOAD, |w.region|);
      if n > 0 { FillPiece(w.region, before, data, done, k, n); } else { FillNothing(w.region, before, data, done, k); }
    }
  }

  ghost predicate BufOk(e: Buffered, m: Message) {
    && e.srcQp == m.srcQp && e.totalLen == |m.data| && e.imm == m.imm
    && e.seen <= Range(Frags(m))
    && FragsOk(e.frags, m.data)
    && (if |m.data| == 0 then e.frags == [] else IdxSet(e.frags) == e.seen)
  }

  // ----- completions -----

  ghost predicate StatusOk(status: WcStatus, m: Message, w: Wqe, faults: set<(nat, nat)>) {
    match status
    case Success => |m.data| <= |w.region|
    case LenErr => |m.data| > |w.region|
    case ProtErr => Faulted(w.id, faults)
  }

  /** `wc` completes the posted receive `w` with message `m`, byte for byte, as far as they fit, unless a copy failed. */
  ghost predicate Completes(wc: Wc, m: Message, w: Wqe, faults: set<(nat, nat)>) {
    && wc.wqe.id == w.id && wc.srcQp == m.srcQp && wc.imm == m.imm
    && StatusOk(wc.status, m, w, faults)
    && (wc.status == Success ==> wc.byteLen == |m.data| && wc.wqe.region == m.data + w.region[|m.data|..])
    && (wc.status == LenErr ==> wc.byteLen == |w.region| && wc.wqe.region == m.data[..|w.region|])
  }

  lemma BufferedCompletes(e: Buffered, m: Message, w: Wqe, faults: set<(nat, nat)>, f: set<(nat, nat)>)
    requires BufOk(e, m) && e.Complete() && f <= faults
    ensures Completes(BufferedWc(e, w, f), m, w, faults)
  {
    SubsetOfRange(e.seen, Frags(m));
    CopyFragsFills(w, e.frags, m.data, f);
    var c := CopyFrags(w, e.frags, f);
    if c.failed {
      var o: nat :| (w.id, o) in f;
      assert (w.id, o) in faults;
    } else if |m.data| > 0 {
      FilledAll(c.wqe.region, w.region, m.data, e.seen);
      LandedAll(|m.data|, |w.region|, e.seen);
    }
  }

  // ----- the active message -----

  /** The pieces already in the active message's buffer. */
  function Done(a: Active, striping: bool): set<nat> {
    if striping then a.seen else Range(a.received / MAX_PAYLOAD)
  }

  ghost predicate ActiveOk(a: Active, m: Message, w: Wqe, striping: bool, faults: set<(nat, nat)>) {
    && a.wqe.id == w.id && |a.wqe.region| == |w.region|
    && a.srcQp == m.srcQp && a.totalLen == |m.data| && a.imm == m.imm
    && Done(a, striping) <= Range(Frags(m))
    && (!striping ==> a.received % MAX_PAYLOAD == 0)
    && StatusOk(a.status, m, w, faults)
    && (a.status != ProtErr ==>
          && Filled(a.wqe.region, w.region, m.data, Done(a, striping))
          && a.delivered == Landed(|m.data|, |w.region|, Done(a, striping)))
  }

  // ----- the invariant -----

  ghost predicate EntryOk(e: Buffered, p: Peer, n: nat) {
    var d := Psn.Delta(e.psn, Psn.Of(p.base, n));
    && 0 <= d < REORDER_MAX_MESSAGES
    && n + d < |p.msgs|
    && e.psn == Psn.Of(p.base, n + d)
    && BufOk(e, p.msgs[n + d])
  }

  ghost predicate ReorderOk(list: seq<Buffered>, p: Peer, n: nat) {
    && (forall t | 0 <= t < |list| :: EntryOk(list[t], p, n))
    && (forall t, u | 0 <= t < u < |list| :: list[t].psn != list[u].psn)
  }

  ghost predicate CqOk(cq: seq<Wc>, p: Peer, posted: seq<Wqe>, faults: set<(nat, nat)>) {
    && |cq| <= |p.msgs| && |cq| <= |posted|
    && forall c | 0 <= c < |cq| :: Completes(cq[c], p.msgs[c], posted[c], faults)
  }

  /** The ring remembers the exact ACK status of each of the last 1024 consumed messages. */
  ghost predicate HistOk(hist: map<nat, HistEntry>, cq: seq<Wc>, base: nat) {
    forall i: nat | |cq| - ACK_HISTORY_SIZE <= i < |cq| ::
      var slot := Psn.Of(base, i) % ACK_HISTORY_SIZE;
      slot in hist && hist[slot] == HistEntry(Psn.Of(base, i), AckFor(cq[i].status))
  }

  ghost predicate Absent(list: seq<Buffered>, psn: nat) {
    forall t | 0 <= t < |list| :: list[t].psn != psn
  }

  ghost predicate Inv(s: Rx, p: Peer, striping: bool, posted: seq<Wqe>, faults: set<(nat, nat)>) {
    var n := |s.cq|;
    && p.Valid()
    && s.expected == Psn.Of(p.base, n)
    && CqOk(s.cq, p, posted, faults)
    && HistOk(s.hist, s.cq, p.base)
    && ReorderOk(s.reorder, p, n)
    && (match s.active
        case None => s.recvs == posted[n..]
        case Some(a) =>
          && n < |p.msgs| && n < |posted|
          && s.recvs == posted[n + 1..]
          && a.psn == s.expected
          && ActiveOk(a, p.msgs[n], posted[n], striping, faults)
          && Absent(s.reorder, s.expected))
  }

  /** The expected PSN moves past an absent entry; every other entry keeps its message. */
  lemma ReorderShift(list: seq<Buffered>, p: Peer, n: nat)
    requires ReorderOk(list, p, n) && Absent(list, Psn.Of(p.base, n))
    ensures ReorderOk(list, p, n + 1)
  {
    forall t | 0 <= t < |list| ensures EntryOk(list[t], p, n + 1) {
      assert EntryOk(list[t], p, n);
      var d := Psn.Delta(list[t].psn, Psn.Of(p.base, n));
      Psn.DeltaOfCounters(p.base, n + d, n + 1);
    }
  }

  lemma RemoveKeeps(list: seq<Buffered>, k: nat, ok: Buffered -> bool)
    requires k < |list|
    requires forall t | 0 <= t < |list| :: ok(list[t])
    requires forall t, u | 0 <= t < u < |list| :: list[t].psn != list[u].psn
    ensures forall t | 0 <= t < |Remove(list, k)| :: ok(Remove(list, k)[t])
    ensures forall t, u | 0 <= t < u < |Remove(list, k)| :: Remove(list, k)[t].psn != Remove(list, k)[u].psn
    ensures Absent(Remove(list, k), list[k].psn)
  {
    var r := Remove(list, k);
    assert forall t | 0 <= t < |r| :: r[t] == list[if t < k then t else t + 1];
  }

  lemma RemoveAbsent(list: seq<Buffered>, k: nat, psn: nat)
    requires k < |list|
    ensures Absent(list, psn) ==> Absent(Remove(list, k), psn)
  {
    var r := Remove(list, k);
    assert forall t | 0 <= t < |r| :: r[t] == list[if t < k then t else t + 1];
  }

  lemma ReorderRemove(list: seq<Buffered>, k: nat, p: Peer, n: nat)
    requires ReorderOk(list, p, n) && k < |list|
    ensures ReorderOk(Remove(list, k), p, n) && Absent(Remove(list, k), list[k].psn)
  {
    RemoveKeeps(list, k, e => EntryOk(e, p, n));
  }

  /** Nothing in the list is ever stale, so the pruning pass removes nothing. */
  lemma {:induction false} PruneNothing(list: seq<Buffered>, expected: nat, h: map<nat, HistEntry>)
    requires forall t | 0 <= t < |list| :: Psn.Delta(list[t].psn, expected) >= 0
    ensures Kept(list, expected) == list && StaleAcks(list, expected, h) == []
  {
    if list != [] {
      var init := list[..|list| - 1];
      PruneNothing(init, expected, h);
      assert init + [list[|list| - 1]] == list;
    }
  }

  lemma HistStoreOk(hist: map<nat, HistEntry>, cq: seq<Wc>, wc: Wc, base: nat)
    requires HistOk(hist, cq, base)
    ensures HistOk(HistStore(hist, Psn.Of(base, |cq|), AckFor(wc.status)), cq + [wc], base)
  {
    hide Psn.Of, AckFor;
    var hist', cq' := HistStore(hist, Psn.Of(base, |cq|), AckFor(wc.status)), cq + [wc];
    forall i: nat | |cq'| - ACK_HISTORY_SIZE <= i < |cq'|
      ensures var slot := Psn.Of(base, i) % ACK_HISTORY_SIZE;
              slot in hist' && hist'[slot] == HistEntry(Psn.Of(base, i), AckFor(cq'[i].status))
    {
      OfIsReduced(base, i);
      if i < |cq| { SlotsDiffer(base, i, |cq|); }
    }
  }

  lemma OfIsReduced(base: nat, i: nat)
    ensures Psn.Of(base, i) % Psn.MODULUS == Psn.Of(base, i)
  {
  }

  lemma SlotsDiffer(base: nat, i: nat, j: nat)
    requires 0 < j - i < ACK_HISTORY_SIZE
    ensures Psn.Of(base, i) % ACK_HISTORY_SIZE != Psn.Of(base, j) % ACK_HISTORY_SIZE
  {
    SlotOf(base, i);
    SlotOf(base, j);
  }

  lemma SlotOf(base: nat, i: nat)
    ensures Psn.Of(base, i) % ACK_HISTORY_SIZE == (base + i) % ACK_HISTORY_SIZE
  {
    assert Psn.MODULUS == 16384 * ACK_HISTORY_SIZE;
  }

  lemma ConsumeInv(s: Rx, wc: Wc, p: Peer, striping: bool, posted: seq<Wqe>, faults: set<(nat, nat)>)
    requires p.Valid() && s.active.None?
    requires var n := |s.cq|;
             && s.expected == Psn.Of(p.base, n) && CqOk(s.cq, p, posted, faults) && HistOk(s.hist, s.cq, p.base)
             && n < |p.msgs| && n < |posted| && s.recvs == posted[n + 1..]
             && ReorderOk(s.reorder, p, n) && Absent(s.reorder, s.expected)
             && Completes(wc, p.msgs[n], posted[n], faults)
    ensures Inv(Consume(s, wc, s.expected), p, striping, posted, faults)
  {
    hide Psn.Of, Psn.Next, HistOk, HistStore, EntryOk, Completes;
    Psn.NextOf(p.base, |s.cq|);
    ReorderShift(s.reorder, p, |s.cq|);
    HistStoreOk(s.hist, s.cq, wc, p.base);
  }

  lemma {:induction false} DrainInv(s: Rx, p: Peer, striping: bool, posted: seq<Wqe>, faults: set<(nat, nat)>, f: set<(nat, nat)>)
    requires Inv(s, p, striping, posted, faults) && f <= faults
    ensures Inv(Drain(s, f), p, striping, posted, faults)
    decreases |s.reorder|
  {
    if s.active.None? {
      var n := |s.cq|;
      forall t | 0 <= t < |s.reorder| ensures Psn.Delta(s.reorder[t].psn, s.expected) >= 0 {
        assert EntryOk(s.reorder[t], p, n);
      }
      PruneNothing(s.reorder, s.expected, s.hist);
      assert s.acks + [] == s.acks;
      assert Prune(s) == s;
      var r := Find(s.reorder, s.expected);
      if r.Some? && s.reorder[r.value].Complete() && s.recvs != [] {
        DeliverInv(s, r.value, p, striping, posted, faults, f);
        DrainInv(Deliver(s, r.value, f), p, striping, posted, faults, f);
      }
    }
  }

  lemma DeliverInv(s: Rx, k: nat, p: Peer, striping: bool, posted: seq<Wqe>, faults: set<(nat, nat)>, f: set<(nat, nat)>)
    requires Inv(s, p, striping, posted, faults) && f <= faults && s.active.None?
    requires k < |s.reorder| && s.reorder[k].psn == s.expected && s.reorder[k].Complete() && s.recvs != []
    ensures Inv(Deliver(s, k, f), p, striping, posted, faults)
  {
    var n := |s.cq|;
    var e := s.reorder[k];
    assert EntryOk(e, p, n);
    Psn.DeltaOfCounters(p.base, n, n);
    BufferedCompletes(e, p.msgs[n], posted[n], faults, f);
    ReorderRemove(s.reorder, k, p, n);
    ConsumeInv(s.(reorder := Remove(s.reorder, k), recvs := s.recvs[1..]),
               BufferedWc(e, posted[n], f), p, striping, posted, faults);
  }

  // ----- one step -----

  /** Fragment `k` of message `i` is buffered: always possible for a message the engine is not receiving. */
  lemma BufferInv(s: Rx, p: Peer, striping: bool, posted: seq<Wqe>, faults: set<(nat, nat)>, i: nat, k: nat, env: Env)
    requires Inv(s, p, striping, posted, faults) && env.faults <= faults
    requires i < |p.msgs| && k < Frags(p.msgs[i])
    requires -Psn.HALF <= i - |s.cq| < Psn.HALF
    requires s.active.Some? ==> i != |s.cq|
    ensures Inv(BufferFragment(s, FrameOf(p, i, k), Psn.Of(p.base, i), PayloadOf(p.msgs[i].data, k), env),
                p, striping, posted, faults)
  {
    hide ReorderOk, CqOk, HistOk, ActiveOk, MergeFragment, StoreFragment, FragmentShape, ImmOf, Find;
    var n := |s.cq|;
    var h, psn := FrameOf(p, i, k), Psn.Of(p.base, i);
    FrameFacts(p, i, k);
    Psn.DeltaOfCounters(p.base, i, n);
    if 0 <= i - n < REORDER_MAX_MESSAGES {
      match Find(s.reorder, psn)
      case None =>
        if |s.reorder| < REORDER_MAX_MESSAGES && env.msgAlloc {
          var e := Buffered(h.srcQp, psn, h.imm, ImmOf(h), {}, []);
          NewEntryInv(s, e, p, striping, posted, faults, i);
          StoreInv(s.(reorder := s.reorder + [e]), |s.reorder|, p, striping, posted, faults, i, k, env);
        }
      case Some(j) =>
        MergeInv(s, j, p, striping, posted, faults, i, k, env);
    }
  }

  lemma MergeInv(s: Rx, j: nat, p: Peer, striping: bool, posted: seq<Wqe>, faults: set<(nat, nat)>, i: nat, k: nat, env: Env)
    requires Inv(s, p, striping, posted, faults) && env.faults <= faults
    requires i < |p.msgs| && k < Frags(p.msgs[i]) && 0 <= i - |s.cq| < REORDER_MAX_MESSAGES
    requires j < |s.reorder| && s.reorder[j].psn == Psn.Of(p.base, i)
    ensures Inv(MergeFragment(s, j, FrameOf(p, i, k), Psn.Of(p.base, i), k, PayloadOf(p.msgs[i].data, k), env),
                p, striping, posted, faults)
  {
    hide CqOk, HistOk, ActiveOk, StoreFragment, FragmentShape, ImmOf, Find, Drain, FragMatches;
    var e := s.reorder[j];
    FrameFacts(p, i, k);
    EntryMessage(e, p, |s.cq|, i);
    if k in e.seen {
      if |PayloadOf(p.msgs[i].data, k)| > 0 { SeenMatches(e, p.msgs[i], k); }
      DrainInv(s, p, striping, posted, faults, env.faults);
    } else {
      StoreInv(s, j, p, striping, posted, faults, i, k, env);
    }
  }

  lemma NewEntryInv(s: Rx, e: Buffered, p: Peer, striping: bool, posted: seq<Wqe>, faults: set<(nat, nat)>, i: nat)
    requires Inv(s, p, striping, posted, faults)
    requires i < |p.msgs| && 0 <= i - |s.cq| < REORDER_MAX_MESSAGES && (s.active.Some? ==> i != |s.cq|)
    requires e == Buffered(p.msgs[i].srcQp, Psn.Of(p.base, i), |p.msgs[i].data|, p.msgs[i].imm, {}, [])
    requires Absent(s.reorder, e.psn)
    ensures Inv(s.(reorder := s.reorder + [e]), p, striping, posted, faults)
  {
    Psn.DeltaOfCounters(p.base, i, |s.cq|);
    if s.active.Some? && e.psn == s.expected { Psn.OfInjective(p.base, i, |s.cq|); }
    assert EntryOk(e, p, |s.cq|);
    RelistInv(s, s.(reorder := s.reorder + [e]), p, striping, posted, faults);
  }

  /** A repeated fragment equals the stored one. */
  lemma SeenMatches(e: Buffered, m: Message, k: nat)
    requires BufOk(e, m) && k in e.seen && |PayloadOf(m.data, k)| > 0
    ensures FragMatches(e.frags, k * MAX_PAYLOAD, PayloadOf(m.data, k))
  {
    IdxSetMembers(e.frags, k);
    var t :| 0 <= t < |e.frags| && e.frags[t].offset / MAX_PAYLOAD == k;
    assert FragOk(e.frags[t], m.data);
    MatchAt(e.frags, t);
  }

  lemma {:induction false} MatchAt(frags: seq<Frag>, t: nat)
    requires t < |frags|
    requires forall u, v | 0 <= u < v < |frags| :: frags[u].offset != frags[v].offset
    ensures FragMatches(frags, frags[t].offset, frags[t].data)
  {
    if t > 0 {
      assert frags[0].offset != frags[t].offset;
      MatchAt(frags[1..], t - 1);
    }
  }

  lemma UpdateKeeps(list: seq<Buffered>, j: nat, e: Buffered, list': seq<Buffered>, ok: Buffered -> bool)
    requires j < |list| && ok(e) && e.psn == list[j].psn && list' == list[j := e]
    requires forall t | 0 <= t < |list| :: ok(list[t])
    requires forall t, u | 0 <= t < u < |list| :: list[t].psn != list[u].psn
    ensures forall t | 0 <= t < |list'| :: ok(list'[t])
    ensures forall t, u | 0 <= t < u < |list'| :: list'[t].psn != list'[u].psn
    ensures forall x: nat :: Absent(list, x) ==> Absent(list', x)
  {
  }

  lemma ReplaceInv(s: Rx, j: nat, e: Buffered, p: Peer, striping: bool, posted: seq<Wqe>, faults: set<(nat, nat)>)
    requires Inv(s, p, striping, posted, faults)
    requires j < |s.reorder| && e.psn == s.reorder[j].psn && EntryOk(e, p, |s.cq|)
    ensures Inv(s.(reorder := s.reorder[j := e]), p, striping, posted, faults)
  {
    var list' := s.reorder[j := e];
    UpdateKeeps(s.reorder, j, e, list', x => EntryOk(x, p, |s.cq|));
    RelistInv(s, s.(reorder := list'), p, striping, posted, faults);
  }

  /** Only the list, the ACKs and the RNR mark change. */
  lemma RelistInv(s: Rx, s': Rx, p: Peer, striping: bool, posted: seq<Wqe>, faults: set<(nat, nat)>)
    requires Inv(s, p, striping, posted, faults)
    requires s' == s.(reorder := s'.reorder, acks := s'.acks, rnr := s'.rnr)
    requires ReorderOk(s'.reorder, p, |s.cq|)
    requires s.active.Some? ==> Absent(s'.reorder, s.expected)
    ensures Inv(s', p, striping, posted, faults)
  {
  }

  lemma StoreInv(s: Rx, j: nat, p: Peer, striping: bool, posted: seq<Wqe>, faults: set<(nat, nat)>, i: nat, k: nat, env: Env)
    requires Inv(s, p, striping, posted, faults) && env.faults <= faults
    requires i < |p.msgs| && k < Frags(p.msgs[i]) && 0 <= i - |s.cq| < REORDER_MAX_MESSAGES
    requires j < |s.reorder| && s.reorder[j].psn == Psn.Of(p.base, i) && k !in s.reorder[j].seen
    ensures Inv(StoreFragment(s, j, FrameOf(p, i, k), Psn.Of(p.base, i), k, PayloadOf(p.msgs[i].data, k), env),
                p, striping, posted, faults)
  {
    var n := |s.cq|;
    var h, m := FrameOf(p, i, k), p.msgs[i];
    var q := PayloadOf(m.data, k);
    var e := s.reorder[j];
    if |q| > 0 && (TotalBytes(s.reorder) + |q| > REORDER_MAX_BYTES || !env.fragAlloc) {
      DropInv(s, j, p, striping, posted, faults, h, Psn.Of(p.base, i));
    } else {
      EntryMessage(e, p, n, i);
      StoredOk(e, m, k);
      var frags := if |q| > 0 then e.frags + [Frag(h.fragOffset, q)] else e.frags;
      var e' := e.(seen := e.seen + {k}, frags := frags);
      var s' := s.(reorder := s.reorder[j := e']);
      ReplaceInv(s, j, e', p, striping, posted, faults);
      DrainInv(s', p, striping, posted, faults, env.faults);
    }
  }

  /** An entry belongs to the message its PSN names, and any contents that fit that message are acceptable. */
  lemma EntryMessage(e: Buffered, p: Peer, n: nat, i: nat)
    requires EntryOk(e, p, n) && e.psn == Psn.Of(p.base, i) && 0 <= i - n < REORDER_MAX_MESSAGES
    ensures i < |p.msgs| && BufOk(e, p.msgs[i])
    ensures forall x: Buffered | x.psn == e.psn && BufOk(x, p.msgs[i]) :: EntryOk(x, p, n)
  {
    Psn.DeltaOfCounters(p.base, i, n);
  }

  lemma DropInv(s: Rx, j: nat, p: Peer, striping: bool, posted: seq<Wqe>, faults: set<(nat, nat)>, h: DataHeader, psn: nat)
    requires Inv(s, p, striping, posted, faults) && j < |s.reorder|
    ensures Inv(ErrorAck(s.(reorder := Remove(s.reorder, j)), h, psn), p, striping, posted, faults)
  {
    ReorderRemove(s.reorder, j, p, |s.cq|);
    RemoveAbsent(s.reorder, j, s.expected);
    RelistInv(s, ErrorAck(s.(reorder := Remove(s.reorder, j)), h, psn), p, striping, posted, faults);
  }

  lemma FragsAppend(frags: seq<Frag>, data: seq<Byte>, k: nat)
    requires FragsOk(frags, data) && k < Count(|data|, MAX_PAYLOAD) && k !in IdxSet(frags)
    ensures var frags' := frags + [Frag(k * MAX_PAYLOAD, PayloadOf(data, k))];
            FragsOk(frags', data) && IdxSet(frags') == IdxSet(frags) + {k}
  {
    var f := Frag(k * MAX_PAYLOAD, PayloadOf(data, k));
    var frags' := frags + [f];
    assert frags'[..|frags|] == frags;
    assert f.offset / MAX_PAYLOAD == k;
    assert FragOk(f, data);
    IdxSetMembers(frags, k);
    forall t | 0 <= t < |frags| ensures frags[t].offset != f.offset {
      assert frags[t].offset / MAX_PAYLOAD != k;
    }
  }

  lemma StoredOk(e: Buffered, m: Message, k: nat)
    requires BufOk(e, m) && k < Frags(m) && k !in e.seen
    ensures var q := PayloadOf(m.data, k);
            var frags := if |q| > 0 then e.frags + [Frag(k * MAX_PAYLOAD, q)] else e.frags;
            BufOk(e.(seen := e.seen + {k}, frags := frags), m)
  {
    if |m.data| > 0 {
      PieceLength(|m.data|, MAX_PAYLOAD, k);
      FragsAppend(e.frags, m.data, k);
    }
  }

  /** The active message takes piece `k`; when that was the last one missing, it completes. */
  lemma AbsorbOk(a: Active, m: Message, w: Wqe, faults: set<(nat, nat)>, done: set<nat>, k: nat, f: set<(nat, nat)>)
    requires k < Frags(m) && k !in done && f <= faults
    requires a.wqe.id == w.id && |a.wqe.region| == |w.region| && StatusOk(a.status, m, w, faults)
    requires a.status != ProtErr ==> Filled(a.wqe.region, w.region, m.data, done) && a.delivered == Landed(|m.data|, |w.region|, done)
    ensures var b := Absorb(a, k * MAX_PAYLOAD, PayloadOf(m.data, k), f);
            && b.wqe.id == w.id && |b.wqe.region| == |w.region| && StatusOk(b.status, m, w, faults)
            && (b.status != ProtErr ==>
                  Filled(b.wqe.region, w.region, m.data, done + {k}) && b.delivered == Landed(|m.data|, |w.region|, done + {k}))
  {
    CopyPiece(a.wqe, w.region, m.data, done, k, f);
    if CopyToWqe(a.wqe, k * MAX_PAYLOAD, PayloadOf(m.data, k), f).failed {
      var o: nat :| (w.id, o) in f;
      assert (w.id, o) in faults;
    }
  }

  /** An active message whose pieces are all there completes its receive. */
  lemma FinishInv(s: Rx, p: Peer, striping: bool, posted: seq<Wqe>, faults: set<(nat, nat)>)
    requires s.active.Some?
    requires p.Valid() && s.expected == Psn.Of(p.base, |s.cq|)
    requires CqOk(s.cq, p, posted, faults) && HistOk(s.hist, s.cq, p.base) && ReorderOk(s.reorder, p, |s.cq|)
    requires var n, a := |s.cq|, s.active.value;
             && n < |p.msgs| && n < |posted| && s.recvs == posted[n + 1..]
             && a.psn == s.expected && Absent(s.reorder, s.expected)
             && Completes(Wc(a.wqe, a.status, a.delivered, a.srcQp, a.imm), p.msgs[n], posted[n], faults)
    ensures Inv(FinishSend(s), p, striping, posted, faults)
  {
    var a := s.active.value;
    ConsumeInv(s.(active := None), Wc(a.wqe, a.status, a.delivered, a.srcQp, a.imm), p, striping, posted, faults);
  }

  /** The state with `a` as the (possibly just started) active message, before its next piece. */
  ghost predicate Receiving(s: Rx, a: Active, p: Peer, striping: bool, posted: seq<Wqe>, faults: set<(nat, nat)>) {
    var n := |s.cq|;
    && p.Valid() && s.expected == Psn.Of(p.base, n)
    && CqOk(s.cq, p, posted, faults) && HistOk(s.hist, s.cq, p.base) && ReorderOk(s.reorder, p, n)
    && n < |p.msgs| && n < |posted| && s.recvs == posted[n + 1..]
    && a.psn == s.expected && ActiveOk(a, p.msgs[n], posted[n], striping, faults)
    && Absent(s.reorder, s.expected)
  }

  /** With every piece in place the active message completes its receive. */
  lemma CompletesWhenAll(b: Active, m: Message, w: Wqe, faults: set<(nat, nat)>)
    requires b.wqe.id == w.id && b.srcQp == m.srcQp && b.imm == m.imm && StatusOk(b.status, m, w, faults)
    requires b.status != ProtErr ==>
               && Filled(b.wqe.region, w.region, m.data, Range(Frags(m)))
               && b.delivered == Landed(|m.data|, |w.region|, Range(Frags(m)))
    ensures Completes(Wc(b.wqe, b.status, b.delivered, b.srcQp, b.imm), m, w, faults)
  {
    if b.status != ProtErr {
      FilledAll(b.wqe.region, w.region, m.data, Range(Frags(m)));
      LandedAll(|m.data|, |w.region|, Range(Frags(m)));
    }
  }

  /** The open message of a striped engine with piece `k` added, if it was missing. */
  function WithPiece(a: Active, k: nat, offset: nat, data: seq<Byte>, f: set<(nat, nat)>): Active {
    if k in a.seen then a else Absorb(a, offset, data, f).(seen := a.seen + {k})
  }

  lemma PieceAdded(s: Rx, a: Active, p: Peer, posted: seq<Wqe>, faults: set<(nat, nat)>, k: nat, f: set<(nat, nat)>)
    requires Receiving(s, a, p, true, posted, faults) && f <= faults && k < Frags(p.msgs[|s.cq|])
    ensures var m := p.msgs[|s.cq|];
            var b := WithPiece(a, k, k * MAX_PAYLOAD, PayloadOf(m.data, k), f);
            && b.psn == s.expected && b.srcQp == m.srcQp && ActiveOk(b, m, posted[|s.cq|], true, faults)
            && (|b.seen| == Frags(m) ==> Inv(FinishSend(s.(active := Some(b))), p, true, posted, faults))
  {
    hide ReorderOk, CqOk, HistOk, Completes, FinishSend, Filled, Landed, StatusOk;
    var n := |s.cq|;
    var m := p.msgs[n];
    var b := WithPiece(a, k, k * MAX_PAYLOAD, PayloadOf(m.data, k), f);
    if k !in a.seen { AbsorbOk(a, m, posted[n], faults, a.seen, k, f); }
    if |b.seen| == Frags(m) {
      SubsetOfRange(b.seen, Frags(m));
      CompletesWhenAll(b, m, posted[n], faults);
      FinishInv(s.(active := Some(b)), p, true, posted, faults);
    }
  }

  lemma AcceptStripedInv(s: Rx, a: Active, p: Peer, posted: seq<Wqe>, faults: set<(nat, nat)>, k: nat, f: set<(nat, nat)>)
    requires Receiving(s, a, p, true, posted, faults) && f <= faults
    requires k < Frags(p.msgs[|s.cq|])
    ensures var m := p.msgs[|s.cq|];
            Inv(AcceptStriped(s, a, FrameOf(p, |s.cq|, k), Shape(k, Frags(m)), PayloadOf(m.data, k), f), p, true, posted, faults)
  {
    hide ReorderOk, CqOk, HistOk, Completes, Drain, FinishSend, Filled, Landed, StatusOk, Absorb;
    var m := p.msgs[|s.cq|];
    FrameFacts(p, |s.cq|, k);
    PieceAdded(s, a, p, posted, faults, k, f);
    var s' := s.(active := Some(WithPiece(a, k, k * MAX_PAYLOAD, PayloadOf(m.data, k), f)));
    if |s'.active.value.seen| == Frags(m) { DrainInv(FinishSend(s'), p, true, posted, faults, f); }
  }

  /** In ordered mode the active message takes its next piece. */
  lemma TakenInOrder(a: Active, m: Message, w: Wqe, faults: set<(nat, nat)>, k: nat, f: set<(nat, nat)>)
    requires ActiveOk(a, m, w, false, faults) && f <= faults
    requires k < Frags(m) && a.received == k * MAX_PAYLOAD
    ensures var b := Absorb(a, k * MAX_PAYLOAD, PayloadOf(m.data, k), f);
            if k == Frags(m) - 1 then Completes(Wc(b.wqe, b.status, b.delivered, b.srcQp, b.imm), m, w, faults)
            else ActiveOk(b, m, w, false, faults)
  {
    hide Completes, Filled, Landed, StatusOk, CopyToWqe, Done, PayloadOf, PieceOf, Count;
    var b := Absorb(a, k * MAX_PAYLOAD, PayloadOf(m.data, k), f);
    DoneAt(a, k);
    assert Range(k) + {k} == Range(k + 1);
    if k + 1 < Frags(m) {
      FullPiece(m, k);
      DoneAt(b, k + 1);
      MoreToCome(a, m, w, faults, k, f);
    } else {
      AbsorbOk(a, m, w, faults, Range(k), k, f);
      CompletesWhenAll(b, m, w, faults);
    }
  }

  lemma MoreToCome(a: Active, m: Message, w: Wqe, faults: set<(nat, nat)>, k: nat, f: set<(nat, nat)>)
    requires ActiveOk(a, m, w, false, faults) && f <= faults
    requires k + 1 < Frags(m) && a.received == k * MAX_PAYLOAD && Done(a, false) == Range(k)
    requires var b := Absorb(a, k * MAX_PAYLOAD, PayloadOf(m.data, k), f);
             b.received == (k + 1) * MAX_PAYLOAD && Done(b, false) == Range(k) + {k}
    ensures ActiveOk(Absorb(a, k * MAX_PAYLOAD, PayloadOf(m.data, k), f), m, w, false, faults)
  {
    hide Filled, Landed, StatusOk, CopyToWqe, Done, PayloadOf, PieceOf, Count;
    AbsorbOk(a, m, w, faults, Range(k), k, f);
  }

  lemma LastPieceInv(s: Rx, a: Active, p: Peer, posted: seq<Wqe>, faults: set<(nat, nat)>, k: nat, f: set<(nat, nat)>)
    requires Receiving(s, a, p, false, posted, faults) && f <= faults
    requires k == Frags(p.msgs[|s.cq|]) - 1 && a.received == k * MAX_PAYLOAD
    ensures var b := Absorb(a, k * MAX_PAYLOAD, PayloadOf(p.msgs[|s.cq|].data, k), f);
            && b.psn == s.expected && b.srcQp == p.msgs[|s.cq|].srcQp
            && Inv(FinishSend(s.(active := Some(b))), p, false, posted, faults)
  {
    hide ReorderOk, CqOk, HistOk, ActiveOk, Completes, FinishSend, CopyToWqe, Psn.Of, Absent;
    var m := p.msgs[|s.cq|];
    TakenInOrder(a, m, posted[|s.cq|], faults, k, f);
    SourceKept(a, m, posted[|s.cq|], false, faults);
    FinishInv(s.(active := Some(Absorb(a, k * MAX_PAYLOAD, PayloadOf(m.data, k), f))), p, false, posted, faults);
  }

  lemma SourceKept(a: Active, m: Message, w: Wqe, striping: bool, faults: set<(nat, nat)>)
    requires ActiveOk(a, m, w, striping, faults)
    ensures a.srcQp == m.srcQp
  {
  }

  lemma AcceptOrderedInv(s: Rx, a: Active, p: Peer, posted: seq<Wqe>, faults: set<(nat, nat)>, k: nat, f: set<(nat, nat)>)
    requires Receiving(s, a, p, false, posted, faults) && f <= faults
    requires k < Frags(p.msgs[|s.cq|]) && a.received == k * MAX_PAYLOAD
    ensures var m := p.msgs[|s.cq|];
            Inv(AcceptOrdered(s, a, k * MAX_PAYLOAD, PayloadOf(m.data, k), k == Frags(m) - 1, f), p, false, posted, faults)
  {
    hide ReorderOk, CqOk, HistOk, ActiveOk, Completes, Drain, FinishSend, CopyToWqe, Psn.Of, Absent;
    var n := |s.cq|;
    var m := p.msgs[n];
    var s' := s.(active := Some(Absorb(a, k * MAX_PAYLOAD, PayloadOf(m.data, k), f)));
    if k == Frags(m) - 1 {
      LastPieceInv(s, a, p, posted, faults, k, f);
      DrainInv(FinishSend(s'), p, false, posted, faults, f);
    } else {
      TakenInOrder(a, m, posted[n], faults, k, f);
    }
  }

  lemma FullPiece(m: Message, k: nat)
    requires k + 1 < Frags(m)
    ensures |PayloadOf(m.data, k)| == MAX_PAYLOAD
  {
    PieceLength(|m.data|, MAX_PAYLOAD, k);
  }

  lemma DoneAt(a: Active, k: nat)
    requires a.received == k * MAX_PAYLOAD
    ensures Done(a, false) == Range(k) && a.received % MAX_PAYLOAD == 0
  {
    assert a.received / MAX_PAYLOAD == k;
  }

  /** A message starts out with nothing of it received. */
  lemma StartsEmpty(w: Wqe, p: Peer, n: nat, k: nat, psn: nat, striping: bool, faults: set<(nat, nat)>)
    requires p.Valid() && n < |p.msgs| && k < Frags(p.msgs[n])
    ensures var a := StartActive(w, FrameOf(p, n, k), psn); a.psn == psn && ActiveOk(a, p.msgs[n], w, striping, faults)
  {
    FrameFacts(p, n, k);
    hide FrameOf, ShapeOf, PayloadOf, Frags, Count;
    var a := StartActive(w, FrameOf(p, n, k), psn);
    assert Done(a, striping) == {};
    NothingLanded(|p.msgs[n].data|, |w.region|);
  }

  lemma NothingLanded(total: nat, size: nat)
    ensures Landed(total, size, {}) == 0
  {
    var none: set<nat> := {};
    CeilingBounds(Min(total, size), MAX_PAYLOAD);
    assert none * Range(Count(Min(total, size), MAX_PAYLOAD)) == none;
  }

  lemma StartReceiving(s: Rx, p: Peer, striping: bool, posted: seq<Wqe>, faults: set<(nat, nat)>, k: nat)
    requires Inv(s, p, striping, posted, faults) && s.active.None? && s.recvs != []
    requires |s.cq| < |p.msgs| && k < Frags(p.msgs[|s.cq|]) && Absent(s.reorder, s.expected)
    ensures Receiving(s.(recvs := s.recvs[1..]), StartActive(s.recvs[0], FrameOf(p, |s.cq|, k), s.expected),
                      p, striping, posted, faults)
  {
    hide ReorderOk, Completes, HistOk, ActiveOk, StartActive, FrameOf, Psn.Of, Absent;
    assert s.recvs[0] == posted[|s.cq|];
    StartsEmpty(s.recvs[0], p, |s.cq|, k, s.expected, striping, faults);
  }

  lemma StripedInv(s: Rx, p: Peer, posted: seq<Wqe>, faults: set<(nat, nat)>, i: nat, k: nat, env: Env)
    requires Inv(s, p, true, posted, faults) && env.faults <= faults
    requires i < |p.msgs| && k < Frags(p.msgs[i]) && -Psn.HALF <= i - |s.cq| < Psn.HALF
    ensures Inv(HandleStriped(s, FrameOf(p, i, k), Psn.Of(p.base, i), PayloadOf(p.msgs[i].data, k), env), p, true, posted, faults)
  {
    var n := |s.cq|;
    var h, psn := FrameOf(p, i, k), Psn.Of(p.base, i);
    FrameFacts(p, i, k);
    Psn.DeltaOfCounters(p.base, i, n);
    if i < n {
    } else if i > n || (s.active.None? && Find(s.reorder, psn).Some?) {
      BufferInv(s, p, true, posted, faults, i, k, env);
    } else if s.active.Some? {
      AcceptStripedInv(s, s.active.value, p, posted, faults, k, env.faults);
    } else if s.recvs == [] {
      RelistInv(s, NotReady(s, h, psn), p, true, posted, faults);
    } else {
      StartReceiving(s, p, true, posted, faults, k);
      AcceptStripedInv(s.(recvs := s.recvs[1..]), StartActive(s.recvs[0], h, psn), p, posted, faults, k, env.faults);
    }
  }

  /** Fragments start on piece boundaries, so one that starts early repeats bytes already received. */
  lemma EarlierPieceIsDuplicate(a: Active, m: Message, k: nat)
    requires k < Frags(m) && a.received % MAX_PAYLOAD == 0 && k * MAX_PAYLOAD < a.received
    ensures k * MAX_PAYLOAD + |PayloadOf(m.data, k)| <= a.received
  {
    assert a.received == a.received / MAX_PAYLOAD * MAX_PAYLOAD;
    assert k + 1 <= a.received / MAX_PAYLOAD;
  }

  /** With a message active, a fragment is a duplicate, early, the next piece, or ignored. */
  lemma OrderedActiveCases(s: Rx, a: Active, p: Peer, n: nat, i: nat, k: nat, env: Env)
    requires p.Valid() && i < |p.msgs| && n < |p.msgs| && k < Frags(p.msgs[i]) && -Psn.HALF <= i - n < Psn.HALF
    requires s.active == Some(a) && s.expected == Psn.Of(p.base, n) && a.psn == s.expected
    requires a.srcQp == p.msgs[n].srcQp && a.totalLen == |p.msgs[n].data| && a.imm == p.msgs[n].imm
    requires a.received % MAX_PAYLOAD == 0
    ensures var h, psn, q := FrameOf(p, i, k), Psn.Of(p.base, i), PayloadOf(p.msgs[i].data, k);
            HandleOrdered(s, h, psn, q, env)
            == if i < n then Reack(s, h.srcQp, psn)
               else if i > n then BufferFragment(s, h, psn, q, env)
               else if a.received == k * MAX_PAYLOAD then AcceptOrdered(s, a, k * MAX_PAYLOAD, q, k == Frags(p.msgs[n]) - 1, env.faults)
               else s
  {
    FrameFacts(p, i, k);
    Psn.DeltaOfCounters(p.base, i, n);
    if i == n && k * MAX_PAYLOAD < a.received { EarlierPieceIsDuplicate(a, p.msgs[n], k); }
  }

  lemma OrderedActiveInv(s: Rx, a: Active, p: Peer, posted: seq<Wqe>, faults: set<(nat, nat)>, i: nat, k: nat, env: Env)
    requires Inv(s, p, false, posted, faults) && env.faults <= faults && s.active == Some(a)
    requires i < |p.msgs| && k < Frags(p.msgs[i]) && -Psn.HALF <= i - |s.cq| < Psn.HALF
    ensures Inv(HandleOrdered(s, FrameOf(p, i, k), Psn.Of(p.base, i), PayloadOf(p.msgs[i].data, k), env), p, false, posted, faults)
  {
    OrderedActiveCases(s, a, p, |s.cq|, i, k, env);
    if i > |s.cq| {
      BufferInv(s, p, false, posted, faults, i, k, env);
    } else if i == |s.cq| && a.received == k * MAX_PAYLOAD {
      AcceptOrderedInv(s, a, p, posted, faults, k, env.faults);
    }
  }

  lemma OrderedIdleInv(s: Rx, p: Peer, posted: seq<Wqe>, faults: set<(nat, nat)>, i: nat, k: nat, env: Env)
    requires Inv(s, p, false, posted, faults) && env.faults <= faults && s.active.None?
    requires i < |p.msgs| && k < Frags(p.msgs[i]) && -Psn.HALF <= i - |s.cq| < Psn.HALF
    ensures Inv(HandleOrdered(s, FrameOf(p, i, k), Psn.Of(p.base, i), PayloadOf(p.msgs[i].data, k), env), p, false, posted, faults)
  {
    var n := |s.cq|;
    var h, psn := FrameOf(p, i, k), Psn.Of(p.base, i);
    FrameFacts(p, i, k);
    if Find(s.reorder, psn).Some? || psn != s.expected {
      BufferInv(s, p, false, posted, faults, i, k, env);
    } else {
      Psn.OfInjective(p.base, i, n);
      if k == 0 {
        if s.recvs == [] {
          RelistInv(s, NotReady(s, h, psn), p, false, posted, faults);
        } else {
          StartReceiving(s, p, false, posted, faults, k);
          AcceptOrderedInv(s.(recvs := s.recvs[1..]), StartActive(s.recvs[0], h, psn), p, posted, faults, k, env.faults);
        }
      }
    }
  }

  // ----- whole runs -----

  /** What can happen to the queue pair: a fragment of message `i` arrives, a receive is posted, a posted receive is noticed. */
  datatype Event =
    | Arrive(i: nat, k: nat, env: Env)
    | PostRecv(w: Wqe)
    | DrainNow(faults: set<(nat, nat)>)

  ghost predicate Possible(e: Event, s: Rx, p: Peer) {
    match e
    case Arrive(i, k, _) => i < |p.msgs| && k < Frags(p.msgs[i]) && -Psn.HALF <= i - |s.cq| < Psn.HALF
    case PostRecv(_) => true
    case DrainNow(_) => true
  }

  function Step(s: Rx, p: Peer, striping: bool, capacity: nat, e: Event): Rx
    requires e.Arrive? ==> e.i < |p.msgs| && e.k < Frags(p.msgs[e.i])
  {
    match e
    case Arrive(i, k, env) => HandleSend(s, striping, FrameOf(p, i, k), PayloadOf(p.msgs[i].data, k), env)
    case PostRecv(w) => Post(s, capacity, w)
    case DrainNow(f) => Drain(s, f)
  }

  function EventFaults(e: Event): set<(nat, nat)> {
    match e
    case Arrive(_, _, env) => env.faults
    case PostRecv(_) => {}
    case DrainNow(f) => f
  }

  /** A run: the state reached, the receives accepted by `post_recv` so far in order, and the copies that failed. */
  datatype Run = Run(s: Rx, posted: seq<Wqe>, faults: set<(nat, nat)>)

  /** The run of `events`; `None` when an arriving fragment is not the peer's or is too stale. */
  ghost function RunOf(p: Peer, striping: bool, capacity: nat, events: seq<Event>): Option<Run> {
    if events == [] then Some(Run(Fresh(Psn.Of(p.base, 0)), [], {}))
    else
      var e := events[|events| - 1];
      match RunOf(p, striping, capacity, events[..|events| - 1])
      case None => None
      case Some(r) =>
        if !Possible(e, r.s, p) then None
        else Some(Run(Step(r.s, p, striping, capacity, e),
                      if e.PostRecv? && |r.s.recvs| < capacity then r.posted + [e.w] else r.posted,
                      r.faults + EventFaults(e)))
  }

  lemma StepInv(s: Rx, p: Peer, striping: bool, capacity: nat, posted: seq<Wqe>, faults: set<(nat, nat)>, e: Event)
    requires Inv(s, p, striping, posted, faults) && Possible(e, s, p) && EventFaults(e) <= faults && !e.PostRecv?
    ensures Inv(Step(s, p, striping, capacity, e), p, striping, posted, faults)
  {
    match e
    case DrainNow(f) => DrainInv(s, p, striping, posted, faults, f);
    case Arrive(i, k, env) =>
      FrameFacts(p, i, k);
      var h, psn := FrameOf(p, i, k), Psn.Of(p.base, i);
      var s' := if RnrMatches(s, h, psn) then s.(rnr := None) else s;
      RelistInv(s, s', p, striping, posted, faults);
      if striping {
        StripedInv(s', p, posted, faults, i, k, env);
      } else {
        if s'.active.Some? {
          OrderedActiveInv(s', s'.active.value, p, posted, faults, i, k, env);
        } else {
          OrderedIdleInv(s', p, posted, faults, i, k, env);
        }
      }
  }

  lemma MoreFaults(s: Rx, p: Peer, striping: bool, posted: seq<Wqe>, f: set<(nat, nat)>, g: set<(nat, nat)>)
    requires Inv(s, p, striping, posted, f) && f <= g
    ensures Inv(s, p, striping, posted, g)
  {
    FaultedMonotone(f, g);
  }

  lemma FaultedMonotone(f: set<(nat, nat)>, g: set<(nat, nat)>)
    requires f <= g
    ensures forall id: nat :: Faulted(id, f) ==> Faulted(id, g)
  {
    forall id: nat | Faulted(id, f) ensures Faulted(id, g) {
      var o: nat :| (id, o) in f;
      assert (id, o) in g;
    }
  }

  lemma PostInv(s: Rx, p: Peer, striping: bool, posted: seq<Wqe>, faults: set<(nat, nat)>, w: Wqe)
    requires Inv(s, p, striping, posted, faults)
    ensures Inv(s.(recvs := s.recvs + [w]), p, striping, posted + [w], faults)
  {
    var n := if s.active.Some? then |s.cq| + 1 else |s.cq|;
    assert (posted + [w])[n..] == posted[n..] + [w];
    forall c | 0 <= c < |s.cq| ensures Completes(s.cq[c], p.msgs[c], (posted + [w])[c], faults) {
      assert (posted + [w])[c] == posted[c];
    }
  }

  lemma {:induction false} RunInv(p: Peer, striping: bool, capacity: nat, events: seq<Event>)
    requires p.Valid()
    ensures var r := RunOf(p, striping, capacity, events);
            r.Some? ==> Inv(r.value.s, p, striping, r.value.posted, r.value.faults)
  {
    if events != [] {
      var init, e := events[..|events| - 1], events[|events| - 1];
      RunInv(p, striping, capacity, init);
      var r := RunOf(p, striping, capacity, init);
      if r.Some? && Possible(e, r.value.s, p) {
        var faults := r.value.faults + EventFaults(e);
        MoreFaults(r.value.s, p, striping, r.value.posted, r.value.faults, faults);
        if e.PostRecv? {
          if |r.value.s.recvs| < capacity {
            PostInv(r.value.s, p, striping, r.value.posted, faults, e.w);
          }
        } else {
          StepInv(r.value.s, p, striping, capacity, r.value.posted, faults, e);
        }
      }
    }
  }

  /**
   * In-order, exactly-once, intact delivery, with or without fragment striping. After any run the
   * `c`-th completion is the peer's `c`-th message in the `c`-th posted receive: successful with exactly
   * that message's bytes at the front of the buffer and the rest of the buffer untouched, or failed
   * because the message does not fit, the buffer then being full of its first bytes, or because a copy into that receive failed.
   */
  lemma DeliveredOnceInOrderIntact(p: Peer, striping: bool, capacity: nat, events: seq<Event>)
    requires p.Valid() && RunOf(p, striping, capacity, events).Some?
    ensures var r := RunOf(p, striping, capacity, events).value;
            && |r.s.cq| <= |p.msgs| && |r.s.cq| <= |r.posted|
            && forall c | 0 <= c < |r.s.cq| ::
                 var wc, m, w := r.s.cq[c], p.msgs[c], r.posted[c];
                 && wc.wqe.id == w.id && wc.srcQp == m.srcQp && wc.imm == m.imm
                 && (wc.status == Success ==>
                       |m.data| <= |w.region| && wc.byteLen == |m.data| && wc.wqe.region == m.data + w.region[|m.data|..])
                 && (wc.status == LenErr ==> |m.data| > |w.region| && wc.byteLen == |w.region| && wc.wqe.region == m.data[..|w.region|])
                 && (wc.status == ProtErr ==> Faulted(w.id, r.faults))
  {
    RunInv(p, striping, capacity, events);
    var r := RunOf(p, striping, capacity, events).value;
    forall c | 0 <= c < |r.s.cq| ensures Completes(r.s.cq[c], p.msgs[c], r.posted[c], r.faults) {
    }
  }
}
