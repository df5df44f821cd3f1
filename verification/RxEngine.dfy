/**
 * The native receive engine with the driver's own data structures (kernel/ibdev.c): the receive-WQE
 * ring, the ACK-history array, the counted reorder list and the partially received message. Every
 * operation is proved to compute the function of the same role in `RxSpec`.
 */
module RxEngine {
  import opened Basics
  import opened Fragment
  import opened NativeData
  import opened RxSpec
  import Psn

  lemma WrapNext(i: nat, n: nat)
    requires i < n
    ensures (i + 1) % n == if i + 1 == n then 0 else i + 1
  {
  }

  /** The ring of posted receives. */
  class RecvQueue {
    const slots: array<Wqe>
    var head: nat
    var tail: nat
    var count: nat

    ghost predicate Valid()
      reads this, slots
    {
      && count <= slots.Length
      && if slots.Length == 0 then head == 0 && tail == 0
         else head < slots.Length && tail == (if head + count < slots.Length then head + count else head + count - slots.Length)
    }

    /** The posted receives, oldest first. */
    ghost function Contents(): seq<Wqe>
      reads this, slots
      requires Valid()
    {
      if head + count <= slots.Length then slots[head..head + count]
      else slots[head..] + slots[..head + count - slots.Length]
    }

    constructor (size: nat)
      ensures Valid() && Contents() == [] && fresh(slots) && slots.Length == size
    {
      slots := new Wqe[size](_ => Wqe(0, []));
      head, tail, count := 0, 0, 0;
    }

    method Post(w: Wqe) returns (ok: bool)
      requires Valid()
      modifies this, slots
      ensures Valid()
      ensures ok == (|old(Contents())| < slots.Length)
      ensures Contents() == if ok then old(Contents()) + [w] else old(Contents())
    {
      if count == slots.Length { return false; }
      ghost var before := Contents();
      WrapNext(tail, slots.Length);
      slots[tail] := w;
      tail := (tail + 1) % slots.Length;
      count := count + 1;
      ok := true;
      assert Contents() == before + [w];
    }

    method Pop() returns (w: Option<Wqe>)
      requires Valid()
      modifies this, slots
      ensures Valid()
      ensures w == if old(Contents()) == [] then None else Some(old(Contents())[0])
      ensures Contents() == if w.None? then [] else old(Contents())[1..]
    {
      if count == 0 { return None; }
      ghost var before := Contents();
      WrapNext(head, slots.Length);
      w := Some(slots[head]);
      slots[head] := Wqe(0, []);
      head := (head + 1) % slots.Length;
      count := count - 1;
      assert Contents() == before[1..];
    }
  }

  datatype HistSlot = HistSlot(psn: nat, status: AckStatus, valid: bool)

  /** The statuses of recently consumed PSNs, one slot per PSN modulo the size. */
  class AckHistory {
    const slots: array<HistSlot>

    ghost predicate Valid() { slots.Length == ACK_HISTORY_SIZE }

    ghost function View(): map<nat, HistEntry>
      reads slots
    {
      map i: nat | i < slots.Length && slots[i].valid :: HistEntry(slots[i].psn, slots[i].status)
    }

    constructor ()
      ensures Valid() && View() == map[] && fresh(slots)
    {
      slots := new HistSlot[ACK_HISTORY_SIZE](_ => HistSlot(0, AckOk, false));
    }

    method Store(psn: nat, status: AckStatus)
      requires Valid()
      modifies slots
      ensures View() == HistStore(old(View()), psn, status)
    {
      slots[psn % ACK_HISTORY_SIZE] := HistSlot(psn % Psn.MODULUS, status, true);
    }

    method Lookup(psn: nat) returns (r: Option<AckStatus>)
      requires Valid()
      ensures r == HistLookup(View(), psn)
    {
      var entry := slots[psn % ACK_HISTORY_SIZE];
      if !entry.valid || entry.psn != psn % Psn.MODULUS { return None; }
      r := Some(entry.status);
    }
  }

  /** struct tbv_rx_message. */
  datatype RxMessage = RxMessage(
    active: bool, wqe: Wqe, srcQp: nat, psn: nat, totalLen: nat, withImm: bool, immData: nat,
    received: nat, delivered: nat, fragCount: nat, fragsReceived: nat, fragSeen: set<nat>, status: WcStatus)

  const NO_MESSAGE := RxMessage(false, Wqe(0, []), 0, 0, 0, false, 0, 0, 0, 0, 0, {}, Success)

  /** struct tbv_rx_reorder_msg of kind SEND. */
  datatype ReorderMsg = ReorderMsg(
    srcQp: nat, psn: nat, totalLen: nat, withImm: bool, immData: nat, received: nat, bufferedBytes: nat,
    fragCount: nat, fragsReceived: nat, fragSeen: set<nat>, complete: bool, frags: seq<Frag>)

  /** The rx_rnr_* fields. */
  datatype RnrMark = RnrMark(active: bool, srcQp: nat, psn: nat, remoteAddr: nat, fragOffset: nat)

  function ImmView(withImm: bool, immData: nat): Option<nat> { if withImm then Some(immData) else None }

  function MsgView(m: ReorderMsg): Buffered {
    Buffered(m.srcQp, m.psn, m.totalLen, ImmView(m.withImm, m.immData), m.fragSeen, m.frags)
  }

  function ListView(list: seq<ReorderMsg>): (r: seq<Buffered>)
    ensures |r| == |list| && forall t | 0 <= t < |r| :: r[t] == MsgView(list[t])
  {
    seq(|list|, t requires 0 <= t < |list| => MsgView(list[t]))
  }

  function ActiveView(m: RxMessage): Option<Active> {
    if !m.active then None
    else Some(Active(m.wqe, m.srcQp, m.psn, m.totalLen, ImmView(m.withImm, m.immData),
                     m.received, m.delivered, m.fragSeen, m.status))
  }

  function RnrView(r: RnrMark): Option<Rnr> {
    if r.active then Some(Rnr(r.srcQp, r.psn, r.remoteAddr, r.fragOffset)) else None
  }

  /** The counters of a buffered message agree with its bitmap and its fragments; complete means every bit is set. */
  ghost predicate MsgOk(m: ReorderMsg) {
    && m.bufferedBytes == m.received == FragBytes(m.frags)
    && m.fragCount == Count(m.totalLen, MAX_PAYLOAD)
    && m.fragSeen <= Range(m.fragCount)
    && m.fragsReceived == |m.fragSeen|
    && (m.complete <==> m.fragSeen == Range(m.fragCount))
    && (!m.withImm ==> m.immData == 0)
  }

  lemma CompleteMeansAll(seen: set<nat>, count: nat)
    requires seen <= Range(count)
    ensures |seen| == count <==> seen == Range(count)
  {
    SubsetOfRange(seen, count);
  }

  ghost predicate MessageOk(m: RxMessage, striping: bool) {
    m.active ==>
      && (!m.withImm ==> m.immData == 0)
      && (striping ==> m.fragCount == Count(m.totalLen, MAX_PAYLOAD) && m.fragsReceived == |m.fragSeen|)
      && (!striping ==> m.fragSeen == {})
  }

  ghost predicate Distinct(list: seq<ReorderMsg>) {
    forall t, u | 0 <= t < u < |list| :: list[t].psn != list[u].psn
  }

  /** Reorder-buffer accounting: the counter is the length, the byte count is the sum, both within their limits. */
  ghost predicate ListOk(list: seq<ReorderMsg>, count: nat, bytes: nat) {
    && count == |list| <= REORDER_MAX_MESSAGES
    && bytes == TotalBytes(ListView(list)) <= REORDER_MAX_BYTES
    && Distinct(list)
    && forall t | 0 <= t < |list| :: MsgOk(list[t])
  }

  lemma {:induction false} BytesRemove(list: seq<Buffered>, k: nat)
    requires k < |list|
    ensures TotalBytes(Remove(list, k)) == TotalBytes(list) - FragBytes(list[k].frags)
    decreases |list|
  {
    var n := |list| - 1;
    if k < n {
      BytesRemove(list[..n], k);
      assert Remove(list, k)[..n - 1] == Remove(list[..n], k);
    } else {
      assert Remove(list, k) == list[..n];
    }
  }

  lemma {:induction false} BytesReplace(list: seq<Buffered>, k: nat, m: Buffered)
    requires k < |list|
    ensures TotalBytes(list[k := m]) == TotalBytes(list) - FragBytes(list[k].frags) + FragBytes(m.frags)
    decreases |list|
  {
    var n := |list| - 1;
    if k < n {
      BytesReplace(list[..n], k, m);
      assert list[k := m][..n] == list[..n][k := m];
    } else {
      assert list[k := m][..n] == list[..n];
    }
  }

  lemma ListViewRemove(list: seq<ReorderMsg>, k: nat)
    requires k < |list|
    ensures ListView(list[..k] + list[k + 1..]) == Remove(ListView(list), k)
  {
  }

  lemma RemoveKeeps(list: seq<ReorderMsg>, k: nat, ok: ReorderMsg -> bool)
    requires k < |list| && Distinct(list)
    requires forall t | 0 <= t < |list| :: ok(list[t])
    ensures var r := list[..k] + list[k + 1..];
            Distinct(r) && forall t | 0 <= t < |r| :: ok(r[t])
  {
    var r := list[..k] + list[k + 1..];
    assert forall t | 0 <= t < |r| :: r[t] == list[if t < k then t else t + 1];
  }

  /** Unlinking entry `k` keeps the accounting; in particular the byte count covers the entry, so the saturating branch is dead. */
  lemma UnlinkOk(list: seq<ReorderMsg>, k: nat, count: nat, bytes: nat)
    requires ListOk(list, count, bytes) && k < |list|
    ensures bytes >= list[k].bufferedBytes
    ensures ListOk(list[..k] + list[k + 1..], count - 1, bytes - list[k].bufferedBytes)
  {
    BytesRemove(ListView(list), k);
    ListViewRemove(list, k);
    assert MsgOk(list[k]);
    RemoveKeeps(list, k, m => MsgOk(m));
  }

  lemma AppendOk(list: seq<ReorderMsg>, m: ReorderMsg, count: nat, bytes: nat)
    requires ListOk(list, count, bytes) && count < REORDER_MAX_MESSAGES
    requires MsgOk(m) && m.frags == [] && forall t | 0 <= t < |list| :: list[t].psn != m.psn
    ensures ListOk(list + [m], count + 1, bytes)
    ensures ListView(list + [m]) == ListView(list) + [MsgView(m)]
  {
    var view := ListView(list + [m]);
    assert view == ListView(list) + [MsgView(m)];
    assert view[..|list|] == ListView(list);
  }

  lemma UpdateKeeps(list: seq<ReorderMsg>, k: nat, m: ReorderMsg, list': seq<ReorderMsg>, ok: ReorderMsg -> bool)
    requires k < |list| && list' == list[k := m] && Distinct(list) && ok(m) && m.psn == list[k].psn
    requires forall t | 0 <= t < |list| :: ok(list[t])
    ensures Distinct(list') && forall t | 0 <= t < |list'| :: ok(list'[t])
  {
  }

  lemma ReplaceOk(list: seq<ReorderMsg>, k: nat, m: ReorderMsg, count: nat, bytes: nat, bytes': nat)
    requires ListOk(list, count, bytes) && k < |list|
    requires MsgOk(m) && m.psn == list[k].psn && bytes' == bytes + m.bufferedBytes - list[k].bufferedBytes
    requires bytes' <= REORDER_MAX_BYTES
    ensures ListOk(list[k := m], count, bytes')
    ensures ListView(list[k := m]) == ListView(list)[k := MsgView(m)]
  {
    assert MsgOk(list[k]) && FragBytes(m.frags) == m.bufferedBytes;
    BytesReplace(ListView(list), k, MsgView(m));
    hide MsgOk, TotalBytes, FragBytes;
    UpdateKeeps(list, k, m, list[k := m], x => MsgOk(x));
    assert ListView(list[k := m]) == ListView(list)[k := MsgView(m)];
  }

  /** tbv_rx_copy_to_wqe. */
  method CopyTo(w: Wqe, offset: nat, data: seq<Byte>, faults: set<(nat, nat)>) returns (c: Copied)
    ensures c == CopyToWqe(w, offset, data, faults)
  {
    var n := 0;
    if offset < |w.region| { n := Min(|data|, |w.region| - offset); }
    if n == 0 { return Copied(w, 0, false); }
    if (w.id, offset) in faults { return Copied(w, 0, true); }
    c := Copied(w.(region := Write(w.region, offset, data[..n])), n, false);
  }

  lemma {:induction false} CopyStops(w: Wqe, frags: seq<Frag>, i: nat, faults: set<(nat, nat)>)
    requires i <= |frags| && CopyFrags(w, frags[..i], faults).failed
    ensures CopyFrags(w, frags, faults) == CopyFrags(w, frags[..i], faults)
    decreases |frags|
  {
    if i < |frags| {
      var init := frags[..|frags| - 1];
      assert init[..i] == frags[..i];
      CopyStops(w, init, i, faults);
    } else {
      assert frags[..i] == frags;
    }
  }

  /** The copy loop of tbv_rx_deliver_reorder_msg_locked. */
  method CopyAll(w: Wqe, frags: seq<Frag>, faults: set<(nat, nat)>) returns (c: Copied)
    ensures c == CopyFrags(w, frags, faults)
  {
    c := Copied(w, 0, false);
    for i := 0 to |frags|
      invariant !c.failed && c == CopyFrags(w, frags[..i], faults)
    {
      assert frags[..i + 1][..i] == frags[..i];
      var one := CopyTo(c.wqe, frags[i].offset, frags[i].data, faults);
      c := Copied(one.wqe, c.delivered + one.delivered, one.failed);
      if c.failed {
        CopyStops(w, frags, i + 1, faults);
        return;
      }
    }
    assert frags[..|frags|] == frags;
  }

  /** tbv_rx_reorder_fragment_matches_locked. */
  method Matches(frags: seq<Frag>, offset: nat, payload: seq<Byte>) returns (ok: bool)
    ensures ok <==> |payload| == 0 || FragMatches(frags, offset, payload)
  {
    if |payload| == 0 { return true; }
    var i := 0;
    while i < |frags|
      invariant i <= |frags|
      invariant FragMatches(frags, offset, payload) == FragMatches(frags[i..], offset, payload)
    {
      if frags[i].offset == offset { return frags[i].data == payload; }
      assert frags[i..][1..] == frags[i + 1..];
      i := i + 1;
    }
    ok := false;
  }

  lemma ShapeFacts(h: DataHeader, shape: Shape)
    requires h.imm <= MAX_MSG_SIZE && ShapeOf(h) == Some(shape)
    ensures shape.idx < shape.count == Count(h.imm, MAX_PAYLOAD)
  {
    ShapeAcceptsExactlyPieces(h.imm, MAX_PAYLOAD, MAX_FRAGS, h.fragOffset, h.length, h.Last(), shape.idx, shape.count);
  }

  /** Accepting a fragment replaces the active message, whatever it was. */
  lemma AcceptReplacesActive(s: Rx, a: Active, h: DataHeader, shape: Shape, offset: nat, payload: seq<Byte>, last: bool, faults: set<(nat, nat)>)
    ensures AcceptStriped(s.(active := Some(a)), a, h, shape, payload, faults) == AcceptStriped(s, a, h, shape, payload, faults)
    ensures AcceptOrdered(s.(active := Some(a)), a, offset, payload, last, faults) == AcceptOrdered(s, a, offset, payload, last, faults)
  {
    var a' := if shape.idx in a.seen then a
              else Absorb(a, h.fragOffset, payload, faults).(seen := a.seen + {shape.idx});
    assert s.(active := Some(a)).(active := Some(a')) == s.(active := Some(a'));
    var b := Absorb(a, offset, payload, faults);
    assert s.(active := Some(a)).(active := Some(b)) == s.(active := Some(b));
  }

  /** In striped mode an active message counts fragments by its own length. */
  lemma ActiveCounts(m: RxMessage)
    requires m.active && MessageOk(m, true)
    ensures m.fragCount == Count(m.totalLen, MAX_PAYLOAD)
  {
  }

  /** A new entry, before its first fragment is stored. */
  function NewMsg(h: DataHeader, psn: nat, count: nat): ReorderMsg {
    var withImm := h.opcode == OP_SEND_IMM;
    ReorderMsg(h.srcQp, psn, h.imm, withImm, if withImm then h.rkey else 0, 0, 0, count, 0, {}, false, [])
  }

  lemma NewMsgOk(h: DataHeader, psn: nat, count: nat)
    requires count == Count(h.imm, MAX_PAYLOAD)
    ensures MsgOk(NewMsg(h, psn, count))
    ensures MsgView(NewMsg(h, psn, count)) == Buffered(h.srcQp, psn, h.imm, ImmOf(h), {}, [])
  {
    CeilingBounds(h.imm, MAX_PAYLOAD);
    assert 0 in Range(count);
  }

  lemma CountIsLength(list: seq<ReorderMsg>, count: nat, bytes: nat)
    requires ListOk(list, count, bytes)
    ensures count == |list| && bytes == TotalBytes(ListView(list))
  {
  }

  lemma EntriesOk(list: seq<ReorderMsg>, count: nat, bytes: nat, k: nat)
    requires ListOk(list, count, bytes) && k < |list|
    ensures MsgOk(list[k])
  {
  }

  /** Storing a new fragment keeps the entry's counters right. */
  lemma StoredMsgOk(m: ReorderMsg, offset: nat, payload: seq<Byte>, idx: nat, m': ReorderMsg)
    requires MsgOk(m) && idx < m.fragCount && idx !in m.fragSeen
    requires m' == m.(frags := if |payload| > 0 then m.frags + [Frag(offset, payload)] else m.frags,
                      bufferedBytes := m.bufferedBytes + |payload|, fragSeen := m.fragSeen + {idx},
                      fragsReceived := m.fragsReceived + 1, received := m.received + |payload|,
                      complete := m.fragsReceived + 1 == m.fragCount)
    ensures MsgOk(m') && (m'.complete <==> |m'.fragSeen| == Count(m.totalLen, MAX_PAYLOAD))
  {
    CompleteMeansAll(m'.fragSeen, m'.fragCount);
    if |payload| > 0 { assert m'.frags[..|m.frags|] == m.frags; }
  }

  /** One step of walking a list while dropping entries from it. */
  lemma Split(kept: seq<ReorderMsg>, rest: seq<ReorderMsg>, view: seq<Buffered>, t: nat)
    requires rest != [] && t < |view| && view[t..] == ListView(rest)
    ensures view[t] == MsgView(rest[0]) && view[..t + 1][..t] == view[..t] && view[t + 1..] == ListView(rest[1..])
    ensures kept + rest == kept + [rest[0]] + rest[1..]
    ensures (kept + rest)[..|kept|] + (kept + rest)[|kept| + 1..] == kept + rest[1..]
    ensures ListView(kept + [rest[0]]) == ListView(kept) + [MsgView(rest[0])]
  {
    assert view[t] == view[t..][0];
    assert view[t + 1..] == view[t..][1..];
  }

  lemma WalkStep(view: seq<Buffered>, t: nat, expected: nat, h: map<nat, HistEntry>)
    requires t < |view|
    ensures var stale := Psn.Delta(view[t].psn, expected) < 0;
            && Kept(view[..t + 1], expected) == Kept(view[..t], expected) + (if stale then [] else [view[t]])
            && StaleAcks(view[..t + 1], expected, h)
               == StaleAcks(view[..t], expected, h)
                  + (if stale then [Ack(view[t].srcQp, view[t].psn, DuplicateStatus(h, view[t].psn))] else [])
  {
    assert view[..t + 1][..t] == view[..t];
  }

  lemma DeliverShrinks(s: Rx, k: nat, faults: set<(nat, nat)>)
    requires k < |s.reorder|
    ensures s.recvs != [] ==> |Deliver(s, k, faults).reorder| == |s.reorder| - 1
  {
  }

  /** The receive side of a native queue pair. */
  class NativeQp {
    const striping: bool
    const recvq: RecvQueue
    const ackHistory: AckHistory
    var rxExpectedPsn: nat
    var rxMsg: RxMessage
    var rxReorder: seq<ReorderMsg>
    var rxReorderCount: nat
    var rxReorderBytes: nat
    var rnr: RnrMark
    /** Completions pushed and ACKs sent, oldest first. */
    var cq: seq<Wc>
    var acks: seq<Ack>

    ghost predicate Valid()
      reads this, recvq, recvq.slots
    {
      && recvq.Valid() && ackHistory.Valid()
      && ListOk(rxReorder, rxReorderCount, rxReorderBytes)
      && MessageOk(rxMsg, striping)
    }

    ghost function View(): Rx
      reads this, recvq, recvq.slots, ackHistory.slots
      requires recvq.Valid()
    {
      Rx(rxExpectedPsn, ActiveView(rxMsg), ListView(rxReorder), recvq.Contents(), RnrView(rnr),
         ackHistory.View(), cq, acks)
    }

    constructor (striping: bool, recvqSize: nat, expectedPsn: nat)
      ensures Valid() && View() == Fresh(expectedPsn) && this.striping == striping
      ensures fresh(recvq) && fresh(recvq.slots) && fresh(ackHistory.slots) && recvq.slots.Length == recvqSize
    {
      this.striping := striping;
      recvq := new RecvQueue(recvqSize);
      ackHistory := new AckHistory();
      rxExpectedPsn := expectedPsn;
      rxMsg := NO_MESSAGE;
      rxReorder, rxReorderCount, rxReorderBytes := [], 0, 0;
      rnr := RnrMark(false, 0, 0, 0, 0);
      cq, acks := [], [];
    }

    method PostRecv(w: Wqe) returns (ok: bool)
      requires Valid()
      modifies recvq, recvq.slots
      ensures Valid() && View() == Post(old(View()), recvq.slots.Length, w)
      ensures ok == (|old(View()).recvs| < recvq.slots.Length)
    {
      ok := recvq.Post(w);
    }

    method SendAck(peerQp: nat, psn: nat, status: AckStatus)
      modifies this`acks
      ensures acks == old(acks) + [Ack(peerQp, psn, status)]
    {
      acks := acks + [Ack(peerQp, psn, status)];
    }

    method ReackDuplicate(peerQp: nat, psn: nat)
      requires ackHistory.Valid()
      modifies this`acks
      ensures acks == old(acks) + [Ack(peerQp, psn, DuplicateStatus(ackHistory.View(), psn))]
    {
      var known := ackHistory.Lookup(psn);
      match known {
        case Some(status) => SendAck(peerQp, psn, status);
        case None => SendAck(peerQp, psn, AckOk);
      }
    }

    method FindMsg(psn: nat) returns (k: Option<nat>)
      ensures k == Find(ListView(rxReorder), psn)
    {
      for i := 0 to |rxReorder|
        invariant forall j | 0 <= j < i :: rxReorder[j].psn != psn
      {
        if rxReorder[i].psn == psn { return Some(i); }
      }
      k := None;
    }

    /** tbv_rx_reorder_unlink_msg_locked, with its saturating byte count. */
    method Unlink(k: nat)
      requires k < |rxReorder| && rxReorderCount > 0
      modifies this`rxReorder, this`rxReorderCount, this`rxReorderBytes
      ensures rxReorder == old(rxReorder)[..k] + old(rxReorder)[k + 1..]
      ensures rxReorderCount == old(rxReorderCount) - 1
      ensures rxReorderBytes == if old(rxReorderBytes) >= old(rxReorder)[k].bufferedBytes
                                then old(rxReorderBytes) - old(rxReorder)[k].bufferedBytes else 0
    {
      var m := rxReorder[k];
      rxReorder := rxReorder[..k] + rxReorder[k + 1..];
      rxReorderCount := rxReorderCount - 1;
      if rxReorderBytes >= m.bufferedBytes {
        rxReorderBytes := rxReorderBytes - m.bufferedBytes;
      } else {
        rxReorderBytes := 0;
      }
    }

    /** Drop entry `k` from a well-accounted list. */
    method DropMsg(k: nat)
      requires ListOk(rxReorder, rxReorderCount, rxReorderBytes) && k < |rxReorder|
      modifies this`rxReorder, this`rxReorderCount, this`rxReorderBytes
      ensures ListOk(rxReorder, rxReorderCount, rxReorderBytes)
      ensures rxReorder == old(rxReorder)[..k] + old(rxReorder)[k + 1..]
      ensures ListView(rxReorder) == Remove(old(ListView(rxReorder)), k)
    {
      UnlinkOk(rxReorder, k, rxReorderCount, rxReorderBytes);
      ListViewRemove(rxReorder, k);
      Unlink(k);
    }

    method PruneStale()
      requires ackHistory.Valid() && ListOk(rxReorder, rxReorderCount, rxReorderBytes)
      modifies this`rxReorder, this`rxReorderCount, this`rxReorderBytes, this`acks
      ensures ListOk(rxReorder, rxReorderCount, rxReorderBytes)
      ensures ListView(rxReorder) == Kept(old(ListView(rxReorder)), rxExpectedPsn)
      ensures acks == old(acks) + StaleAcks(old(ListView(rxReorder)), rxExpectedPsn, ackHistory.View())
    {
      hide ListOk, MessageOk, CopyFrags, RecvQueue.Contents, AckHistory.View, FragBytes, TotalBytes, MsgOk, HistLookup, Remove, Psn.Delta, DuplicateStatus;
      ghost var view := ListView(rxReorder);
      assert view[..0] == [] && Kept([], rxExpectedPsn) == [] && StaleAcks([], rxExpectedPsn, ackHistory.View()) == [];
      hide Kept, StaleAcks;
      ghost var kept: seq<ReorderMsg>, rest := [], rxReorder;
      ghost var t := 0;
      var i := 0;
      while i < |rxReorder|
        invariant rxReorder == kept + rest && i == |kept|
        invariant t <= |view| && view[t..] == ListView(rest)
        invariant ListOk(rxReorder, rxReorderCount, rxReorderBytes)
        invariant ListView(kept) == Kept(view[..t], rxExpectedPsn)
        invariant acks == old(acks) + StaleAcks(view[..t], rxExpectedPsn, ackHistory.View())
        decreases |rest|
      {
        var m := rxReorder[i];
        assert m == rest[0];
        Split(kept, rest, view, t);
        WalkStep(view, t, rxExpectedPsn, ackHistory.View());
        if Psn.Delta(m.psn, rxExpectedPsn) >= 0 {
          i := i + 1;
          kept := kept + [m];
        } else {
          ReackDuplicate(m.srcQp, m.psn);
          DropMsg(i);
        }
        t, rest := t + 1, rest[1..];
      }
      assert rest == [] && view[..t] == view && kept == rxReorder;
    }

    /** Completion, next PSN, history and ACK of a consumed message. */
    method PushCompletion(wc: Wc, psn: nat)
      requires ackHistory.Valid()
      modifies this`cq, this`acks, this`rxExpectedPsn, ackHistory.slots
      ensures cq == old(cq) + [wc] && rxExpectedPsn == Psn.Next(psn)
      ensures ackHistory.View() == HistStore(old(ackHistory.View()), psn, AckFor(wc.status))
      ensures acks == old(acks) + [Ack(wc.srcQp, psn, AckFor(wc.status))]
    {
      var ackStatus := AckOk;
      cq := cq + [wc];
      if wc.status != Success { ackStatus := AckError; }
      rxExpectedPsn := Psn.Next(psn);
      ackHistory.Store(psn, ackStatus);
      SendAck(wc.srcQp, psn, ackStatus);
    }

    /** tbv_rx_deliver_reorder_msg_locked: false when no receive is posted. */
    method DeliverReorderMsg(k: nat, faults: set<(nat, nat)>) returns (ok: bool)
      requires Valid() && k < |rxReorder|
      modifies this, recvq, recvq.slots, ackHistory.slots
      ensures Valid() && ok == (old(View()).recvs != [])
      ensures View() == if ok then Deliver(old(View()), k, faults)
                        else RxSpec.SendAck(old(View()), old(rxReorder[k]).srcQp, old(rxReorder[k]).psn, AckRnr)
      ensures rxMsg == old(rxMsg)
    {
      hide ListOk, MessageOk, CopyFrags, RecvQueue.Contents, AckHistory.View, HistStore, FragBytes, TotalBytes, MsgOk, Remove, ListView;
      var m := rxReorder[k];
      var popped := recvq.Pop();
      match popped {
        case None =>
          SendAck(m.srcQp, m.psn, AckRnr);
          return false;
        case Some(w) =>
          DropMsg(k);
          var status := if m.totalLen > |w.region| then LenErr else Success;
          var c := CopyAll(w, m.frags, faults);
          if c.failed { status := ProtErr; }
          PushCompletion(Wc(c.wqe, status, c.delivered, m.srcQp, ImmView(m.withImm, m.immData)), m.psn);
          ok := true;
      }
    }

    /** tbv_rx_drain_reorder_locked. */
    method DrainReorder(faults: set<(nat, nat)>)
      requires Valid()
      modifies this, recvq, recvq.slots, ackHistory.slots
      ensures Valid() && View() == Drain(old(View()), faults)
    {
      hide MessageOk, RecvQueue.Contents, AckHistory.View, FragBytes, TotalBytes, Kept, StaleAcks, CopyFrags, HistStore, Find, Deliver, Distinct;
      while !rxMsg.active
        invariant Valid() && Drain(View(), faults) == Drain(old(View()), faults)
        decreases |rxReorder|
      {
        ghost var before := View();
        KeptNoLonger(before.reorder, rxExpectedPsn);
        PruneStale();
        assert View() == Prune(before) && |rxReorder| <= |before.reorder|;
        var found := FindMsg(rxExpectedPsn);
        if found.None? { return; }
        var m := rxReorder[found.value];
        assert MsgOk(m);
        CompleteMeansAll(m.fragSeen, m.fragCount);
        if !m.complete { return; }
        DeliverShrinks(View(), found.value, faults);
        var ok := DeliverReorderMsg(found.value, faults);
        if !ok { return; }
        assert |rxReorder| == |View().reorder|;
      }
    }

    /** tbv_rx_finish_send. */
    method FinishActive()
      requires Valid() && rxMsg.active
      modifies this`rxMsg, this`cq, this`acks, this`rxExpectedPsn, ackHistory.slots
      ensures Valid() && View() == FinishSend(old(View())) && !rxMsg.active
    {
      var m := rxMsg;
      rxMsg := NO_MESSAGE;
      PushCompletion(Wc(m.wqe, m.status, m.delivered, m.srcQp, ImmView(m.withImm, m.immData)), m.psn);
    }

    method ErrorAckTo(h: DataHeader, psn: nat)
      modifies this`acks
      ensures acks == old(acks) + [Ack(h.srcQp, psn, AckError)]
    {
      SendAck(h.srcQp, psn, AckError);
    }

    /** tbv_rx_buffer_fragment_locked. */
    method BufferFragmentLocked(h: DataHeader, psn: nat, payload: seq<Byte>, env: Env)
      requires Valid() && h.imm <= MAX_MSG_SIZE && |payload| == h.length
      modifies this, recvq, recvq.slots, ackHistory.slots
      ensures Valid() && View() == BufferFragment(old(View()), h, psn, payload, env)
    {
      hide ListOk, MessageOk, RecvQueue.Contents, AckHistory.View, FragBytes, TotalBytes, HistLookup,
           Psn.Delta, Find, Remove, FragMatches, Drain, StoreFragment, MergeFragment, FragmentShape, NewMsg, MsgOk;
      var delta := Psn.Delta(psn, rxExpectedPsn);
      if delta < 0 {
        ReackDuplicate(h.srcQp, psn);
        return;
      }
      if delta >= REORDER_MAX_MESSAGES {
        ErrorAckTo(h, psn);
        return;
      }
      var shape := ShapeOf(h);
      if shape.None? {
        ErrorAckTo(h, psn);
        return;
      }
      ShapeFacts(h, shape.value);
      var found := FindMsg(psn);
      if found.None? {
        CountIsLength(rxReorder, rxReorderCount, rxReorderBytes);
        if rxReorderCount >= REORDER_MAX_MESSAGES || !env.msgAlloc {
          ErrorAckTo(h, psn);
          return;
        }
        NewMsgOk(h, psn, shape.value.count);
        AppendMsg(NewMsg(h, psn, shape.value.count));
        StoreFragmentLocked(|rxReorder| - 1, h, psn, shape.value, payload, env);
        return;
      }
      MergeFragmentLocked(found.value, h, psn, shape.value, payload, env);
    }

    method MergeFragmentLocked(k: nat, h: DataHeader, psn: nat, shape: Shape, payload: seq<Byte>, env: Env)
      requires Valid() && k < |rxReorder| && shape.idx < shape.count == Count(h.imm, MAX_PAYLOAD)
      modifies this, recvq, recvq.slots, ackHistory.slots
      ensures Valid() && View() == MergeFragment(old(View()), k, h, psn, shape.idx, payload, env)
    {
      hide ListOk, MessageOk, RecvQueue.Contents, AckHistory.View, FragBytes, TotalBytes, HistLookup,
           Psn.Delta, Find, Remove, FragMatches, Drain, StoreFragment, FragmentShape;
      var withImm := h.opcode == OP_SEND_IMM;
      var immData := if withImm then h.rkey else 0;
      var m := rxReorder[k];
      EntriesOk(rxReorder, rxReorderCount, rxReorderBytes, k);
      if m.srcQp != h.srcQp || m.totalLen != h.imm || m.withImm != withImm || m.immData != immData
         || m.fragCount != shape.count {
        DropMsg(k);
        ErrorAckTo(h, psn);
        return;
      }
      if shape.idx in m.fragSeen {
        var same := Matches(m.frags, h.fragOffset, payload);
        if !same {
          DropMsg(k);
          ErrorAckTo(h, psn);
          return;
        }
        CompleteMeansAll(m.fragSeen, m.fragCount);
        if m.complete { DrainReorder(env.faults); }
        return;
      }
      StoreFragmentLocked(k, h, psn, shape, payload, env);
    }

    /** Append a freshly allocated entry for a PSN that has none. */
    method AppendMsg(m: ReorderMsg)
      requires ListOk(rxReorder, rxReorderCount, rxReorderBytes) && rxReorderCount < REORDER_MAX_MESSAGES
      requires MsgOk(m) && m.frags == [] && Find(ListView(rxReorder), m.psn).None?
      modifies this`rxReorder, this`rxReorderCount
      ensures ListOk(rxReorder, rxReorderCount, rxReorderBytes)
      ensures rxReorder == old(rxReorder) + [m]
      ensures ListView(rxReorder) == old(ListView(rxReorder)) + [MsgView(m)]
    {
      AppendOk(rxReorder, m, rxReorderCount, rxReorderBytes);
      rxReorder := rxReorder + [m];
      rxReorderCount := rxReorderCount + 1;
    }

    /** tbv_rx_reorder_store_fragment_locked and what follows it: bitmap, counters, completeness. */
    method StoreFragmentLocked(k: nat, h: DataHeader, psn: nat, shape: Shape, payload: seq<Byte>, env: Env)
      requires Valid() && k < |rxReorder|
      requires shape.idx < shape.count == rxReorder[k].fragCount && shape.idx !in rxReorder[k].fragSeen
      modifies this, recvq, recvq.slots, ackHistory.slots
      ensures Valid() && View() == StoreFragment(old(View()), k, h, psn, shape.idx, payload, env)
    {
      hide MessageOk, RecvQueue.Contents, AckHistory.View, FragBytes, TotalBytes, Remove, Drain, Distinct;
      var m := rxReorder[k];
      EntriesOk(rxReorder, rxReorderCount, rxReorderBytes, k);
      var frags := m.frags;
      var bytes := rxReorderBytes;
      if |payload| > 0 {
        if rxReorderBytes + |payload| > REORDER_MAX_BYTES || !env.fragAlloc {
          DropMsg(k);
          ErrorAckTo(h, psn);
          return;
        }
        frags := frags + [Frag(h.fragOffset, payload)];
        bytes := bytes + |payload|;
      }
      var seen := m.fragSeen + {shape.idx};
      var m' := m.(frags := frags, bufferedBytes := m.bufferedBytes + |payload|, fragSeen := seen,
                   fragsReceived := m.fragsReceived + 1, received := m.received + |payload|,
                   complete := m.fragsReceived + 1 == m.fragCount);
      StoredMsgOk(m, h.fragOffset, payload, shape.idx, m');
      ReplaceOk(rxReorder, k, m', rxReorderCount, rxReorderBytes, bytes);
      rxReorderBytes := bytes;
      rxReorder := rxReorder[k := m'];
      if m'.complete { DrainReorder(env.faults); }
    }

    /** tbv_rx_mark_rnr_locked and its ACK. */
    method MarkNotReady(h: DataHeader, psn: nat)
      modifies this`rnr, this`acks
      ensures rnr == RnrMark(true, h.srcQp, psn, h.remoteAddr, h.fragOffset)
      ensures acks == old(acks) + [Ack(h.srcQp, psn, AckRnr)]
    {
      rnr := RnrMark(true, h.srcQp, psn, h.remoteAddr, h.fragOffset);
      SendAck(h.srcQp, psn, AckRnr);
    }

    /** Take a posted receive for the message of `h`; false, with nothing but an RNR report, when there is none. */
    method StartMessage(h: DataHeader, psn: nat, fragCount: nat) returns (ok: bool)
      requires Valid() && !rxMsg.active && (striping ==> fragCount == Count(h.imm, MAX_PAYLOAD))
      modifies this`rxMsg, this`rnr, this`acks, recvq, recvq.slots
      ensures Valid() && ok == (old(View()).recvs != [])
      ensures ok ==> rxMsg.active && rxMsg.fragCount == fragCount
      ensures View() == if ok
                        then var s := old(View()); s.(recvs := s.recvs[1..], active := Some(StartActive(s.recvs[0], h, psn)))
                        else NotReady(old(View()), h, psn)
    {
      hide ListOk, RecvQueue.Contents, AckHistory.View;
      var popped := recvq.Pop();
      match popped {
        case None =>
          MarkNotReady(h, psn);
          ok := false;
        case Some(w) =>
          var withImm := h.opcode == OP_SEND_IMM;
          rxMsg := RxMessage(true, w, h.srcQp, psn, h.imm, withImm, if withImm then h.rkey else 0, 0, 0, fragCount, 0, {},
                             if h.imm > |w.region| then LenErr else Success);
          ok := true;
      }
    }

    /** Copy a fragment into the active message's buffer and count its bytes. */
    method AbsorbInto(offset: nat, data: seq<Byte>, faults: set<(nat, nat)>)
      requires rxMsg.active
      modifies this`rxMsg
      ensures rxMsg.active && ActiveView(rxMsg) == Some(Absorb(old(ActiveView(rxMsg)).value, offset, data, faults))
      ensures rxMsg == old(rxMsg).(wqe := rxMsg.wqe, delivered := rxMsg.delivered, received := rxMsg.received, status := rxMsg.status)
    {
      var c := CopyTo(rxMsg.wqe, offset, data, faults);
      rxMsg := rxMsg.(wqe := c.wqe, delivered := rxMsg.delivered + c.delivered);
      if c.failed { rxMsg := rxMsg.(status := ProtErr); }
      rxMsg := rxMsg.(received := rxMsg.received + |data|);
    }

    /** tbv_rx_fail_active_send with IB_WC_LOC_PROT_ERR, then an error ACK for the fragment that does not belong. */
    method FailMismatch(h: DataHeader, psn: nat)
      requires Valid() && rxMsg.active
      modifies this`rxMsg, this`cq, this`acks, this`rxExpectedPsn, ackHistory.slots
      ensures Valid() && View() == ErrorAck(FailActive(old(View())), h, psn)
    {
      hide ListOk, RecvQueue.Contents, AckHistory.View;
      rxMsg := rxMsg.(status := ProtErr);
      FinishActive();
      ErrorAckTo(h, psn);
    }

    method HandleStripedLocked(h: DataHeader, psn: nat, payload: seq<Byte>, env: Env)
      requires Valid() && striping && h.imm <= MAX_MSG_SIZE && |payload| == h.length
      modifies this, recvq, recvq.slots, ackHistory.slots
      ensures Valid() && View() == HandleStriped(old(View()), h, psn, payload, env)
    {
      hide ListOk, MessageOk, RecvQueue.Contents, AckHistory.View, HistLookup,
           Psn.Delta, Find, Drain, FragmentShape, BufferFragment, AcceptStriped, StartActive;
      var shape := ShapeOf(h);
      if shape.None? {
        ErrorAckTo(h, psn);
        return;
      }
      ShapeFacts(h, shape.value);
      var delta := Psn.Delta(psn, rxExpectedPsn);
      if delta < 0 {
        ReackDuplicate(h.srcQp, psn);
        return;
      }
      var held := FindMsg(psn);
      if delta > 0 || (!rxMsg.active && held.Some?) {
        BufferFragmentLocked(h, psn, payload, env);
        return;
      }
      var ok := true;
      if rxMsg.active {
        var same := MatchesActive(h, psn);
        if !same || rxMsg.fragCount != shape.value.count {
          ActiveCounts(rxMsg);
          FailMismatch(h, psn);
          return;
        }
      } else {
        ghost var s := View();
        ok := StartMessage(h, psn, shape.value.count);
        if ok {
          AcceptReplacesActive(s.(recvs := s.recvs[1..]), StartActive(s.recvs[0], h, psn), h, shape.value,
                               h.fragOffset, payload, h.Last(), env.faults);
        }
      }
      if ok { AcceptStripedLocked(h, shape.value, payload, env.faults); }
    }

    method MatchesActive(h: DataHeader, psn: nat) returns (same: bool)
      requires rxMsg.active && MessageOk(rxMsg, striping)
      ensures same == SameMessage(ActiveView(rxMsg).value, h, psn)
    {
      var withImm := h.opcode == OP_SEND_IMM;
      same := rxMsg.srcQp == h.srcQp && rxMsg.psn == psn && rxMsg.totalLen == h.imm
              && rxMsg.withImm == withImm && rxMsg.immData == if withImm then h.rkey else 0;
    }

    method AcceptStripedLocked(h: DataHeader, shape: Shape, payload: seq<Byte>, faults: set<(nat, nat)>)
      requires Valid() && striping && rxMsg.active && rxMsg.fragCount == shape.count
      modifies this, recvq, recvq.slots, ackHistory.slots
      ensures Valid() && View() == AcceptStriped(old(View()), old(View()).active.value, h, shape, payload, faults)
    {
      hide ListOk, RecvQueue.Contents, AckHistory.View, Drain, Absorb;
      if shape.idx !in rxMsg.fragSeen {
        AbsorbInto(h.fragOffset, payload, faults);
        rxMsg := rxMsg.(fragSeen := rxMsg.fragSeen + {shape.idx}, fragsReceived := rxMsg.fragsReceived + 1);
      }
      if rxMsg.fragsReceived == rxMsg.fragCount {
        FinishActive();
        DrainReorder(faults);
      }
    }

    method AcceptOrderedLocked(offset: nat, data: seq<Byte>, last: bool, faults: set<(nat, nat)>)
      requires Valid() && !striping && rxMsg.active
      modifies this, recvq, recvq.slots, ackHistory.slots
      ensures Valid() && View() == AcceptOrdered(old(View()), old(View()).active.value, offset, data, last, faults)
    {
      hide ListOk, RecvQueue.Contents, AckHistory.View, Drain, Absorb;
      AbsorbInto(offset, data, faults);
      if last {
        FinishActive();
        DrainReorder(faults);
      }
    }

    method HandleOrderedLocked(h: DataHeader, psn: nat, payload: seq<Byte>, env: Env)
      requires Valid() && !striping && h.imm <= MAX_MSG_SIZE && |payload| == h.length
      modifies this, recvq, recvq.slots, ackHistory.slots
      ensures Valid() && View() == HandleOrdered(old(View()), h, psn, payload, env)
    {
      hide ListOk, RecvQueue.Contents, AckHistory.View, HistLookup,
           Psn.Delta, Find, Drain, BufferFragment, AcceptOrdered, StartActive, SameMessage;
      if rxMsg.active {
        var same := MatchesActive(h, psn);
        if same && rxMsg.received == h.fragOffset {
          AcceptOrderedLocked(h.fragOffset, payload, h.Last(), env.faults);
          return;
        }
        var delta := Psn.Delta(psn, rxExpectedPsn);
        if delta < 0 {
          ReackDuplicate(h.srcQp, psn);
        } else if delta > 0 {
          BufferFragmentLocked(h, psn, payload, env);
        } else if same && h.fragOffset < rxMsg.received {
          var duplicate := rxMsg.received - h.fragOffset;
          if duplicate < h.length {
            AcceptOrderedLocked(rxMsg.received, payload[duplicate..], h.Last(), env.faults);
          }
        } else if !same {
          FailMismatch(h, psn);
        }
        return;
      }
      var held := FindMsg(psn);
      if held.Some? || psn != rxExpectedPsn {
        BufferFragmentLocked(h, psn, payload, env);
        return;
      }
      if h.fragOffset != 0 {
        ErrorAckTo(h, psn);
        return;
      }
      ghost var s := View();
      var ok := StartMessage(h, psn, 0);
      if ok {
        AcceptReplacesActive(s.(recvs := s.recvs[1..]), StartActive(s.recvs[0], h, psn), h, Shape(0, 0),
                             0, payload, h.Last(), env.faults);
        AcceptOrderedLocked(0, payload, h.Last(), env.faults);
      }
    }

    /** tbv_rx_handle_send_fragment: for every frame, legitimate or not, exactly what `HandleSend` says. */
    method HandleSendFragment(h: DataHeader, payload: seq<Byte>, env: Env)
      requires Valid() && |payload| == h.length
      modifies this, recvq, recvq.slots, ackHistory.slots
      ensures Valid() && View() == HandleSend(old(View()), striping, h, payload, env)
    {
      hide ListOk, MessageOk, RecvQueue.Contents, AckHistory.View, HandleStriped, HandleOrdered;
      var psn := h.psn % Psn.MODULUS;
      if BadSendHeader(h) {
        ErrorAckTo(h, psn);
        return;
      }
      if rnr.active && rnr.srcQp == h.srcQp && rnr.psn == psn {
        if !(rnr.remoteAddr == h.remoteAddr && rnr.fragOffset == h.fragOffset) { return; }
        rnr := rnr.(active := false);
      }
      if striping {
        HandleStripedLocked(h, psn, payload, env);
      } else {
        HandleOrderedLocked(h, psn, payload, env);
      }
    }
  }
}
