/**
 * What one SEND fragment does to a native queue pair (kernel/ibdev.c), as total functions on values.
 *
 * The state keeps no counters: the number of buffered messages, the buffered bytes, the completeness
 * of a message and the receive ring are all read off the collections themselves. The class
 * `RxEngine.NativeQp` keeps the driver's counters and rings and is proved to compute these functions.
 *
 * A receive buffer travels with its work request: `Wqe.region` holds the bytes of the posted region.
 */
module RxSpec {
  import opened Basics
  import opened Fragment
  import opened NativeData
  import Psn

  const REORDER_MAX_MESSAGES: nat := 1024
  const REORDER_MAX_BYTES: nat := 64 * 1024 * 1024
  const ACK_HISTORY_SIZE: nat := 1024

  datatype Wqe = Wqe(id: nat, region: seq<Byte>)

  datatype WcStatus = Success | LenErr | ProtErr

  /** A receive completion; `wqe.region` is the receive buffer as the consumer finds it. */
  datatype Wc = Wc(wqe: Wqe, status: WcStatus, byteLen: nat, srcQp: nat, imm: Option<nat>)

  datatype AckStatus = AckOk | AckRnr | AckError

  datatype Ack = Ack(peerQp: nat, psn: nat, status: AckStatus)

  datatype HistEntry = HistEntry(psn: nat, status: AckStatus)

  /** The message being received straight into its receive buffer. */
  datatype Active = Active(
    wqe: Wqe, srcQp: nat, psn: nat, totalLen: nat, imm: Option<nat>,
    received: nat, delivered: nat, seen: set<nat>, status: WcStatus)

  datatype Frag = Frag(offset: nat, data: seq<Byte>)

  /** A message held back because an earlier one is outstanding; `frags` in arrival order. */
  datatype Buffered = Buffered(
    srcQp: nat, psn: nat, totalLen: nat, imm: Option<nat>, seen: set<nat>, frags: seq<Frag>)
  {
    predicate Complete() { |seen| == Count(totalLen, MAX_PAYLOAD) }
  }

  /** The fragment whose retransmission ends a receiver-not-ready episode. */
  datatype Rnr = Rnr(srcQp: nat, psn: nat, remoteAddr: nat, fragOffset: nat)

  datatype Rx = Rx(
    expected: nat,
    active: Option<Active>,
    reorder: seq<Buffered>,
    recvs: seq<Wqe>,
    rnr: Option<Rnr>,
    hist: map<nat, HistEntry>,
    cq: seq<Wc>,
    acks: seq<Ack>)

  /** What the kernel environment decides during one call: allocations, and `(wqe id, offset)` copies that fail. */
  datatype Env = Env(msgAlloc: bool, fragAlloc: bool, faults: set<(nat, nat)>)

  function Fresh(expected: nat): Rx { Rx(expected, None, [], [], None, map[], [], []) }

  // ----- receive buffers -----

  datatype Copied = Copied(wqe: Wqe, delivered: nat, failed: bool)

  /** tbv_rx_copy_to_wqe: bytes beyond the buffer are dropped, an empty copy touches nothing. */
  function CopyToWqe(w: Wqe, offset: nat, data: seq<Byte>, faults: set<(nat, nat)>): Copied {
    var n := if offset < |w.region| then Min(|data|, |w.region| - offset) else 0;
    if n == 0 then Copied(w, 0, false)
    else if (w.id, offset) in faults then Copied(w, 0, true)
    else Copied(w.(region := Write(w.region, offset, data[..n])), n, false)
  }

  /** The copy loop over stored fragments stops at the first failure. */
  function CopyFrags(w: Wqe, frags: seq<Frag>, faults: set<(nat, nat)>): Copied {
    if frags == [] then Copied(w, 0, false)
    else
      var r := CopyFrags(w, frags[..|frags| - 1], faults);
      if r.failed then r
      else
        var f := frags[|frags| - 1];
        var c := CopyToWqe(r.wqe, f.offset, f.data, faults);
        Copied(c.wqe, r.delivered + c.delivered, c.failed)
  }

  // ----- ACK history -----

  function HistStore(h: map<nat, HistEntry>, psn: nat, status: AckStatus): map<nat, HistEntry> {
    h[psn % ACK_HISTORY_SIZE := HistEntry(psn % Psn.MODULUS, status)]
  }

  function HistLookup(h: map<nat, HistEntry>, psn: nat): Option<AckStatus> {
    var slot := psn % ACK_HISTORY_SIZE;
    if slot in h && h[slot].psn == psn % Psn.MODULUS then Some(h[slot].status) else None
  }

  function SendAck(s: Rx, peerQp: nat, psn: nat, status: AckStatus): Rx {
    s.(acks := s.acks + [Ack(peerQp, psn, status)])
  }

  /** The recorded status of a consumed PSN, or success once the bounded history has forgotten it. */
  function DuplicateStatus(h: map<nat, HistEntry>, psn: nat): AckStatus {
    match HistLookup(h, psn)
    case Some(status) => status
    case None => AckOk
  }

  function Reack(s: Rx, peerQp: nat, psn: nat): Rx {
    SendAck(s, peerQp, psn, DuplicateStatus(s.hist, psn))
  }

  // ----- reorder list -----

  function Find(list: seq<Buffered>, psn: nat): (r: Option<nat>)
    ensures r.Some? ==> r.value < |list| && list[r.value].psn == psn
    ensures r.Some? ==> forall j | 0 <= j < r.value :: list[j].psn != psn
    ensures r.None? ==> forall j | 0 <= j < |list| :: list[j].psn != psn
  {
    if list == [] then None
    else
      var r := Find(list[..|list| - 1], psn);
      if r.Some? then r
      else if list[|list| - 1].psn == psn then Some(|list| - 1)
      else None
  }

  function Remove(list: seq<Buffered>, k: nat): seq<Buffered>
    requires k < |list|
  {
    list[..k] + list[k + 1..]
  }

  function FragBytes(frags: seq<Frag>): nat {
    if frags == [] then 0 else FragBytes(frags[..|frags| - 1]) + |frags[|frags| - 1].data|
  }

  function TotalBytes(list: seq<Buffered>): nat {
    if list == [] then 0 else TotalBytes(list[..|list| - 1]) + FragBytes(list[|list| - 1].frags)
  }

  /** The entries that are not behind the expected PSN. */
  function Kept(list: seq<Buffered>, expected: nat): seq<Buffered> {
    if list == [] then []
    else
      var m := list[|list| - 1];
      Kept(list[..|list| - 1], expected) + if Psn.Delta(m.psn, expected) >= 0 then [m] else []
  }

  function StaleAcks(list: seq<Buffered>, expected: nat, h: map<nat, HistEntry>): seq<Ack> {
    if list == [] then []
    else
      var m := list[|list| - 1];
      StaleAcks(list[..|list| - 1], expected, h)
      + if Psn.Delta(m.psn, expected) >= 0 then [] else [Ack(m.srcQp, m.psn, DuplicateStatus(h, m.psn))]
  }

  function Prune(s: Rx): Rx {
    s.(reorder := Kept(s.reorder, s.expected), acks := s.acks + StaleAcks(s.reorder, s.expected, s.hist))
  }

  lemma {:induction false} KeptNoLonger(list: seq<Buffered>, expected: nat)
    ensures |Kept(list, expected)| <= |list|
  {
    if list != [] { KeptNoLonger(list[..|list| - 1], expected); }
  }

  // ----- delivery -----

  function AckFor(status: WcStatus): AckStatus { if status == Success then AckOk else AckError }

  /** A message leaves the engine: completion, next PSN, history, ACK. */
  function Consume(s: Rx, wc: Wc, psn: nat): Rx {
    s.(cq := s.cq + [wc],
       expected := Psn.Next(psn),
       hist := HistStore(s.hist, psn, AckFor(wc.status)),
       acks := s.acks + [Ack(wc.srcQp, psn, AckFor(wc.status))])
  }

  function FinishSend(s: Rx): Rx
    requires s.active.Some?
  {
    var a := s.active.value;
    Consume(s.(active := None), Wc(a.wqe, a.status, a.delivered, a.srcQp, a.imm), a.psn)
  }

  /** The completion of a buffered message copied into `w`. */
  function BufferedWc(m: Buffered, w: Wqe, faults: set<(nat, nat)>): Wc {
    var c := CopyFrags(w, m.frags, faults);
    var status := if c.failed then ProtErr else if m.totalLen > |w.region| then LenErr else Success;
    Wc(c.wqe, status, c.delivered, m.srcQp, m.imm)
  }

  function Deliver(s: Rx, k: nat, faults: set<(nat, nat)>): Rx
    requires k < |s.reorder| && s.recvs != []
  {
    var m := s.reorder[k];
    Consume(s.(reorder := Remove(s.reorder, k), recvs := s.recvs[1..]),
            BufferedWc(m, s.recvs[0], faults), m.psn)
  }

  /** Deliver buffered messages for as long as the expected one is complete and a receive is posted. */
  function Drain(s: Rx, faults: set<(nat, nat)>): Rx
    decreases |s.reorder|
  {
    if s.active.Some? then s
    else
      KeptNoLonger(s.reorder, s.expected);
      var p := Prune(s);
      match Find(p.reorder, p.expected)
      case None => p
      case Some(k) =>
        if !p.reorder[k].Complete() then p
        else if p.recvs == [] then SendAck(p, p.reorder[k].srcQp, p.reorder[k].psn, AckRnr)
        else Drain(Deliver(p, k, faults), faults)
  }

  // ----- one fragment -----

  function ImmOf(h: DataHeader): Option<nat> { if h.opcode == OP_SEND_IMM then Some(h.rkey) else None }

  predicate BadSendHeader(h: DataHeader) {
    || h.remoteAddr != 0
    || h.fragOffset + h.length > h.imm
    || h.imm > MAX_MSG_SIZE
    || (!h.Last() && h.length == 0)
    || h.OtherFlags()
    || (h.opcode != OP_SEND_IMM && h.rkey != 0)
    || h.Last() != (h.fragOffset + h.length == h.imm)
  }

  function ShapeOf(h: DataHeader): Option<Shape> {
    FragmentShape(h.imm, MAX_PAYLOAD, MAX_FRAGS, h.fragOffset, h.length, h.Last())
  }

  function ErrorAck(s: Rx, h: DataHeader, psn: nat): Rx { SendAck(s, h.srcQp, psn, AckError) }

  predicate FragMatches(frags: seq<Frag>, offset: nat, payload: seq<Byte>) {
    if frags == [] then false
    else if frags[0].offset == offset then frags[0].data == payload
    else FragMatches(frags[1..], offset, payload)
  }

  /** tbv_rx_buffer_fragment_locked. */
  function BufferFragment(s: Rx, h: DataHeader, psn: nat, payload: seq<Byte>, env: Env): Rx {
    var delta := Psn.Delta(psn, s.expected);
    if delta < 0 then Reack(s, h.srcQp, psn)
    else if delta >= REORDER_MAX_MESSAGES then ErrorAck(s, h, psn)
    else
      match ShapeOf(h)
      case None => ErrorAck(s, h, psn)
      case Some(shape) =>
        match Find(s.reorder, psn)
        case None =>
          if |s.reorder| >= REORDER_MAX_MESSAGES || !env.msgAlloc then ErrorAck(s, h, psn)
          else
            var m := Buffered(h.srcQp, psn, h.imm, ImmOf(h), {}, []);
            StoreFragment(s.(reorder := s.reorder + [m]), |s.reorder|, h, psn, shape.idx, payload, env)
        case Some(k) => MergeFragment(s, k, h, psn, shape.idx, payload, env)
  }

  /** A fragment of a message already in the list: a contradiction or a damaged repeat drops the whole entry. */
  function MergeFragment(s: Rx, k: nat, h: DataHeader, psn: nat, idx: nat, payload: seq<Byte>, env: Env): Rx
    requires k < |s.reorder|
  {
    var m := s.reorder[k];
    if m.srcQp != h.srcQp || m.totalLen != h.imm || m.imm != ImmOf(h) then
      ErrorAck(s.(reorder := Remove(s.reorder, k)), h, psn)
    else if idx in m.seen then
      if |payload| > 0 && !FragMatches(m.frags, h.fragOffset, payload) then
        ErrorAck(s.(reorder := Remove(s.reorder, k)), h, psn)
      else if m.Complete() then Drain(s, env.faults)
      else s
    else StoreFragment(s, k, h, psn, idx, payload, env)
  }

  /** Store one new fragment of entry `k`; failure drops the whole entry. */
  function StoreFragment(s: Rx, k: nat, h: DataHeader, psn: nat, idx: nat, payload: seq<Byte>, env: Env): Rx
    requires k < |s.reorder|
  {
    if |payload| > 0 && (TotalBytes(s.reorder) + |payload| > REORDER_MAX_BYTES || !env.fragAlloc) then
      ErrorAck(s.(reorder := Remove(s.reorder, k)), h, psn)
    else
      var m := s.reorder[k];
      var frags := if |payload| > 0 then m.frags + [Frag(h.fragOffset, payload)] else m.frags;
      var m' := m.(seen := m.seen + {idx}, frags := frags);
      var s' := s.(reorder := s.reorder[k := m']);
      if m'.Complete() then Drain(s', env.faults) else s'
  }

  function StartActive(w: Wqe, h: DataHeader, psn: nat): Active {
    Active(w, h.srcQp, psn, h.imm, ImmOf(h), 0, 0, {}, if h.imm > |w.region| then LenErr else Success)
  }

  predicate SameMessage(a: Active, h: DataHeader, psn: nat) {
    a.srcQp == h.srcQp && a.psn == psn && a.totalLen == h.imm && a.imm == ImmOf(h)
  }

  /** Copy `data` at `offset` of the active message's buffer and account for it. */
  function Absorb(a: Active, offset: nat, data: seq<Byte>, faults: set<(nat, nat)>): Active {
    var c := CopyToWqe(a.wqe, offset, data, faults);
    a.(wqe := c.wqe,
       delivered := a.delivered + c.delivered,
       received := a.received + |data|,
       status := if c.failed then ProtErr else a.status)
  }

  function NotReady(s: Rx, h: DataHeader, psn: nat): Rx {
    SendAck(s.(rnr := Some(Rnr(h.srcQp, psn, h.remoteAddr, h.fragOffset))), h.srcQp, psn, AckRnr)
  }

  function FailActive(s: Rx): Rx
    requires s.active.Some?
  {
    FinishSend(s.(active := Some(s.active.value.(status := ProtErr))))
  }

  /** Fragment striping on: the fragments of the expected message may arrive in any order. */
  function HandleStriped(s: Rx, h: DataHeader, psn: nat, payload: seq<Byte>, env: Env): Rx {
    match ShapeOf(h)
    case None => ErrorAck(s, h, psn)
    case Some(shape) =>
      var delta := Psn.Delta(psn, s.expected);
      if delta < 0 then Reack(s, h.srcQp, psn)
      else if delta > 0 || (s.active.None? && Find(s.reorder, psn).Some?) then
        BufferFragment(s, h, psn, payload, env)
      else if s.active.Some? then
        if !SameMessage(s.active.value, h, psn) then ErrorAck(FailActive(s), h, psn)
        else AcceptStriped(s, s.active.value, h, shape, payload, env.faults)
      else if s.recvs == [] then NotReady(s, h, psn)
      else AcceptStriped(s.(recvs := s.recvs[1..]), StartActive(s.recvs[0], h, psn), h, shape, payload, env.faults)
  }

  function AcceptStriped(s: Rx, a: Active, h: DataHeader, shape: Shape, payload: seq<Byte>, faults: set<(nat, nat)>): Rx {
    var a' := if shape.idx in a.seen then a
              else Absorb(a, h.fragOffset, payload, faults).(seen := a.seen + {shape.idx});
    var s' := s.(active := Some(a'));
    if |a'.seen| == shape.count then Drain(FinishSend(s'), faults) else s'
  }

  /** Fragment striping off: the fragments of the expected message must arrive in offset order. */
  function HandleOrdered(s: Rx, h: DataHeader, psn: nat, payload: seq<Byte>, env: Env): Rx
    requires |payload| == h.length
  {
    match s.active
    case Some(a) =>
      var same := SameMessage(a, h, psn);
      var delta := Psn.Delta(psn, s.expected);
      if same && a.received == h.fragOffset then AcceptOrdered(s, a, h.fragOffset, payload, h.Last(), env.faults)
      else if delta < 0 then Reack(s, h.srcQp, psn)
      else if delta > 0 then BufferFragment(s, h, psn, payload, env)
      else if same && h.fragOffset < a.received then
        var duplicate := a.received - h.fragOffset;
        if duplicate >= h.length then s
        else AcceptOrdered(s, a, a.received, payload[duplicate..], h.Last(), env.faults)
      else if same then s
      else ErrorAck(FailActive(s), h, psn)
    case None =>
      if Find(s.reorder, psn).Some? || psn != s.expected then BufferFragment(s, h, psn, payload, env)
      else if h.fragOffset != 0 then ErrorAck(s, h, psn)
      else if s.recvs == [] then NotReady(s, h, psn)
      else AcceptOrdered(s.(recvs := s.recvs[1..]), StartActive(s.recvs[0], h, psn), 0, payload, h.Last(), env.faults)
  }

  function AcceptOrdered(s: Rx, a: Active, offset: nat, data: seq<Byte>, last: bool, faults: set<(nat, nat)>): Rx {
    var s' := s.(active := Some(Absorb(a, offset, data, faults)));
    if last then Drain(FinishSend(s'), faults) else s'
  }

  predicate RnrMatches(s: Rx, h: DataHeader, psn: nat) {
    s.rnr.Some? && s.rnr.value.srcQp == h.srcQp && s.rnr.value.psn == psn
  }

  /** tbv_rx_handle_send_fragment. */
  function HandleSend(s: Rx, striping: bool, h: DataHeader, payload: seq<Byte>, env: Env): Rx
    requires |payload| == h.length
  {
    var psn := h.psn % Psn.MODULUS;
    if BadSendHeader(h) then ErrorAck(s, h, psn)
    else if RnrMatches(s, h, psn)
            && !(s.rnr.value.remoteAddr == h.remoteAddr && s.rnr.value.fragOffset == h.fragOffset) then s
    else
      var s' := if RnrMatches(s, h, psn) then s.(rnr := None) else s;
      if striping then HandleStriped(s', h, psn, payload, env) else HandleOrdered(s', h, psn, payload, env)
  }

  /** tbv_post_recv queues one receive unless the ring of `capacity` entries is full. */
  function Post(s: Rx, capacity: nat, w: Wqe): Rx {
    if |s.recvs| >= capacity then s else s.(recvs := s.recvs + [w])
  }
}
