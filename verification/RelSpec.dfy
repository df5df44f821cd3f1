/**
 * The reliability state machines (proto/reliability.c) as functions on values: one sending operation, and
 * the receiving end of a connection with its cache of the last acknowledged operations. Counters of the
 * source wrap at 2^32; the receiver's log of completed operations is kept whole here, and `RelEngine` keeps
 * the 16-slot ring of the source.
 */
module RelSpec {
  import opened Basics
  import Fragment

  const MAX_FRAGS: nat := 64
  const ACK_HISTORY: nat := 16
  const INFINITE: nat := U32_MOD - 1

  const ACK_OK: nat := 0
  const ACK_RNR: nat := 1
  const ACK_ERROR: nat := 2

  datatype Code = Ok | Invalid | TooLong | NoData | Busy

  datatype CompletionStatus = CompOk | RnrRetryExhausted | RetryExhausted | RemoteError

  datatype Completion = Completion(opId: nat, status: CompletionStatus)

  datatype TxState = Empty | Ready | InFlight | Complete | Failed

  /** tbv_rel_data_frame; `seq` of the source always equals `index`. */
  datatype DataFrame = DataFrame(
    connId: nat, opId: nat, generation: nat, offset: nat, length: nat, index: nat, count: nat, op: nat)

  datatype AckFrame = AckFrame(connId: nat, opId: nat, generation: nat, status: nat)

  predicate ValidOp(op: nat) { 1 <= op <= 5 }

  function Inc(x: nat): nat { (x + 1) % U32_MOD }

  // ----- sender -----

  datatype Tx = Tx(
    connId: nat, opId: nat, op: nat, totalLen: nat, maxPayload: nat, frameCount: nat, nextFrame: nat,
    generation: nat, retryBudget: nat, rnrBudget: nat, emitted: nat, completions: nat, state: TxState)
  {
    predicate Live() { state == Ready || state == InFlight }
  }

  /** The frame count as the sender computes it, in u32 arithmetic. */
  function FrameCount(totalLen: nat, maxPayload: nat): nat
    requires maxPayload > 0
  {
    if totalLen > 0 then Fragment.WrappedCeiling(totalLen, maxPayload) else 1
  }

  /** tbv_rel_tx_start: what it answers; on any answer but Ok the operation is left alone. */
  function StartCode(op: nat, totalLen: nat, maxPayload: nat): Code {
    if !ValidOp(op) || maxPayload == 0 then Invalid
    else if FrameCount(totalLen, maxPayload) == 0 || FrameCount(totalLen, maxPayload) > MAX_FRAGS then TooLong
    else Ok
  }

  function Started(connId: nat, opId: nat, op: nat, totalLen: nat, maxPayload: nat, retries: nat, rnrs: nat): Tx
    requires maxPayload > 0
  {
    Tx(connId, opId, op, totalLen, maxPayload, FrameCount(totalLen, maxPayload), 0, 0, retries, rnrs, 0, 0, Ready)
  }

  function FrameAt(t: Tx, k: nat): DataFrame {
    var offset := k * t.maxPayload % U32_MOD;
    var remaining := if t.totalLen > offset then t.totalLen - offset else 0;
    DataFrame(t.connId, t.opId, t.generation, offset, Min(remaining, t.maxPayload), k, t.frameCount, t.op)
  }

  /** tbv_rel_tx_next_frame */
  function NextCode(t: Tx): Code {
    if !t.Live() then Invalid else if t.nextFrame >= t.frameCount then NoData else Ok
  }

  function Emit(t: Tx): Tx {
    t.(nextFrame := Inc(t.nextFrame), emitted := Inc(t.emitted), state := InFlight)
  }

  function Spend(budget: nat): nat { if budget != INFINITE && budget > 0 then budget - 1 else budget }

  function Finish(t: Tx, status: CompletionStatus): (Tx, Option<Completion>) {
    (t.(state := if status == CompOk then Complete else Failed, completions := Inc(t.completions)),
     Some(Completion(t.opId, status)))
  }

  /** tbv_rel_tx_on_timeout in flight; any other state is refused unchanged. */
  function OnTimeout(t: Tx): (Tx, Option<Completion>) {
    if t.state != InFlight then (t, None)
    else if t.retryBudget == 0 then Finish(t, RetryExhausted)
    else (t.(retryBudget := Spend(t.retryBudget), generation := Inc(t.generation), nextFrame := 0), None)
  }

  /** tbv_rel_tx_on_ack */
  function OnAck(t: Tx, a: AckFrame): (Tx, Option<Completion>) {
    if a.connId != t.connId || a.opId != t.opId || t.state == Complete || t.state == Failed then (t, None)
    else if a.status == ACK_OK then Finish(t, CompOk)
    else if a.status == ACK_RNR then
      if t.rnrBudget == 0 then Finish(t, RnrRetryExhausted)
      else (t.(rnrBudget := Spend(t.rnrBudget), generation := Inc(t.generation), nextFrame := 0, state := Ready), None)
    else if a.status == ACK_ERROR then Finish(t, RemoteError)
    else (t, None)
  }

  // ----- receiver -----

  /** The operation being received; `seen` are the set bits of received_bitmap. */
  datatype Partial = Partial(opId: nat, op: nat, count: nat, seen: set<nat>, totalLen: nat)

  /** A completed operation: the ACK it was answered with and what had been received. */
  datatype Done = Done(ack: AckFrame, seen: set<nat>, totalLen: nat)

  datatype Rx = Rx(connId: nat, maxPayload: nat, cur: Option<Partial>, log: seq<Done>)

  datatype RxEvent = RxEvent(
    code: Code, ack: Option<AckFrame>, completion: Option<Completion>, duplicate: bool, stale: bool, rnr: bool)

  const SILENT := RxEvent(Ok, None, None, false, false, false)

  function InitRx(connId: nat, maxPayload: nat): Rx { Rx(connId, maxPayload, None, []) }

  function Validate(s: Rx, f: DataFrame): Code {
    if !ValidOp(f.op) || s.maxPayload == 0 || f.count == 0 || f.count > MAX_FRAGS || f.index >= f.count then Invalid
    else if f.offset != f.index * s.maxPayload % U32_MOD then Invalid
    else if f.length > s.maxPayload then TooLong
    else Ok
  }

  /** The operations whose ACKs are still cached. */
  function Recent(log: seq<Done>): seq<Done> {
    if |log| <= ACK_HISTORY then log else log[|log| - ACK_HISTORY..]
  }

  function FindAck(log: seq<Done>, opId: nat): (r: Option<AckFrame>)
    ensures r.None? <==> forall d | d in log :: d.ack.opId != opId
    ensures r.Some? ==> exists d :: d in log && d.ack == r.value && d.ack.opId == opId
  {
    if log == [] then None
    else if log[0].ack.opId == opId then Some(log[0].ack)
    else FindAck(log[1..], opId)
  }

  function AckOf(f: DataFrame, status: nat): AckFrame { AckFrame(f.connId, f.opId, f.generation, status) }

  /** tbv_rel_rx_on_data */
  function OnData(s: Rx, f: DataFrame, recvAvailable: bool): (Rx, RxEvent) {
    var code := Validate(s, f);
    if code != Ok then (s, SILENT.(code := code))
    else if f.connId != s.connId then (s, SILENT.(stale := true))
    else if s.cur.None? then
      var cached := FindAck(Recent(s.log), f.opId);
      if cached.Some? then (s, SILENT.(duplicate := true, ack := cached))
      else if !recvAvailable then (s, SILENT.(rnr := true, ack := Some(AckOf(f, ACK_RNR))))
      else Accept(s, Partial(f.opId, f.op, f.count, {}, 0), f)
    else if f.opId != s.cur.value.opId || f.op != s.cur.value.op || f.count != s.cur.value.count then
      (s, SILENT.(code := Busy))
    else Accept(s, s.cur.value, f)
  }

  function Accept(s: Rx, p: Partial, f: DataFrame): (Rx, RxEvent) {
    var duplicate := f.index in p.seen;
    var q := if duplicate then p else p.(seen := p.seen + {f.index}, totalLen := (p.totalLen + f.length) % U32_MOD);
    if |q.seen| == q.count then
      var ack := AckOf(f, ACK_OK);
      (s.(cur := None, log := s.log + [Done(ack, q.seen, q.totalLen)]),
       RxEvent(Ok, Some(ack), Some(Completion(f.opId, CompOk)), duplicate, false, false))
    else
      (s.(cur := Some(q)), SILENT.(duplicate := duplicate))
  }
}
