/**
 * The reliability operations with the source's own fields (proto/reliability.c): every method is proved to
 * compute the function of the same role in `RelSpec`, the receiver with its 16-slot ring of cached ACKs.
 */
module RelEngine {
  import opened Basics
  import opened RelSpec
  import RelProof

  /** struct tbv_rel_tx_op */
  class TxOp {
    var connId: nat
    var opId: nat
    var totalLen: nat
    var maxPayload: nat
    var frameCount: nat
    var nextFrame: nat
    var generation: nat
    var retryBudget: nat
    var rnrBudget: nat
    var localTxFrames: nat
    var completionCount: nat
    var op: nat
    var state: TxState

    ghost function View(): Tx
      reads this
    {
      Tx(connId, opId, op, totalLen, maxPayload, frameCount, nextFrame, generation, retryBudget, rnrBudget,
         localTxFrames, completionCount, state)
    }

    constructor ()
      ensures View() == Tx(0, 0, 0, 0, 0, 0, 0, 0, 0, 0, 0, 0, Empty)
    {
      connId, opId, totalLen, maxPayload, frameCount, nextFrame, generation := 0, 0, 0, 0, 0, 0, 0;
      retryBudget, rnrBudget, localTxFrames, completionCount, op, state := 0, 0, 0, 0, 0, Empty;
    }

    method Start(conn: nat, id: nat, kind: nat, total: nat, payload: nat, retries: nat, rnrs: nat) returns (code: Code)
      modifies this
      ensures code == StartCode(kind, total, payload)
      ensures View() == if code == Ok then Started(conn, id, kind, total, payload, retries, rnrs) else old(View())
    {
      if !ValidOp(kind) || payload == 0 { return Invalid; }
      var frames := FrameCount(total, payload);
      hide FrameCount;
      if frames == 0 || frames > MAX_FRAGS { return TooLong; }
      connId, opId, op, totalLen, maxPayload, frameCount := conn, id, kind, total, payload, frames;
      nextFrame, generation, retryBudget, rnrBudget, localTxFrames, completionCount := 0, 0, retries, rnrs, 0, 0;
      state := Ready;
      return Ok;
    }

    method Next() returns (code: Code, frame: Option<DataFrame>)
      modifies `nextFrame, `localTxFrames, `state
      ensures code == NextCode(old(View()))
      ensures code != Ok ==> frame.None? && View() == old(View())
      ensures code == Ok ==> frame == Some(FrameAt(old(View()), old(nextFrame))) && View() == Emit(old(View()))
    {
      frame := None;
      if state != Ready && state != InFlight { return Invalid, None; }
      if nextFrame >= frameCount { return NoData, None; }
      var offset := nextFrame * maxPayload % U32_MOD;
      var remaining := if totalLen > offset then totalLen - offset else 0;
      var len := if remaining > maxPayload then maxPayload else remaining;
      frame := Some(DataFrame(connId, opId, generation, offset, len, nextFrame, frameCount, op));
      nextFrame, localTxFrames, state := Inc(nextFrame), Inc(localTxFrames), InFlight;
      code := Ok;
    }

    method OnTimeout() returns (code: Code, completion: Option<Completion>)
      modifies this
      ensures code == if old(state) == InFlight then Ok else Invalid
      ensures (View(), completion) == RelSpec.OnTimeout(old(View()))
    {
      completion := None;
      if state != InFlight { return Invalid, None; }
      code := Ok;
      if retryBudget != INFINITE && retryBudget == 0 {
        state, completionCount := Failed, Inc(completionCount);
        completion := Some(Completion(opId, RetryExhausted));
        return;
      }
      if retryBudget != INFINITE { retryBudget := retryBudget - 1; }
      generation, nextFrame := Inc(generation), 0;
    }

    method OnAck(a: AckFrame) returns (completion: Option<Completion>)
      modifies this
      ensures (View(), completion) == RelSpec.OnAck(old(View()), a)
    {
      completion := None;
      if a.connId != connId || a.opId != opId { return; }
      if state == Complete || state == Failed { return; }
      if a.status == ACK_OK {
        state, completionCount := Complete, Inc(completionCount);
        completion := Some(Completion(opId, CompOk));
      } else if a.status == ACK_RNR {
        if rnrBudget != INFINITE && rnrBudget == 0 {
          state, completionCount := Failed, Inc(completionCount);
          completion := Some(Completion(opId, RnrRetryExhausted));
          return;
        }
        if rnrBudget != INFINITE { rnrBudget := rnrBudget - 1; }
        generation, nextFrame, state := Inc(generation), 0, Ready;
      } else if a.status == ACK_ERROR {
        state, completionCount := Failed, Inc(completionCount);
        completion := Some(Completion(opId, RemoteError));
      }
    }
  }

  // ----- the ring of cached ACKs -----

  datatype AckEntry = AckEntry(valid: bool, opId: nat, ack: AckFrame)

  const NO_ENTRY := AckEntry(false, 0, AckFrame(0, 0, 0, 0))

  function EntryFor(d: Done): AckEntry { AckEntry(true, d.ack.opId, d.ack) }

  /** Slot `j % 16` holds the j-th completed operation, for the last 16 of them; unused slots are invalid. */
  ghost predicate Caches(history: seq<AckEntry>, log: seq<Done>) {
    && |history| == ACK_HISTORY
    && (forall j | 0 <= j < |log| && |log| - j <= ACK_HISTORY :: history[j % ACK_HISTORY] == EntryFor(log[j]))
    && forall i | |log| <= i < ACK_HISTORY :: !history[i].valid
  }

  /** Which of `n` operations slot `i` holds. */
  function OwnerOf(i: nat, n: nat): (j: nat)
    requires i < ACK_HISTORY && i < n
    ensures j < n && n - j <= ACK_HISTORY && j % ACK_HISTORY == i
  {
    n - 1 - (n - 1 - i) % ACK_HISTORY
  }

  /** The ring holds exactly the last min(n, 16) completed operations, pairwise different. */
  lemma CacheIsExact(history: seq<AckEntry>, log: seq<Done>)
    requires Caches(history, log) && RelProof.Apart(log)
    ensures forall i | 0 <= i < ACK_HISTORY && history[i].valid :: exists d :: d in Recent(log) && history[i] == EntryFor(d)
    ensures forall d | d in Recent(log) :: exists i | 0 <= i < ACK_HISTORY :: history[i] == EntryFor(d)
    ensures forall i, j | 0 <= i < j < ACK_HISTORY && history[i].valid && history[j].valid :: history[i].opId != history[j].opId
  {
    forall i | 0 <= i < ACK_HISTORY && history[i].valid
      ensures exists d :: d in Recent(log) && history[i] == EntryFor(d)
    {
      var j := OwnerOf(i, |log|);
      RelProof.RecentCovers(log, j);
      assert history[j % ACK_HISTORY] == EntryFor(log[j]);
    }
    forall d | d in Recent(log) ensures exists i | 0 <= i < ACK_HISTORY :: history[i] == EntryFor(d) {
      var j := RecentAt(log, d);
      assert history[j % ACK_HISTORY] == EntryFor(d);
    }
    forall i, j | 0 <= i < j < ACK_HISTORY && history[i].valid && history[j].valid ensures history[i].opId != history[j].opId {
      var a, b := OwnerOf(i, |log|), OwnerOf(j, |log|);
      assert history[a % ACK_HISTORY] == EntryFor(log[a]) && history[b % ACK_HISTORY] == EntryFor(log[b]);
      assert a != b;
      if a < b { RelProof.Differ(log, a, b); } else { RelProof.Differ(log, b, a); }
    }
  }

  lemma RecentAt(log: seq<Done>, d: Done) returns (j: nat)
    requires d in Recent(log)
    ensures j < |log| && |log| - j <= ACK_HISTORY && log[j] == d
  {
    var k :| 0 <= k < |Recent(log)| && Recent(log)[k] == d;
    j := if |log| <= ACK_HISTORY then k else |log| - ACK_HISTORY + k;
  }

  /** A matching valid slot is the cached ACK of the operation. */
  lemma HitIsCached(history: seq<AckEntry>, log: seq<Done>, i: nat, opId: nat)
    requires Caches(history, log) && RelProof.Apart(log)
    requires i < ACK_HISTORY && history[i].valid && history[i].opId == opId
    ensures FindAck(Recent(log), opId) == Some(history[i].ack)
  {
    CacheIsExact(history, log);
    hide Caches, Recent, RelProof.Apart;
    var d :| d in Recent(log) && history[i] == EntryFor(d);
    var found := FindAck(Recent(log), opId);
    assert found.Some?;
    var e :| e in Recent(log) && e.ack == found.value && e.ack.opId == opId;
    var k :| 0 <= k < ACK_HISTORY && history[k] == EntryFor(e);
    assert history[k].valid && history[k].opId == opId;
  }

  lemma MissIsMiss(history: seq<AckEntry>, log: seq<Done>, opId: nat)
    requires Caches(history, log) && RelProof.Apart(log)
    requires forall i | 0 <= i < ACK_HISTORY && history[i].valid :: history[i].opId != opId
    ensures FindAck(Recent(log), opId) == None
  {
    CacheIsExact(history, log);
    hide Caches, Recent, RelProof.Apart;
    forall d | d in Recent(log) ensures d.ack.opId != opId {
      var k :| 0 <= k < ACK_HISTORY && history[k] == EntryFor(d);
      assert history[k].valid;
    }
  }

  lemma StoreCaches(history: seq<AckEntry>, log: seq<Done>, d: Done)
    requires Caches(history, log)
    ensures Caches(history[|log| % ACK_HISTORY := EntryFor(d)], log + [d])
  {
  }

  lemma CounterSlot(n: nat)
    ensures n % U32_MOD % ACK_HISTORY == n % ACK_HISTORY
    ensures Inc(n % U32_MOD) == (n + 1) % U32_MOD
  {
    assert U32_MOD == 0x1000_0000 * ACK_HISTORY;
  }

  lemma AcceptIgnoresCur(s: Rx, cur: Option<Partial>, p: Partial, f: DataFrame)
    ensures Accept(s.(cur := cur), p, f) == Accept(s, p, f)
  {
  }

  // ----- the receiver -----

  /** struct tbv_rel_rx_op; `log` remembers every completed operation for the specification. */
  class RxOp {
    var connId: nat
    var maxPayload: nat
    var opId: nat
    var totalLen: nat
    var frameCount: nat
    var receivedCount: nat
    var completionCount: nat
    var ackHistoryNext: nat
    var receivedBitmap: set<nat>
    const ackHistory: array<AckEntry>
    var op: nat
    var active: bool
    var accepted: bool
    ghost var log: seq<Done>

    ghost predicate Valid()
      reads this, ackHistory
    {
      && Caches(ackHistory[..], log) && RelProof.Apart(log)
      && ackHistoryNext == completionCount == |log| % U32_MOD
      && accepted == (log != []) && (active ==> receivedCount == |receivedBitmap|)
    }

    ghost function View(): Rx
      reads this
    {
      Rx(connId, maxPayload, if active then Some(Partial(opId, op, frameCount, receivedBitmap, totalLen)) else None, log)
    }

    constructor (conn: nat, payload: nat)
      ensures Valid() && fresh(ackHistory) && View() == InitRx(conn, payload)
    {
      connId, maxPayload, opId, totalLen, frameCount, receivedCount, completionCount := conn, payload, 0, 0, 0, 0, 0;
      ackHistoryNext, receivedBitmap, op, active, accepted, log := 0, {}, 0, false, false, [];
      ackHistory := new AckEntry[ACK_HISTORY](_ => NO_ENTRY);
    }

    /** tbv_rel_rx_find_cached_ack */
    method FindCachedAck(id: nat) returns (r: Option<AckFrame>)
      requires Valid()
      ensures r == FindAck(Recent(log), id)
    {
      var i := 0;
      while i < ackHistory.Length
        invariant i <= ackHistory.Length
        invariant forall k | 0 <= k < i && ackHistory[..][k].valid :: ackHistory[..][k].opId != id
      {
        var entry := ackHistory[i];
        if entry.valid && entry.opId == id {
          HitIsCached(ackHistory[..], log, i, id);
          return Some(entry.ack);
        }
        i := i + 1;
      }
      MissIsMiss(ackHistory[..], log, id);
      return None;
    }

    method ValidateFrame(f: DataFrame) returns (code: Code)
      ensures code == Validate(View(), f)
    {
      if !ValidOp(f.op) { return Invalid; }
      if maxPayload == 0 || f.count == 0 || f.count > MAX_FRAGS || f.index >= f.count { return Invalid; }
      var expectedOffset := f.index * maxPayload % U32_MOD;
      if f.offset != expectedOffset { return Invalid; }
      if f.length > maxPayload { return TooLong; }
      return Ok;
    }

    /** All fragments are in: release the operation and cache its ACK. */
    method FinishOp(f: DataFrame) returns (ack: AckFrame)
      requires Valid() && active && RelProof.Apart(log + [Done(AckOf(f, ACK_OK), receivedBitmap, totalLen)])
      modifies `accepted, `active, `completionCount, `ackHistoryNext, `log, ackHistory
      ensures Valid() && ack == AckOf(f, ACK_OK)
      ensures View() == old(View()).(cur := None, log := old(log) + [Done(ack, receivedBitmap, totalLen)])
    {
      CounterSlot(|log|);
      accepted, active, completionCount := true, false, Inc(completionCount);
      ack := AckOf(f, ACK_OK);
      ghost var done, before := Done(ack, receivedBitmap, totalLen), ackHistory[..];
      StoreCaches(before, log, done);
      ackHistory[ackHistoryNext % ACK_HISTORY] := AckEntry(true, ack.opId, ack);
      assert ackHistory[..] == before[|log| % ACK_HISTORY := EntryFor(done)];
      ackHistoryNext := Inc(ackHistoryNext);
      log := log + [done];
    }

    /** An idle receiver answers from the cache, or without a receive at hand with RNR, or begins the operation. */
    method Admit(f: DataFrame, recvAvailable: bool) returns (early: Option<RxEvent>)
      requires Valid() && !active
      modifies `active, `opId, `op, `frameCount, `receivedCount, `receivedBitmap, `totalLen
      ensures Valid()
      ensures early.Some? ==> !active && View() == old(View())
      ensures early.None? ==> active && View() == old(View()).(cur := Some(Partial(f.opId, f.op, f.count, {}, 0)))
      ensures var cached := FindAck(Recent(log), f.opId);
              early == if cached.Some? then Some(SILENT.(duplicate := true, ack := cached))
                       else if !recvAvailable then Some(SILENT.(rnr := true, ack := Some(AckOf(f, ACK_RNR))))
                       else None
    {
      var cached := FindCachedAck(f.opId);
      hide Caches, Recent, RelProof.Apart;
      if cached.Some? { return Some(SILENT.(duplicate := true, ack := cached)); }
      if !recvAvailable { return Some(SILENT.(rnr := true, ack := Some(AckOf(f, ACK_RNR)))); }
      active, opId, op, frameCount, receivedCount, receivedBitmap, totalLen := true, f.opId, f.op, f.count, 0, {}, 0;
      return None;
    }

    /** tbv_rel_rx_on_data */
    method OnData(f: DataFrame, recvAvailable: bool) returns (ev: RxEvent)
      requires Valid() && RelProof.RxInv(View())
      modifies this, ackHistory
      ensures Valid() && RelProof.RxInv(View())
      ensures (View(), ev) == RelSpec.OnData(old(View()), f, recvAvailable)
      ensures ev.completion.Some? ==> totalLen == log[|log| - 1].totalLen && receivedBitmap == log[|log| - 1].seen
    {
      RelProof.OnDataInv(View(), f, recvAvailable);
      hide RelProof.RxInv, RelProof.Apart, Caches, Recent, Validate, Accept;
      ghost var before := View();
      var code := ValidateFrame(f);
      if code != Ok { return SILENT.(code := code); }
      if f.connId != connId { return SILENT.(stale := true); }
      if !active {
        var early := Admit(f, recvAvailable);
        if early.Some? { return early.value; }
        AcceptIgnoresCur(before, View().cur, View().cur.value, f);
      }
      if f.opId != opId || f.op != op || f.count != frameCount { return SILENT.(code := Busy); }
      ev := TakeFragment(f);
    }

    /** The part of tbv_rel_rx_on_data behind its checks. */
    method TakeFragment(f: DataFrame) returns (ev: RxEvent)
      requires Valid() && active && f.opId == opId && f.op == op && f.count == frameCount
      requires RelProof.RxInv(Accept(View(), View().cur.value, f).0)
      modifies this, ackHistory
      ensures Valid()
      ensures (View(), ev) == Accept(old(View()), old(View()).cur.value, f)
      ensures ev.completion.Some? ==> totalLen == log[|log| - 1].totalLen && receivedBitmap == log[|log| - 1].seen
    {
      var duplicate := f.index in receivedBitmap;
      if !duplicate {
        receivedBitmap := receivedBitmap + {f.index};
        receivedCount := receivedCount + 1;
        totalLen := (totalLen + f.length) % U32_MOD;
      }
      if receivedCount == frameCount {
        hide Caches;
        var ack := FinishOp(f);
        ev := RxEvent(Ok, Some(ack), Some(Completion(f.opId, CompOk)), duplicate, false, false);
      } else {
        ev := SILENT.(duplicate := duplicate);
      }
    }
  }
}
