/**
 * One operation between a sender and a receiver over a network that loses, duplicates, delays and reorders
 * frames and ACKs, and that may also carry frames of other operations and connections.
 */
module RelNet {
  import opened Basics
  import opened Fragment
  import opened RelSpec
  import opened RelProof

  /** `sent` and `acks` only grow: anything in them may arrive any number of times, or never. */
  datatype Sys = Sys(tx: Tx, rx: Rx, sent: set<DataFrame>, acks: set<AckFrame>)

  datatype Event = SendFrame | TimeOut | AckArrives(ack: AckFrame) | DataArrives(frame: DataFrame, recvAvailable: bool)

  predicate Foreign(t: Tx, f: DataFrame) { f.connId != t.connId || f.opId != t.opId }

  predicate Possible(s: Sys, e: Event) {
    match e
    case SendFrame => NextCode(s.tx) == Ok
    case TimeOut => true
    case AckArrives(a) => a in s.acks
    case DataArrives(f, _) => f in s.sent || Foreign(s.tx, f)
  }

  function Step(s: Sys, e: Event): Sys {
    match e
    case SendFrame => s.(tx := Emit(s.tx), sent := s.sent + {FrameAt(s.tx, s.tx.nextFrame)})
    case TimeOut => s.(tx := OnTimeout(s.tx).0)
    case AckArrives(a) => s.(tx := OnAck(s.tx, a).0)
    case DataArrives(f, avail) =>
      var (rx, ev) := OnData(s.rx, f, avail);
      s.(rx := rx, acks := if ev.ack.Some? then s.acks + {ev.ack.value} else s.acks)
  }

  function RunFrom(s: Sys, events: seq<Event>): Option<Sys> {
    if events == [] then Some(s)
    else
      var prev := RunFrom(s, events[..|events| - 1]);
      if prev.Some? && Possible(prev.value, events[|events| - 1]) then Some(Step(prev.value, events[|events| - 1]))
      else None
  }

  /** Both ends at the start; they share the connection id, but not necessarily the payload size. */
  function Begin(t: Tx, rxPayload: nat): Sys { Sys(t, InitRx(t.connId, rxPayload), {}, {}) }

  predicate Fresh(t: Tx) {
    && t.maxPayload > 0 && t.totalLen < U32_MOD && t.maxPayload < U32_MOD && StartCode(t.op, t.totalLen, t.maxPayload) == Ok
    && t == Started(t.connId, t.opId, t.op, t.totalLen, t.maxPayload, t.retryBudget, t.rnrBudget)
  }

  // ----- frames of the operation -----

  predicate OurFrame(t: Tx, f: DataFrame) {
    f.index < t.frameCount && f == FrameAt(t.(generation := f.generation), f.index)
  }

  /** What the sender cuts are exactly the pieces of the operation; no u32 product wraps. */
  lemma FramesArePieces(t: Tx, k: nat)
    requires Fresh(t) && k < t.frameCount
    ensures t.frameCount == Count(t.totalLen, t.maxPayload)
    ensures var piece := PieceOf(t.totalLen, t.maxPayload, k);
            FrameAt(t, k).offset == piece.offset && FrameAt(t, k).length == piece.len
  {
    FreshFacts(t);
    PieceBounds(t.totalLen, t.maxPayload, k);
    hide Fresh, Count;
    SmallMod(k * t.maxPayload);
  }

  /** A frame of any round in full: whose it is, which round, which bytes, and its place among how many. */
  lemma FrameInFull(t: Tx, generation: nat, k: nat)
    requires Fresh(t) && k < t.frameCount
    ensures t.frameCount == Count(t.totalLen, t.maxPayload)
    ensures var piece := PieceOf(t.totalLen, t.maxPayload, k);
            FrameAt(t.(generation := generation), k)
            == DataFrame(t.connId, t.opId, generation, piece.offset, piece.len, k, Count(t.totalLen, t.maxPayload), t.op)
  {
    hide Fresh, Count, PieceOf;
    FramesArePieces(t, k);
    SameButForRound(t, generation, k);
  }

  lemma SameButForRound(t: Tx, generation: nat, k: nat)
    ensures FrameAt(t.(generation := generation), k)
            == DataFrame(t.connId, t.opId, generation, FrameAt(t, k).offset, FrameAt(t, k).length, k, t.frameCount, t.op)
  {
  }

  lemma SmallMod(x: nat)
    requires x < U32_MOD
    ensures x % U32_MOD == x
  {
  }

  lemma PieceBounds(total: nat, maxPayload: nat, k: nat)
    requires maxPayload > 0 && k < Count(total, maxPayload)
    ensures k * maxPayload <= total
  {
    CeilingBounds(total, maxPayload);
    MulMonotone(k, Count(total, maxPayload) - 1, maxPayload);
  }

  lemma FreshFacts(t: Tx)
    requires Fresh(t)
    ensures t.maxPayload > 0 && t.totalLen < U32_MOD && t.frameCount == Count(t.totalLen, t.maxPayload)
    ensures 0 < t.frameCount <= RelSpec.MAX_FRAGS
  {
    if t.totalLen > 0 { WrappedCeilingExact(t.totalLen, t.maxPayload); }
    CeilingBounds(t.totalLen, t.maxPayload);
  }

  ghost predicate CurIntact(p: Partial, t: Tx)
    requires t.maxPayload > 0
  {
    p.opId == t.opId ==> p.count == t.frameCount && p.totalLen == SeenBytes(t.totalLen, t.maxPayload, p.seen)
  }

  ghost predicate DoneIntact(d: Done, t: Tx) {
    d.ack.opId == t.opId ==> d.seen == Range(t.frameCount) && d.totalLen == t.totalLen
  }

  ghost predicate Taken(log: seq<Done>, t: Tx) { exists d :: d in log && d.ack.opId == t.opId }

  ghost predicate SameOp(t: Tx, t0: Tx) {
    && t.connId == t0.connId && t.opId == t0.opId && t.op == t0.op && t.totalLen == t0.totalLen
    && t.maxPayload == t0.maxPayload && t.frameCount == t0.frameCount
  }

  ghost predicate RxIntact(rx: Rx, t: Tx)
    requires t.maxPayload > 0
  {
    && rx.connId == t.connId && RxInv(rx)
    && (rx.cur.Some? ==> CurIntact(rx.cur.value, t))
    && forall d | d in rx.log :: DoneIntact(d, t)
  }

  ghost predicate AcksTrue(s: Sys, t: Tx) {
    && (forall a | a in s.acks && a.opId == t.opId && a.status == ACK_OK :: Taken(s.rx.log, t))
    && (s.tx.state == Complete ==> Taken(s.rx.log, t))
  }

  ghost predicate NetInv(s: Sys, t: Tx) {
    && Fresh(t) && SameOp(s.tx, t) && TxInv(s.tx) && RxIntact(s.rx, t) && AcksTrue(s, t)
    && forall f | f in s.sent :: OurFrame(t, f)
  }

  /** A frame of the operation, and only that, adds its piece to the bytes received. */
  lemma AcceptIntact(rx: Rx, p: Partial, f: DataFrame, t: Tx)
    requires Fresh(t) && RxIntact(rx, t) && CurIntact(p, t) && p.opId == f.opId
    requires f.index < f.count == p.count <= RelSpec.MAX_FRAGS && p.seen <= Range(p.count)
    requires f.opId == t.opId ==> OurFrame(t, f)
    requires RxInv(Accept(rx, p, f).0)
    ensures RxIntact(Accept(rx, p, f).0, t)
  {
    FreshFacts(t);
    assert f.opId == t.opId ==> f.index < t.frameCount;
    hide RxInv, SeenBytes, FrameAt, Fresh, Count, OurFrame;
    if f.opId == t.opId {
      AddsItsPiece(p, f, t);
      SeenBytesAll(t.totalLen, t.maxPayload);
      var seen := p.seen + {f.index};
      SubsetOfRange(p.seen, p.count);
      SubsetOfRange(seen, p.count);
    }
  }

  lemma AddsItsPiece(p: Partial, f: DataFrame, t: Tx)
    requires Fresh(t) && f.opId == t.opId && OurFrame(t, f) && p.totalLen == SeenBytes(t.totalLen, t.maxPayload, p.seen)
    requires f.index < t.frameCount && p.seen <= Range(t.frameCount)
    ensures t.frameCount == Count(t.totalLen, t.maxPayload)
    ensures f.index !in p.seen ==>
              (p.totalLen + f.length) % U32_MOD == SeenBytes(t.totalLen, t.maxPayload, p.seen + {f.index})
  {
    hide SeenBytes, Fresh, Count, PieceOf, OurFrame, Range;
    FreshFacts(t);
    LengthIsPiece(t, f);
    if f.index !in p.seen {
      SeenBytesAdd(t.totalLen, t.maxPayload, p.seen, f.index);
      SeenAtMostAll(t.totalLen, t.maxPayload, p.seen + {f.index});
      SmallMod(p.totalLen + f.length);
    }
  }

  lemma LengthIsPiece(t: Tx, f: DataFrame)
    requires Fresh(t) && OurFrame(t, f)
    ensures t.frameCount == Count(t.totalLen, t.maxPayload)
    ensures f.length == PieceOf(t.totalLen, t.maxPayload, f.index).len
  {
    FramesArePieces(t, f.index);
    hide Fresh, PieceOf, Count;
  }

  lemma SeenAtMostAll(total: nat, maxPayload: nat, seen: set<nat>)
    requires maxPayload > 0 && seen <= Range(Count(total, maxPayload))
    ensures SeenBytes(total, maxPayload, seen) <= total
  {
    var c := Count(total, maxPayload);
    SubsetOfRange(seen, c);
    CeilingBounds(total, maxPayload);
    if c - 1 in seen {
      MulMonotone(|seen|, c, maxPayload);
    } else {
      assert c - 1 in Range(c);
      MulMonotone(|seen|, c - 1, maxPayload);
    }
  }

  lemma NothingSeen(t: Tx)
    requires t.maxPayload > 0
    ensures SeenBytes(t.totalLen, t.maxPayload, {}) == 0
  {
  }

  lemma OnDataIntact(rx: Rx, f: DataFrame, recvAvailable: bool, t: Tx)
    requires Fresh(t) && RxIntact(rx, t) && (Foreign(t, f) || OurFrame(t, f))
    ensures RxIntact(OnData(rx, f, recvAvailable).0, t)
  {
    OnDataInv(rx, f, recvAvailable);
    NothingSeen(t);
    assert !Foreign(t, f) ==> f.count == t.frameCount && f.op == t.op;
    hide SeenBytes, FrameAt, FrameCount, WrappedCeiling, Fresh, FindAck, Accept, OurFrame, Apart;
    if Validate(rx, f) == Ok && f.connId == rx.connId {
      if rx.cur.None? {
        if FindAck(Recent(rx.log), f.opId).None? && recvAvailable {
          AcceptIntact(rx, Partial(f.opId, f.op, f.count, {}, 0), f, t);
        }
      } else if f.opId == rx.cur.value.opId && f.op == rx.cur.value.op && f.count == rx.cur.value.count {
        AcceptIntact(rx, rx.cur.value, f, t);
      }
    }
  }

  lemma RecentIsPart(log: seq<Done>, d: Done)
    requires d in Recent(log)
    ensures d in log
  {
  }

  /** An OK answer for the operation is only ever given when the receiver has completed it. */
  lemma AnswersAreTrue(rx: Rx, f: DataFrame, recvAvailable: bool, t: Tx)
    requires rx.connId == t.connId
    ensures var (rx', ev) := OnData(rx, f, recvAvailable);
            && rx.log <= rx'.log
            && (ev.ack.Some? && ev.ack.value.opId == t.opId && ev.ack.value.status == ACK_OK ==> Taken(rx'.log, t))
  {
    hide Validate;
    var (rx', ev) := OnData(rx, f, recvAvailable);
    if ev.ack.Some? && ev.ack.value.opId == t.opId && ev.ack.value.status == ACK_OK {
      if ev.completion.Some? {
        assert rx'.log[|rx'.log| - 1] in rx'.log;
      } else {
        var d :| d in Recent(rx.log) && d.ack == ev.ack.value;
        RecentIsPart(rx.log, d);
        assert d in rx'.log;
      }
    }
  }

  lemma TakenStays(a: seq<Done>, b: seq<Done>, t: Tx)
    requires a <= b && Taken(a, t)
    ensures Taken(b, t)
  {
    var d :| d in a && d.ack.opId == t.opId;
    assert d in b;
  }

  lemma StepNetInv(s: Sys, e: Event, t: Tx)
    requires NetInv(s, t) && Possible(s, e)
    ensures NetInv(Step(s, e), t)
  {
    hide RxIntact, Taken, Fresh;
    match e
    case SendFrame =>
      DoTxInv(s.tx, SEmit);
      assert FrameAt(s.tx, s.tx.nextFrame) == FrameAt(t.(generation := s.tx.generation), s.tx.nextFrame);
    case TimeOut => DoTxInv(s.tx, STimeout);
    case AckArrives(a) => DoTxInv(s.tx, SAck(a));
    case DataArrives(f, avail) => DataNetInv(s, f, avail, t);
  }

  lemma DataNetInv(s: Sys, f: DataFrame, avail: bool, t: Tx)
    requires NetInv(s, t) && Possible(s, DataArrives(f, avail))
    ensures NetInv(Step(s, DataArrives(f, avail)), t)
  {
    OnDataIntact(s.rx, f, avail, t);
    AnswersAreTrue(s.rx, f, avail, t);
    var rx' := OnData(s.rx, f, avail).0;
    if Taken(s.rx.log, t) { TakenStays(s.rx.log, rx'.log, t); }
    hide OnData, RxIntact, Taken, Fresh, TxInv, OurFrame;
  }

  lemma {:induction false} RunNetInv(t: Tx, rxPayload: nat, events: seq<Event>)
    requires Fresh(t) && RunFrom(Begin(t, rxPayload), events).Some?
    ensures NetInv(RunFrom(Begin(t, rxPayload), events).value, t)
  {
    if events == [] {
      StartedInv(t.connId, t.opId, t.op, t.totalLen, t.maxPayload, t.retryBudget, t.rnrBudget);
    } else {
      RunNetInv(t, rxPayload, events[..|events| - 1]);
      StepNetInv(RunFrom(Begin(t, rxPayload), events[..|events| - 1]).value, events[|events| - 1], t);
    }
  }

  /**
   * Exactly once: when the sender reports success, the receiver has completed the operation with every
   * fragment seen and the sender's total length. Every completion of the operation is intact in this sense,
   * two of them are more than 16 completions apart, and the sender completes at most once.
   */
  lemma ExactlyOnce(t: Tx, rxPayload: nat, events: seq<Event>)
    requires Fresh(t) && RunFrom(Begin(t, rxPayload), events).Some?
    ensures var s := RunFrom(Begin(t, rxPayload), events).value;
            && (s.tx.state == Complete ==> exists d :: d in s.rx.log && d.ack.opId == t.opId)
            && (forall d | d in s.rx.log && d.ack.opId == t.opId :: d.seen == Range(t.frameCount) && d.totalLen == t.totalLen)
            && (forall i, j | 0 <= i < j < |s.rx.log| && s.rx.log[i].ack.opId == t.opId == s.rx.log[j].ack.opId ::
                  j - i > ACK_HISTORY)
            && s.tx.completions <= 1
  {
    RunNetInv(t, rxPayload, events);
    hide RunFrom;
    var s := RunFrom(Begin(t, rxPayload), events).value;
    assert forall d | d in s.rx.log :: DoneIntact(d, t);
  }

  // ----- what the sender reports -----

  /** What one event reports to the user of the sender. */
  function Reported(s: Sys, e: Event): seq<Completion> {
    var c := match e
             case TimeOut => OnTimeout(s.tx).1
             case AckArrives(a) => OnAck(s.tx, a).1
             case _ => None;
    if c.Some? then [c.value] else []
  }

  /** Everything reported over the run, in order. */
  function Reports(s: Sys, events: seq<Event>): seq<Completion>
    requires RunFrom(s, events).Some?
  {
    if events == [] then []
    else
      var init := events[..|events| - 1];
      Reports(s, init) + Reported(RunFrom(s, init).value, events[|events| - 1])
  }

  /** An event is reported exactly when it ends the operation, as a success exactly when it completes it. */
  lemma ReportedWhenOver(s: Sys, e: Event)
    requires TxInv(s.tx) && Possible(s, e)
    ensures var u, out := Step(s, e).tx, Reported(s, e);
            && (if s.tx.Live() && !u.Live() then |out| == 1 && out[0].opId == s.tx.opId else out == [])
            && (out != [] ==> (out[0].status == CompOk <==> u.state == Complete))
            && (!s.tx.Live() ==> u == s.tx) && u.opId == s.tx.opId
  {
    match e
    case TimeOut => TimeoutReports(s.tx);
    case AckArrives(a) => AckReports(s.tx, a);
    case _ =>
  }

  lemma {:induction false} ReportsMatchState(t: Tx, rxPayload: nat, events: seq<Event>)
    requires Fresh(t) && RunFrom(Begin(t, rxPayload), events).Some?
    ensures var u, out := RunFrom(Begin(t, rxPayload), events).value.tx, Reports(Begin(t, rxPayload), events);
            && u.opId == t.opId
            && (if u.Live() then out == [] else |out| == 1 && out[0].opId == t.opId && (out[0].status == CompOk <==> u.state == Complete))
  {
    RunNetInv(t, rxPayload, events);
    if events == [] {
      StartedInv(t.connId, t.opId, t.op, t.totalLen, t.maxPayload, t.retryBudget, t.rnrBudget);
    } else {
      var init := events[..|events| - 1];
      ReportsMatchState(t, rxPayload, init);
      RunNetInv(t, rxPayload, init);
      hide RxIntact, AcksTrue, Fresh, Step, Reported, OurFrame;
      ReportedWhenOver(RunFrom(Begin(t, rxPayload), init).value, events[|events| - 1]);
    }
  }

  /**
   * The user hears of the operation at most once, and under its own id. A reported success means the receiver
   * completed it with every fragment and the sender's total length.
   */
  lemma ReportsAreTrue(t: Tx, rxPayload: nat, events: seq<Event>)
    requires Fresh(t) && RunFrom(Begin(t, rxPayload), events).Some?
    ensures var s, out := RunFrom(Begin(t, rxPayload), events).value, Reports(Begin(t, rxPayload), events);
            && |out| <= 1 && (forall i | 0 <= i < |out| :: out[i].opId == t.opId)
            && (Completion(t.opId, CompOk) in out ==>
                  exists d :: d in s.rx.log && d.ack.opId == t.opId && d.seen == Range(t.frameCount) && d.totalLen == t.totalLen)
  {
    hide RunFrom, Reports, Fresh, Range, InitRx;
    ReportsMatchState(t, rxPayload, events);
    ExactlyOnce(t, rxPayload, events);
    var s := RunFrom(Begin(t, rxPayload), events).value;
    if Completion(t.opId, CompOk) in Reports(Begin(t, rxPayload), events) {
      var d :| d in s.rx.log && d.ack.opId == t.opId;
      assert d.seen == Range(t.frameCount);
    }
  }

  /** Once an OK answer has reached the sender nothing more is ever reported: no failure follows it. */
  lemma {:induction false} NothingAfterOk(t: Tx, rxPayload: nat, events: seq<Event>, i: nat)
    requires Fresh(t) && RunFrom(Begin(t, rxPayload), events).Some? && i < |events|
    requires events[i].AckArrives? && events[i].ack.connId == t.connId && events[i].ack.opId == t.opId && events[i].ack.status == 0
    ensures RunFrom(Begin(t, rxPayload), events[..i]).Some? && RunFrom(Begin(t, rxPayload), events[..i + 1]).Some?
    ensures var out := Reports(Begin(t, rxPayload), events[..i + 1]);
            && |out| == 1 && Reports(Begin(t, rxPayload), events) == out
            && (Reports(Begin(t, rxPayload), events[..i]) == [] ==> out == [Completion(t.opId, CompOk)])
    ensures !RunFrom(Begin(t, rxPayload), events).value.tx.Live()
    decreases |events|
  {
    var init, e := events[..|events| - 1], events[|events| - 1];
    var b := Begin(t, rxPayload);
    var s := RunFrom(b, init).value;
    RunNetInv(t, rxPayload, init);
    ReportsMatchState(t, rxPayload, init);
    ReportedWhenOver(s, e);
    if i == |init| {
      assert events[..i + 1] == events && events[..i] == init;
      AckReports(s.tx, e.ack);
      ReportsMatchState(t, rxPayload, events);
    } else {
      assert init[..i + 1] == events[..i + 1] && init[..i] == events[..i] && init[i] == events[i];
      NothingAfterOk(t, rxPayload, init, i);
    }
    hide RxIntact, AcksTrue, Fresh, Step, OnAck, OnTimeout, OnData;
  }

  /** When the network carries only this operation, the receiver completes at most once, whatever is replayed. */
  lemma {:induction false} AloneAtMostOnce(t: Tx, rxPayload: nat, events: seq<Event>)
    requires Fresh(t) && RunFrom(Begin(t, rxPayload), events).Some?
    requires forall i | 0 <= i < |events| && events[i].DataArrives? :: !Foreign(t, events[i].frame)
    ensures var s := RunFrom(Begin(t, rxPayload), events).value;
            |s.rx.log| <= 1 && (s.tx.state == Complete ==> |s.rx.log| == 1)
  {
    ExactlyOnce(t, rxPayload, events);
    OnlyOurs(t, rxPayload, events);
    RunNetInv(t, rxPayload, events);
    hide RunFrom;
    var s := RunFrom(Begin(t, rxPayload), events).value;
    if |s.rx.log| >= 2 { Differ(s.rx.log, 0, 1); }
  }

  lemma {:induction false} OnlyOurs(t: Tx, rxPayload: nat, events: seq<Event>)
    requires Fresh(t) && RunFrom(Begin(t, rxPayload), events).Some?
    requires forall i | 0 <= i < |events| && events[i].DataArrives? :: !Foreign(t, events[i].frame)
    ensures var log := RunFrom(Begin(t, rxPayload), events).value.rx.log;
            forall i | 0 <= i < |log| :: log[i].ack.opId == t.opId
  {
    if events != [] {
      var init := events[..|events| - 1];
      assert forall i | 0 <= i < |init| :: init[i] == events[i];
      OnlyOurs(t, rxPayload, init);
      hide Validate, FindAck, Fresh, Recent;
    }
  }

  // ----- it can succeed -----

  /** Between operations, with equal payload sizes. */
  predicate Between(rx: Rx, t: Tx) { rx.connId == t.connId && rx.cur.None? && rx.maxPayload == t.maxPayload }

  /** The operation's ACK is still cached. */
  predicate Cached(rx: Rx, t: Tx) { FindAck(Recent(rx.log), t.opId).Some? }

  /** Every arrival is a frame of the operation, of any of its transmissions. */
  ghost predicate AllOurs(t: Tx, arrivals: seq<Arrival>) {
    forall i | 0 <= i < |arrivals| :: OurFrame(t, arrivals[i].frame)
  }

  /** The frames that have come in: they count from the first that finds a receive posted. */
  function Arrived(arrivals: seq<Arrival>): set<nat> {
    if arrivals == [] then {}
    else
      var before, a := Arrived(arrivals[..|arrivals| - 1]), arrivals[|arrivals| - 1];
      if before == {} && !a.recvAvailable then {} else before + {a.frame.index}
  }

  function PartialOf(t: Tx, seen: set<nat>, bytes: nat): Partial { Partial(t.opId, t.op, t.frameCount, seen, bytes) }

  /** The receiver `s` that started from `rx` has taken the frames `seen` of the operation. */
  ghost predicate HasTaken(rx: Rx, s: Rx, t: Tx, seen: set<nat>)
    requires t.maxPayload > 0
  {
    && seen <= Range(t.frameCount)
    && if seen == {} then s == rx
       else if seen != Range(t.frameCount) then
         var bytes := SeenBytes(t.totalLen, t.maxPayload, seen);
         bytes >= 0 && s == rx.(cur := Some(PartialOf(t, seen, bytes)))
       else
         && s == rx.(log := s.log) && |s.log| == |rx.log| + 1 && rx.log <= s.log
         && s.log[|rx.log|].ack.opId == t.opId
         && s.log[|rx.log|].seen == seen && s.log[|rx.log|].totalLen == t.totalLen
  }

  lemma FrameValid(rx: Rx, t: Tx, f: DataFrame)
    requires Fresh(t) && rx.maxPayload == t.maxPayload && OurFrame(t, f)
    ensures Validate(rx, f) == Ok && f.connId == t.connId && f.opId == t.opId && f.op == t.op && f.count == t.frameCount
  {
  }

  lemma SeenNat(t: Tx, seen: set<nat>)
    requires Fresh(t) && seen <= Range(t.frameCount)
    ensures SeenBytes(t.totalLen, t.maxPayload, seen) >= 0
    decreases |seen|
  {
    FreshFacts(t);
    NothingSeen(t);
    if seen != {} {
      var k :| k in seen;
      SeenNat(t, seen - {k});
      assert seen - {k} + {k} == seen;
      SeenBytesAdd(t.totalLen, t.maxPayload, seen - {k}, k);
    }
  }

  /** The bytes of one frame more. */
  lemma OneMoreSeen(t: Tx, p: Partial, f: DataFrame)
    requires Fresh(t) && OurFrame(t, f) && p.seen <= Range(t.frameCount) && p.opId == t.opId
    requires p.totalLen == SeenBytes(t.totalLen, t.maxPayload, p.seen)
    ensures var seen := p.seen + {f.index};
            && f.opId == t.opId && seen <= Range(t.frameCount)
            && (|seen| == t.frameCount <==> seen == Range(t.frameCount))
            && (if f.index in p.seen then p.totalLen else (p.totalLen + f.length) % U32_MOD)
               == SeenBytes(t.totalLen, t.maxPayload, seen) >= 0
            && (seen == Range(t.frameCount) ==> SeenBytes(t.totalLen, t.maxPayload, seen) == t.totalLen)
  {
    var seen := p.seen + {f.index};
    FreshFacts(t);
    hide SeenBytes, Fresh, Count, Recent;
    assert f.index < t.frameCount && f.opId == t.opId;
    AddsItsPiece(p, f, t);
    SeenBytesAll(t.totalLen, t.maxPayload);
    SubsetOfRange(seen, t.frameCount);
    SeenNat(t, seen);
    if f.index in p.seen { assert seen == p.seen; }
  }

  /** One more frame is added to those of the operation being received. */
  lemma AcceptMore(rx: Rx, s: Rx, p: Partial, t: Tx, f: DataFrame)
    requires Fresh(t) && OurFrame(t, f) && s.log == rx.log && s == rx.(cur := s.cur) && rx.cur.None?
    requires p.seen <= Range(t.frameCount) && p.seen != Range(t.frameCount)
    requires p.totalLen == SeenBytes(t.totalLen, t.maxPayload, p.seen) && p == PartialOf(t, p.seen, p.totalLen)
    ensures var (s', ev) := Accept(s, p, f);
            && HasTaken(rx, s', t, p.seen + {f.index})
            && if p.seen + {f.index} == Range(t.frameCount) then
                 ev.completion == Some(Completion(t.opId, CompOk)) && ev.ack == Some(AckOf(f, ACK_OK))
               else ev.completion.None? && ev.ack.None?
  {
    hide SeenBytes, Fresh, OurFrame, Range;
    OneMoreSeen(t, p, f);
    if f.index in p.seen { assert p.seen + {f.index} == p.seen; }
  }

  lemma NewestIsCached(rx: Rx, t: Tx)
    requires rx.log != [] && rx.log[|rx.log| - 1].ack.opId == t.opId
    ensures Cached(rx, t)
  {
    RecentCovers(rx.log, |rx.log| - 1);
  }

  lemma TakeNext(rx: Rx, s: Rx, t: Tx, seen: set<nat>, a: Arrival)
    requires Fresh(t) && Between(rx, t) && !Cached(rx, t) && OurFrame(t, a.frame) && HasTaken(rx, s, t, seen)
    ensures var (s', ev) := OnData(s, a.frame, a.recvAvailable);
            var seen' := if seen == {} && !a.recvAvailable then {} else seen + {a.frame.index};
            && HasTaken(rx, s', t, seen')
            && if seen != Range(t.frameCount) && seen' == Range(t.frameCount) then
                 ev.completion == Some(Completion(t.opId, CompOk)) && ev.ack == Some(AckOf(a.frame, ACK_OK))
               else ev.completion.None?
  {
    var f := a.frame;
    FrameValid(s, t, f);
    FreshFacts(t);
    NothingSeen(t);
    if seen == {} {
      if a.recvAvailable { AcceptMore(rx, s, PartialOf(t, {}, 0), t, f); }
    } else if seen != Range(t.frameCount) {
      AcceptMore(rx, s, s.cur.value, t, f);
    } else {
      NewestIsCached(s, t);
      assert seen + {f.index} == seen;
    }
    hide Accept, SeenBytes, Fresh, OurFrame, Validate, Recent;
  }

  lemma {:induction false} TakenSoFar(rx: Rx, t: Tx, arrivals: seq<Arrival>)
    requires Fresh(t) && Between(rx, t) && !Cached(rx, t) && AllOurs(t, arrivals)
    ensures HasTaken(rx, ReceiveFrom(rx, arrivals), t, Arrived(arrivals))
  {
    hide HasTaken, Fresh, OnData, OurFrame, Between, Cached;
    if arrivals == [] {
      NothingTaken(rx, t);
    } else {
      var init := arrivals[..|arrivals| - 1];
      assert forall i | 0 <= i < |init| :: init[i] == arrivals[i];
      TakenSoFar(rx, t, init);
      TakeNext(rx, ReceiveFrom(rx, init), t, Arrived(init), arrivals[|arrivals| - 1]);
    }
  }

  lemma NothingTaken(rx: Rx, t: Tx)
    requires Fresh(t)
    ensures HasTaken(rx, rx, t, {})
  {
  }

  lemma {:induction false} CachedIsAnswered(rx: Rx, t: Tx, arrivals: seq<Arrival>)
    requires Fresh(t) && Between(rx, t) && Cached(rx, t) && AllOurs(t, arrivals)
    ensures ReceiveFrom(rx, arrivals) == rx
  {
    if arrivals != [] {
      var init := arrivals[..|arrivals| - 1];
      assert forall i | 0 <= i < |init| :: init[i] == arrivals[i];
      CachedIsAnswered(rx, t, init);
      FrameValid(rx, t, arrivals[|arrivals| - 1].frame);
      hide Fresh, OurFrame, Validate;
    }
  }

  /**
   * Whatever the order, the repeats and the mixture of transmissions, a receiver between operations completes
   * this one, once, exactly when its ACK is not cached any more and every frame has arrived at least once; the
   * frames of a cached operation leave it unchanged.
   */
  lemma CompletesExactlyWhenAllArrived(rx: Rx, t: Tx, arrivals: seq<Arrival>)
    requires Fresh(t) && Between(rx, t) && AllOurs(t, arrivals)
    ensures var s := ReceiveFrom(rx, arrivals);
            var complete := !Cached(rx, t) && Arrived(arrivals) == Range(t.frameCount);
            && |s.log| == |rx.log| + (if complete then 1 else 0) && rx.log <= s.log
            && (complete ==> s.log[|rx.log|].ack.opId == t.opId && s.log[|rx.log|].totalLen == t.totalLen && s.cur.None?)
            && (Cached(rx, t) ==> s == rx)
  {
    if Cached(rx, t) {
      CachedIsAnswered(rx, t, arrivals);
    } else {
      TakenSoFar(rx, t, arrivals);
      FreshFacts(t);
    }
    hide Fresh, ReceiveFrom, Arrived, SeenBytes, Recent;
  }

  /** Progress: the arrival that completes the set of frames completes the operation, and its ACK completes the sender. */
  lemma TransmissionCompletes(rx: Rx, t: Tx, arrivals: seq<Arrival>, a: Arrival)
    requires Fresh(t) && Between(rx, t) && !Cached(rx, t) && AllOurs(t, arrivals + [a])
    requires Arrived(arrivals) != Range(t.frameCount) == Arrived(arrivals + [a])
    ensures var (rx', ev) := OnData(ReceiveFrom(rx, arrivals), a.frame, a.recvAvailable);
            && ev.completion == Some(Completion(t.opId, CompOk)) && ev.ack.Some?
            && OnAck(t, ev.ack.value).0.state == Complete
            && |rx'.log| == |rx.log| + 1 && rx'.log[|rx.log|].totalLen == t.totalLen
  {
    assert (arrivals + [a])[..|arrivals|] == arrivals;
    assert forall i | 0 <= i < |arrivals| :: (arrivals + [a])[i] == arrivals[i];
    assert (arrivals + [a])[|arrivals|] == a;
    TakenSoFar(rx, t, arrivals);
    TakeNext(rx, ReceiveFrom(rx, arrivals), t, Arrived(arrivals), a);
    FreshFacts(t);
    FrameValid(rx, t, a.frame);
    assert t.state == Ready;
    hide OnData, ReceiveFrom, Fresh, FrameAt, SeenBytes, Recent;
  }

  // ----- among frames of other operations -----

  /** The network carries frames of the operation and frames of any others. */
  ghost predicate Mixed(t: Tx, arrivals: seq<Arrival>) {
    forall i | 0 <= i < |arrivals| :: Foreign(t, arrivals[i].frame) || OurFrame(t, arrivals[i].frame)
  }

  /** How often an operation is in the log. */
  function Times(log: seq<Done>, opId: nat): nat {
    if log == [] then 0 else Times(log[..|log| - 1], opId) + if log[|log| - 1].ack.opId == opId then 1 else 0
  }

  /**
   * The frames of the operation that have come in: they count from the first that finds the receiver between
   * operations, a receive posted and the operation's ACK not cached.
   */
  function ArrivedAmong(rx: Rx, t: Tx, arrivals: seq<Arrival>): set<nat> {
    if arrivals == [] then {}
    else
      var before, a := ArrivedAmong(rx, t, arrivals[..|arrivals| - 1]), arrivals[|arrivals| - 1];
      var s := ReceiveFrom(rx, arrivals[..|arrivals| - 1]);
      if Foreign(t, a.frame) || (before == {} && !(s.cur.None? && a.recvAvailable && !Cached(s, t))) then before
      else before + {a.frame.index}
  }

  ghost predicate Whole(log: seq<Done>, from: nat, t: Tx) {
    exists j :: from <= j < |log| && log[j].ack.opId == t.opId && log[j].seen == Range(t.frameCount) && log[j].totalLen == t.totalLen
  }

  /** Another operation is being received, or none. */
  predicate Elsewhere(rx: Rx, t: Tx) {
    rx.connId == t.connId && rx.maxPayload == t.maxPayload && (rx.cur.Some? ==> rx.cur.value.opId != t.opId)
  }

  /** The receiver `s`, come from `rx`, has taken the frames `seen` of the operation among others. */
  ghost predicate TakenAmong(rx: Rx, s: Rx, t: Tx, seen: set<nat>)
    requires t.maxPayload > 0
  {
    && seen <= Range(t.frameCount) && rx.log <= s.log && s.connId == t.connId && s.maxPayload == t.maxPayload
    && if seen == {} then Elsewhere(s, t) && Times(s.log, t.opId) == Times(rx.log, t.opId)
       else if seen != Range(t.frameCount) then
         var bytes := SeenBytes(t.totalLen, t.maxPayload, seen);
         bytes >= 0 && s.cur == Some(PartialOf(t, seen, bytes)) && Times(s.log, t.opId) == Times(rx.log, t.opId)
       else Times(s.log, t.opId) > Times(rx.log, t.opId) && Whole(s.log, |rx.log|, t)
  }

  lemma TimesSnoc(log: seq<Done>, d: Done, opId: nat)
    ensures Times(log + [d], opId) == Times(log, opId) + if d.ack.opId == opId then 1 else 0
  {
    assert (log + [d])[..|log|] == log;
  }

  /** Frames of other operations never touch this one: not its place in the log, nor what has been received of it. */
  lemma OthersKeepOut(s: Rx, t: Tx, f: DataFrame, avail: bool)
    requires Foreign(t, f) && s.connId == t.connId
    ensures var s' := OnData(s, f, avail).0;
            && s' == s.(cur := s'.cur, log := s'.log) && s.log <= s'.log && Times(s'.log, t.opId) == Times(s.log, t.opId)
            && (Elsewhere(s, t) ==> Elsewhere(s', t))
            && (s.cur.Some? && s.cur.value.opId == t.opId ==> s' == s)
  {
    hide Validate, Recent, Times;
    var s' := OnData(s, f, avail).0;
    if s'.log != s.log { TimesSnoc(s.log, s'.log[|s.log|], t.opId); }
  }

  /** The log only grows, one operation at a time. */
  lemma LogGrows(s: Rx, f: DataFrame, avail: bool, opId: nat)
    ensures var s' := OnData(s, f, avail).0;
            s' == s.(cur := s'.cur, log := s'.log) && s.log <= s'.log && Times(s'.log, opId) >= Times(s.log, opId)
  {
    hide Validate, Recent, Times;
    var s' := OnData(s, f, avail).0;
    if s'.log != s.log { TimesSnoc(s.log, s'.log[|s.log|], opId); }
  }

  lemma WholeStays(a: seq<Done>, b: seq<Done>, from: nat, t: Tx)
    requires a <= b && Whole(a, from, t)
    ensures Whole(b, from, t)
  {
    var j :| from <= j < |a| && a[j].ack.opId == t.opId && a[j].seen == Range(t.frameCount) && a[j].totalLen == t.totalLen;
    assert b[j] == a[j];
  }

  /** One of the operation's own frames is accepted. */
  lemma OwnAccepted(rx: Rx, s: Rx, t: Tx, f: DataFrame, p: Partial)
    requires Fresh(t) && OurFrame(t, f) && rx.log <= s.log && s.connId == t.connId && s.maxPayload == t.maxPayload
    requires Times(s.log, t.opId) == Times(rx.log, t.opId)
    requires p.seen <= Range(t.frameCount) && p.seen != Range(t.frameCount)
    requires p.totalLen == SeenBytes(t.totalLen, t.maxPayload, p.seen) && p == PartialOf(t, p.seen, p.totalLen)
    ensures var (s', ev) := Accept(s, p, f);
            && TakenAmong(rx, s', t, p.seen + {f.index})
            && if p.seen + {f.index} == Range(t.frameCount) then
                 ev.completion == Some(Completion(t.opId, CompOk)) && ev.ack == Some(AckOf(f, ACK_OK))
               else ev.completion.None?
  {
    hide SeenBytes, Fresh, OurFrame, Range, Times;
    FreshFacts(t);
    AcceptMore(s.(cur := None), s, p, t, f);
    var s' := Accept(s, p, f).0;
    if p.seen + {f.index} == Range(t.frameCount) {
      TimesSnoc(s.log, s'.log[|s.log|], t.opId);
      assert s'.log == s.log + [s'.log[|s.log|]];
      assert Whole(s'.log, |rx.log|, t);
    }
  }

  lemma TakeAmongNext(rx: Rx, s: Rx, t: Tx, seen: set<nat>, a: Arrival)
    requires Fresh(t) && (Foreign(t, a.frame) || OurFrame(t, a.frame)) && TakenAmong(rx, s, t, seen)
    ensures var (s', ev) := OnData(s, a.frame, a.recvAvailable);
            var seen' := if Foreign(t, a.frame) || (seen == {} && !(s.cur.None? && a.recvAvailable && !Cached(s, t))) then seen
                         else seen + {a.frame.index};
            && TakenAmong(rx, s', t, seen')
            && (seen != Range(t.frameCount) == seen' ==>
                  ev.completion == Some(Completion(t.opId, CompOk)) && ev.ack == Some(AckOf(a.frame, ACK_OK)))
  {
    var f := a.frame;
    LogGrows(s, f, a.recvAvailable, t.opId);
    FreshFacts(t);
    NothingSeen(t);
    if !Foreign(t, f) { FrameValid(s, t, f); }
    hide Accept, SeenBytes, Fresh, OurFrame, Validate, Recent, Times, Whole, Range;
    if seen == Range(t.frameCount) {
      if !Foreign(t, f) { assert seen + {f.index} == seen by { OwnIndex(t, f); } }
      WholeStays(s.log, OnData(s, f, a.recvAvailable).0.log, |rx.log|, t);
    } else if Foreign(t, f) {
      OthersKeepOut(s, t, f, a.recvAvailable);
    } else if seen == {} {
      if s.cur.None? && a.recvAvailable && !Cached(s, t) { OwnAccepted(rx, s, t, f, PartialOf(t, {}, 0)); }
    } else {
      OwnAccepted(rx, s, t, f, s.cur.value);
    }
  }

  lemma OwnIndex(t: Tx, f: DataFrame)
    requires OurFrame(t, f)
    ensures f.index in Range(t.frameCount) && Range(t.frameCount) + {f.index} == Range(t.frameCount)
  {
  }

  lemma {:induction false} TakenAmongSoFar(rx: Rx, t: Tx, arrivals: seq<Arrival>)
    requires Fresh(t) && Elsewhere(rx, t) && Mixed(t, arrivals)
    ensures TakenAmong(rx, ReceiveFrom(rx, arrivals), t, ArrivedAmong(rx, t, arrivals))
  {
    if arrivals != [] {
      hide TakenAmong, Fresh, OnData, OurFrame, Elsewhere, Cached;
      var init := arrivals[..|arrivals| - 1];
      assert forall i | 0 <= i < |init| :: init[i] == arrivals[i];
      TakenAmongSoFar(rx, t, init);
      TakeAmongNext(rx, ReceiveFrom(rx, init), t, ArrivedAmong(rx, t, init), arrivals[|arrivals| - 1]);
    }
  }

  /**
   * Whatever frames of whatever operations arrive, in any order and any number of times: from a receiver that is not
   * in the middle of it the operation completes exactly when all its frames have arrived, counted from the first that
   * finds the receiver free, a receive posted and its ACK not cached; and then with its bytes all there.
   */
  lemma CompletesAmongOthers(rx: Rx, t: Tx, arrivals: seq<Arrival>)
    requires Fresh(t) && Elsewhere(rx, t) && Mixed(t, arrivals)
    ensures var s := ReceiveFrom(rx, arrivals);
            var complete := ArrivedAmong(rx, t, arrivals) == Range(t.frameCount);
            && (Times(s.log, t.opId) > Times(rx.log, t.opId) <==> complete)
            && (complete ==> Whole(s.log, |rx.log|, t)) && rx.log <= s.log
  {
    hide ReceiveFrom, ArrivedAmong, SeenBytes, Times, Whole, Fresh;
    TakenAmongSoFar(rx, t, arrivals);
    FreshFacts(t);
  }

  /** The arrival that makes them all completes the operation, and the ACK it earns completes the sender. */
  lemma LastArrivalCompletes(rx: Rx, t: Tx, arrivals: seq<Arrival>, a: Arrival)
    requires Fresh(t) && Elsewhere(rx, t) && Mixed(t, arrivals + [a])
    requires ArrivedAmong(rx, t, arrivals) != Range(t.frameCount) == ArrivedAmong(rx, t, arrivals + [a])
    ensures var ev := OnData(ReceiveFrom(rx, arrivals), a.frame, a.recvAvailable).1;
            && ev.completion == Some(Completion(t.opId, CompOk)) && ev.ack.Some?
            && OnAck(t, ev.ack.value).0.state == Complete
  {
    assert (arrivals + [a])[..|arrivals|] == arrivals;
    assert forall i | 0 <= i < |arrivals| :: (arrivals + [a])[i] == arrivals[i];
    assert (arrivals + [a])[|arrivals|] == a;
    TakenAmongSoFar(rx, t, arrivals);
    TakeAmongNext(rx, ReceiveFrom(rx, arrivals), t, ArrivedAmong(rx, t, arrivals), a);
    assert !Foreign(t, a.frame);
    assert t.state == Ready;
    hide OnData, ReceiveFrom, Fresh, OurFrame, FrameAt, SeenBytes, Recent;
  }
}
