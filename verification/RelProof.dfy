/**
 * What the two reliability machines guarantee together and apart: the receiver never completes a recent
 * operation again, the sender stops, and over a network that loses, duplicates and reorders frames and
 * ACKs a sender that reports success knows the receiver took the whole operation.
 */
module RelProof {
  import opened Basics
  import opened RelSpec
  import Fragment

  // ----- the receiver, for any frames at all -----

  /** Operations completed within 16 completions of each other are different ones. */
  ghost predicate Apart(log: seq<Done>) {
    forall i, j | 0 <= i < j < |log| && j - i <= ACK_HISTORY :: log[i].ack.opId != log[j].ack.opId
  }

  ghost predicate CurOk(s: Rx) {
    s.cur.Some? ==>
      var p := s.cur.value;
      && 0 < p.count <= MAX_FRAGS && p.seen <= Range(p.count) && |p.seen| < p.count
      && forall d | d in Recent(s.log) :: d.ack.opId != p.opId
  }

  ghost predicate RxInv(s: Rx) {
    && Apart(s.log) && CurOk(s)
    && forall d | d in s.log :: d.ack.connId == s.connId && d.ack.status == ACK_OK
  }

  lemma Differ(log: seq<Done>, i: int, j: int)
    requires Apart(log) && 0 <= i < j < |log| && j - i <= ACK_HISTORY
    ensures log[i].ack.opId != log[j].ack.opId
  {
  }

  lemma RecentCovers(log: seq<Done>, i: nat)
    requires |log| - ACK_HISTORY <= i < |log|
    ensures log[i] in Recent(log)
  {
    if |log| > ACK_HISTORY { assert Recent(log)[i - (|log| - ACK_HISTORY)] == log[i]; }
  }

  lemma ApartSnoc(log: seq<Done>, d: Done)
    requires Apart(log) && forall e | e in Recent(log) :: e.ack.opId != d.ack.opId
    ensures Apart(log + [d])
  {
    forall i, j | 0 <= i < j < |log| + 1 && j - i <= ACK_HISTORY
      ensures (log + [d])[i].ack.opId != (log + [d])[j].ack.opId
    {
      if j == |log| { RecentCovers(log, i); }
    }
  }

  lemma AcceptInv(s: Rx, p: Partial, f: DataFrame)
    requires RxInv(s) && f.connId == s.connId && f.opId == p.opId && f.index < f.count == p.count <= MAX_FRAGS
    requires p.seen <= Range(p.count) && |p.seen| < p.count
    requires forall d | d in Recent(s.log) :: d.ack.opId != p.opId
    ensures RxInv(Accept(s, p, f).0)
  {
    hide Apart, Recent;
    var seen := p.seen + {f.index};
    SubsetOfRange(seen, p.count);
    ApartSnoc(s.log, Done(AckOf(f, ACK_OK), seen, (p.totalLen + f.length) % U32_MOD));
  }

  lemma OnDataInv(s: Rx, f: DataFrame, recvAvailable: bool)
    requires RxInv(s)
    ensures RxInv(OnData(s, f, recvAvailable).0)
  {
    hide Apart, Recent, Accept;
    if Validate(s, f) == Ok && f.connId == s.connId {
      if s.cur.None? {
        if FindAck(Recent(s.log), f.opId).None? { AcceptInv(s, Partial(f.opId, f.op, f.count, {}, 0), f); }
      } else if f.opId == s.cur.value.opId && f.count == s.cur.value.count {
        AcceptInv(s, s.cur.value, f);
      }
    }
  }

  datatype Arrival = Arrival(frame: DataFrame, recvAvailable: bool)

  function ReceiveFrom(s: Rx, arrivals: seq<Arrival>): Rx {
    if arrivals == [] then s
    else
      var a := arrivals[|arrivals| - 1];
      OnData(ReceiveFrom(s, arrivals[..|arrivals| - 1]), a.frame, a.recvAvailable).0
  }

  function Receive(connId: nat, maxPayload: nat, arrivals: seq<Arrival>): Rx {
    ReceiveFrom(InitRx(connId, maxPayload), arrivals)
  }

  /**
   * Whatever frames arrive, of whatever operations, an operation completes again only after more than 16
   * others have, so the cached ACKs belong to pairwise different operations.
   */
  lemma {:induction false} NoEarlyRepeat(connId: nat, maxPayload: nat, arrivals: seq<Arrival>)
    ensures RxInv(Receive(connId, maxPayload, arrivals))
    ensures var log := Receive(connId, maxPayload, arrivals).log;
            forall i, j | 0 <= i < j < |log| && log[i].ack.opId == log[j].ack.opId :: j - i > ACK_HISTORY
  {
    if arrivals != [] {
      NoEarlyRepeat(connId, maxPayload, arrivals[..|arrivals| - 1]);
      var a := arrivals[|arrivals| - 1];
      OnDataInv(Receive(connId, maxPayload, arrivals[..|arrivals| - 1]), a.frame, a.recvAvailable);
    }
  }

  /**
   * The bound is exact: between operations, a valid single-frame operation with a receive at hand completes
   * if and only if it is not among the last 16 completed ones.
   */
  lemma CompletesUnlessRecent(s: Rx, f: DataFrame)
    requires s.cur.None? && f.connId == s.connId && f.count == 1 && Validate(s, f) == Ok
    ensures OnData(s, f, true).1.completion.Some? <==> forall d | d in Recent(s.log) :: d.ack.opId != f.opId
    ensures OnData(s, f, true).1.completion.None? ==> OnData(s, f, true).0 == s && OnData(s, f, true).1.ack.Some?
  {
    hide Recent;
    assert {} + {f.index} == {f.index};
  }

  // ----- the receiver: the bound is reached -----

  /** The only frame of operation `opId`. */
  function SingleFrame(connId: nat, opId: nat): DataFrame { DataFrame(connId, opId, 0, 0, 0, 0, 1, 1) }

  /** Seventeen single-frame operations, each arriving whenever the other sixteen have. */
  function RoundRobin(connId: nat, n: nat): seq<Arrival> {
    seq(n, i => Arrival(SingleFrame(connId, i % (ACK_HISTORY + 1)), true))
  }

  lemma SingleCompletes(s: Rx, opId: nat)
    requires s.cur.None? && s.maxPayload > 0 && forall d | d in Recent(s.log) :: d.ack.opId != opId
    ensures var f := SingleFrame(s.connId, opId);
            OnData(s, f, true).0 == s.(log := s.log + [Done(AckOf(f, ACK_OK), {0}, 0)])
  {
    hide Recent;
    assert {} + {0} == {0 as nat};
  }

  /**
   * The bound of NoEarlyRepeat is reached: of 17 operations replayed in turn every single arrival completes, so
   * the replay of operation 0 as arrival 17 completes it a second time.
   */
  lemma {:induction false} ReplayCompletesAgain(connId: nat, maxPayload: nat, n: nat)
    requires maxPayload > 0
    ensures var s := Receive(connId, maxPayload, RoundRobin(connId, n));
            && s.connId == connId && s.maxPayload == maxPayload && s.cur.None? && |s.log| == n
            && forall i | 0 <= i < n :: s.log[i].ack.opId == i % (ACK_HISTORY + 1)
  {
    hide OnData, Recent;
    if n > 0 {
      ReplayCompletesAgain(connId, maxPayload, n - 1);
      var s := Receive(connId, maxPayload, RoundRobin(connId, n - 1));
      assert RoundRobin(connId, n)[..n - 1] == RoundRobin(connId, n - 1);
      NotRecent(s.log);
      SingleCompletes(s, (n - 1) % (ACK_HISTORY + 1));
    }
  }

  lemma NotRecent(log: seq<Done>)
    requires forall i | 0 <= i < |log| :: log[i].ack.opId == i % (ACK_HISTORY + 1)
    ensures forall d | d in Recent(log) :: d.ack.opId != |log| % (ACK_HISTORY + 1)
  {
    var r, first := Recent(log), if |log| <= ACK_HISTORY then 0 else |log| - ACK_HISTORY;
    forall d | d in r ensures d.ack.opId != |log| % (ACK_HISTORY + 1) {
      var j :| 0 <= j < |r| && r[j] == d;
      assert r[j] == log[first + j];
      ModuloDiffers(first + j, |log|);
    }
  }

  lemma ModuloDiffers(i: nat, n: nat)
    requires i < n <= i + ACK_HISTORY
    ensures i % (ACK_HISTORY + 1) != n % (ACK_HISTORY + 1)
  {
  }

  // ----- the receiver: an operation received in part -----

  /** The frame belongs to the operation being received. */
  predicate Continues(p: Partial, f: DataFrame) { f.opId == p.opId && f.op == p.op && f.count == p.count }

  /**
   * A partly received operation is never given up: as long as none of its own frames arrives, whatever else does
   * leaves the receiver as it is, and every valid frame of the connection is answered busy.
   */
  lemma {:induction false} AbandonedStaysBusy(s: Rx, arrivals: seq<Arrival>)
    requires s.cur.Some? && forall i | 0 <= i < |arrivals| :: !Continues(s.cur.value, arrivals[i].frame)
    ensures ReceiveFrom(s, arrivals) == s
    ensures forall i | 0 <= i < |arrivals| && Validate(s, arrivals[i].frame) == Ok && arrivals[i].frame.connId == s.connId ::
              OnData(ReceiveFrom(s, arrivals[..i]), arrivals[i].frame, arrivals[i].recvAvailable) == (s, SILENT.(code := Busy))
  {
    hide Validate, Accept, OnData, Continues;
    if arrivals != [] {
      var init, a := arrivals[..|arrivals| - 1], arrivals[|arrivals| - 1];
      assert forall i | 0 <= i < |init| :: init[i] == arrivals[i] && init[..i] == arrivals[..i];
      AbandonedStaysBusy(s, init);
      OthersAreBusy(s, a.frame, a.recvAvailable);
    }
  }

  lemma OthersAreBusy(s: Rx, f: DataFrame, avail: bool)
    requires s.cur.Some? && !Continues(s.cur.value, f)
    ensures OnData(s, f, avail).0 == s
    ensures Validate(s, f) == Ok && f.connId == s.connId ==> OnData(s, f, avail) == (s, SILENT.(code := Busy))
  {
    hide Validate, Accept;
  }

  // ----- what is answered and reported -----

  /** Exactly the operations that may start: those of 1 to 64 frames whose count does not wrap in 32 bits. */
  lemma StartsExactly(op: nat, totalLen: nat, maxPayload: nat)
    requires totalLen < 0x1_0000_0000 && maxPayload < 0x1_0000_0000
    ensures var known := 1 <= op <= 5 && maxPayload > 0;
            && (StartCode(op, totalLen, maxPayload) == Invalid <==> !known)
            && (StartCode(op, totalLen, maxPayload) == Ok <==>
                  known && (totalLen == 0 || totalLen + maxPayload <= 0x1_0000_0000) && totalLen <= 64 * maxPayload)
            && (StartCode(op, totalLen, maxPayload) in {Invalid, Ok, TooLong})
  {
    if maxPayload > 0 && totalLen > 0 {
      Fragment.WrappedCeilingExact(totalLen, maxPayload);
      Fragment.CeilingBounds(totalLen, maxPayload);
      var c := Fragment.Count(totalLen, maxPayload);
      if c <= 64 { Fragment.MulMonotone(c, 64, maxPayload); } else { Fragment.MulMonotone(65, c, maxPayload); }
    }
  }

  /** What a timeout reports: only an operation in flight without retries left is over, and it is reported as that. */
  lemma TimeoutReports(t: Tx)
    ensures var (u, c) := OnTimeout(t);
            && (c.Some? <==> t.state == InFlight && t.retryBudget == 0)
            && (c.Some? <==> t.Live() && !u.Live())
            && (c.Some? ==> c == Some(Completion(t.opId, RetryExhausted)) && u.state == Failed)
            && (c.None? && t.state == InFlight ==>
                  && u.state == InFlight && u.nextFrame == 0 && u.generation == (t.generation + 1) % 0x1_0000_0000
                  && u.retryBudget == (if t.retryBudget == 0xFFFF_FFFF then t.retryBudget else t.retryBudget - 1) && u.rnrBudget == t.rnrBudget)
  {
  }

  /** The ACK is for this operation, which is not over yet. */
  predicate Heard(t: Tx, a: AckFrame) { a.connId == t.connId && a.opId == t.opId && t.state != Complete && t.state != Failed }

  /** What an ACK reports, its status written as on the wire: 0 OK, 1 receiver not ready, 2 error. */
  lemma AckReports(t: Tx, a: AckFrame)
    ensures var (u, c) := OnAck(t, a);
            && (c == Some(Completion(t.opId, CompOk)) <==> Heard(t, a) && a.status == 0)
            && (c == Some(Completion(t.opId, RnrRetryExhausted)) <==> Heard(t, a) && a.status == 1 && t.rnrBudget == 0)
            && (c == Some(Completion(t.opId, RemoteError)) <==> Heard(t, a) && a.status == 2)
            && (c.Some? ==> c.value.opId == t.opId && c.value.status != RetryExhausted)
            && (u.state == Complete <==> t.state == Complete || (Heard(t, a) && a.status == 0))
            && (u.state == Failed <==> t.state == Failed || (c.Some? && c.value.status != CompOk))
            && (Heard(t, a) && a.status == 1 && t.rnrBudget > 0 ==>
                  && u.state == Ready && u.nextFrame == 0 && u.generation == (t.generation + 1) % 0x1_0000_0000
                  && u.rnrBudget == (if t.rnrBudget == 0xFFFF_FFFF then t.rnrBudget else t.rnrBudget - 1) && u.retryBudget == t.retryBudget)
            && (!Heard(t, a) || a.status > 2 ==> u == t)
  {
  }

  /** Exactly the frames the receiver looks at, and the code each of the others is refused with. */
  lemma ValidatesExactly(s: Rx, f: DataFrame)
    ensures var placed := && 1 <= f.op <= 5 && s.maxPayload > 0 && f.index < f.count <= 64
                          && f.offset == f.index * s.maxPayload % 0x1_0000_0000;
            && (Validate(s, f) == Ok <==> placed && f.length <= s.maxPayload)
            && (Validate(s, f) == TooLong <==> placed && f.length > s.maxPayload)
            && (Validate(s, f) == Invalid <==> !placed)
  {
  }

  /** A refused frame and one of another connection change nothing and are not answered. */
  lemma RefusedUnanswered(s: Rx, f: DataFrame, avail: bool)
    requires Validate(s, f) != Ok || f.connId != s.connId
    ensures var (u, ev) := OnData(s, f, avail);
            && u == s && ev.ack.None? && ev.completion.None? && !ev.duplicate && !ev.rnr
            && (Validate(s, f) != Ok ==> ev.code == Validate(s, f) && !ev.stale)
            && (Validate(s, f) == Ok ==> ev.code == Ok && ev.stale)
  {
  }

  /**
   * Between operations a valid frame gets the cached ACK when there is one, a receiver-not-ready answer of its own
   * generation when no receive is posted, and otherwise begins its operation.
   */
  lemma IdleAnswers(s: Rx, f: DataFrame, avail: bool)
    requires Validate(s, f) == Ok && f.connId == s.connId && s.cur.None?
    ensures var (u, ev), cached := OnData(s, f, avail), FindAck(Recent(s.log), f.opId);
            && (cached.Some? ==> u == s && ev == RxEvent(Ok, cached, None, true, false, false))
            && (cached.None? && !avail ==>
                  u == s && ev == RxEvent(Ok, Some(AckFrame(f.connId, f.opId, f.generation, 1)), None, false, false, true))
            && (cached.None? && avail ==> Begun(u, ev, s, f, Partial(f.opId, f.op, f.count, {}, 0)))
  {
    hide Validate, Recent;
  }

  /** A frame of the operation being received is taken, and one of another is refused as busy. */
  lemma BusyAnswers(s: Rx, f: DataFrame, avail: bool)
    requires Validate(s, f) == Ok && f.connId == s.connId && s.cur.Some?
    ensures var (u, ev) := OnData(s, f, avail);
            if f.opId == s.cur.value.opId && f.op == s.cur.value.op && f.count == s.cur.value.count then Begun(u, ev, s, f, s.cur.value)
            else u == s && ev == RxEvent(Busy, None, None, false, false, false)
  {
    hide Validate, Recent;
    var seen := s.cur.value.seen;
    assert f.index in seen ==> seen + {f.index} == seen;
  }

  /**
   * The frame is counted once; the one that makes all of them completes the operation with an OK answer of its own
   * generation, any other is not answered.
   */
  ghost predicate Begun(u: Rx, ev: RxEvent, s: Rx, f: DataFrame, p: Partial) {
    var again := f.index in p.seen;
    var seen, bytes := p.seen + {f.index}, if again then p.totalLen else (p.totalLen + f.length) % 0x1_0000_0000;
    if |seen| == p.count then
      && u == s.(cur := None, log := s.log + [Done(AckFrame(f.connId, f.opId, f.generation, 0), seen, bytes)])
      && ev == RxEvent(Ok, Some(AckFrame(f.connId, f.opId, f.generation, 0)), Some(Completion(f.opId, CompOk)), again, false, false)
    else
      && u == s.(cur := Some(Partial(p.opId, p.op, p.count, seen, bytes)))
      && ev == RxEvent(Ok, None, None, again, false, false)
  }

  // ----- the sender: termination -----

  /** Retransmission rounds still to come, counting the current one; 0 once the operation is over. */
  function Rounds(t: Tx): nat { if t.Live() then 1 + t.retryBudget + t.rnrBudget else 0 }

  /** Falls with every effective step. */
  function Potential(t: Tx): int {
    Rounds(t) * (t.frameCount + 1) - if t.Live() then t.nextFrame else 0
  }

  ghost predicate TxInv(t: Tx) {
    && 0 < t.frameCount <= MAX_FRAGS && t.nextFrame <= t.frameCount
    && (t.state == Ready ==> t.nextFrame == 0) && t.state != Empty
    && t.completions == if t.Live() then 0 else 1
  }

  predicate Finite(t: Tx) { t.retryBudget < INFINITE && t.rnrBudget < INFINITE }

  datatype TxStep = SEmit | STimeout | SAck(ack: AckFrame)

  function DoTx(t: Tx, e: TxStep): Tx {
    match e
    case SEmit => if NextCode(t) == Ok then Emit(t) else t
    case STimeout => OnTimeout(t).0
    case SAck(a) => OnAck(t, a).0
  }

  lemma StartedInv(connId: nat, opId: nat, op: nat, totalLen: nat, maxPayload: nat, retries: nat, rnrs: nat)
    requires StartCode(op, totalLen, maxPayload) == Ok
    ensures TxInv(Started(connId, opId, op, totalLen, maxPayload, retries, rnrs))
  {
  }

  /** Once over, an operation is never touched again; before that its completion count is 0 and becomes 1. */
  lemma DoTxInv(t: Tx, e: TxStep)
    requires TxInv(t)
    ensures TxInv(DoTx(t, e))
    ensures !t.Live() ==> DoTx(t, e) == t
  {
  }

  lemma RoundCost(rounds: int, rounds': int, width: nat, next: int)
    requires rounds' < rounds && next < width
    ensures rounds' * width < rounds * width - next
  {
    Fragment.MulMonotone(rounds' + 1, rounds, width);
    assert (rounds' + 1) * width == rounds' * width + width;
  }

  /** With finite budgets every step that changes anything lowers the potential. */
  lemma StepLowersPotential(t: Tx, e: TxStep)
    requires TxInv(t) && Finite(t)
    ensures Finite(DoTx(t, e)) && (DoTx(t, e) == t || Potential(DoTx(t, e)) < Potential(t))
  {
    var t' := DoTx(t, e);
    if t.Live() && Rounds(t') < Rounds(t) {
      RoundCost(Rounds(t), Rounds(t'), t.frameCount + 1, t.nextFrame);
    }
  }

  /** A live operation is never stuck: it can send a frame or, in flight, time out. */
  lemma LiveCanStep(t: Tx)
    requires TxInv(t) && t.Live() && Finite(t)
    ensures if t.state == Ready then DoTx(t, SEmit) != t else DoTx(t, STimeout) != t
  {
  }

  function TxRun(t: Tx, steps: seq<TxStep>): Tx {
    if steps == [] then t else DoTx(TxRun(t, steps[..|steps| - 1]), steps[|steps| - 1])
  }

  /** How many frames, and how many effective steps, a run makes. */
  function Frames(t: Tx, steps: seq<TxStep>): nat {
    if steps == [] then 0
    else
      Frames(t, steps[..|steps| - 1])
      + if steps[|steps| - 1] == SEmit && NextCode(TxRun(t, steps[..|steps| - 1])) == Ok then 1 else 0
  }

  function Effective(t: Tx, steps: seq<TxStep>): nat {
    if steps == [] then 0
    else
      Effective(t, steps[..|steps| - 1])
      + if TxRun(t, steps) != TxRun(t, steps[..|steps| - 1]) then 1 else 0
  }

  /**
   * Termination bound: from start, with finite budgets R and N, a run makes at most (1 + R + N) * (F + 1)
   * effective steps whatever ACKs arrive, it completes at most once, and never leaves its end state.
   */
  lemma {:induction false} SenderStops(t: Tx, steps: seq<TxStep>)
    requires TxInv(t) && t.state == Ready && Finite(t)
    ensures var u := TxRun(t, steps);
            && TxInv(u) && Finite(u) && u.frameCount == t.frameCount
            && Effective(t, steps) + Potential(u) <= Potential(t) == (1 + t.retryBudget + t.rnrBudget) * (t.frameCount + 1)
            && 0 <= Potential(u)
  {
    if steps != [] {
      var init := steps[..|steps| - 1];
      SenderStops(t, init);
      var u, e := TxRun(t, init), steps[|steps| - 1];
      DoTxInv(u, e);
      StepLowersPotential(u, e);
      assert DoTx(u, e).frameCount == u.frameCount;
      PotentialNat(DoTx(u, e));
    } else {
      PotentialNat(t);
    }
  }

  lemma PotentialNat(t: Tx)
    requires TxInv(t)
    ensures Potential(t) >= 0
  {
    if t.Live() { RoundCost(Rounds(t), 0, t.frameCount + 1, t.nextFrame); }
  }

  /** Budget units used up since `t`. */
  function Spent(t: Tx, u: Tx): int { t.retryBudget - u.retryBudget + t.rnrBudget - u.rnrBudget }

  /**
   * A run emits at most (1 + R + N) * F frames, and the retry generation is the budget spent so far
   * (as the u32 it is kept in).
   */
  lemma {:induction false} FramesBounded(t: Tx, steps: seq<TxStep>)
    requires TxInv(t) && t.state == Ready && Finite(t) && t.generation == 0
    ensures var u := TxRun(t, steps);
            && TxInv(u) && Finite(u) && u.frameCount == t.frameCount
            && 0 <= Spent(t, u) <= t.retryBudget + t.rnrBudget && u.generation == Spent(t, u) % U32_MOD
            && Frames(t, steps) <= Spent(t, u) * t.frameCount + u.nextFrame
    ensures Frames(t, steps) <= (1 + t.retryBudget + t.rnrBudget) * t.frameCount
  {
    if steps != [] {
      var init := steps[..|steps| - 1];
      FramesBounded(t, init);
      var u, e := TxRun(t, init), steps[|steps| - 1];
      DoTxInv(u, e);
      FramesStep(t, u, e, Frames(t, init));
    }
    Fragment.MulMonotone(Spent(t, TxRun(t, steps)) + 1, 1 + t.retryBudget + t.rnrBudget, t.frameCount);
    assert (Spent(t, TxRun(t, steps)) + 1) * t.frameCount == Spent(t, TxRun(t, steps)) * t.frameCount + t.frameCount;
  }

  lemma EmittedStep(u: Tx, e: TxStep, frames: nat)
    requires u.emitted == frames % 0x1_0000_0000
    ensures DoTx(u, e).emitted == (frames + if e == SEmit && NextCode(u) == Ok then 1 else 0) % 0x1_0000_0000
  {
  }

  /** The operation's frame counter is the number of frames sent since the start (as the u32 it is kept in). */
  lemma {:induction false} EmittedIsFrames(t: Tx, steps: seq<TxStep>)
    requires t.emitted == 0
    ensures TxRun(t, steps).emitted == Frames(t, steps) % 0x1_0000_0000
  {
    hide DoTx;
    if steps != [] {
      var init := steps[..|steps| - 1];
      EmittedIsFrames(t, init);
      EmittedStep(TxRun(t, init), steps[|steps| - 1], Frames(t, init));
    }
  }

  lemma SpendOne(spent: int, width: nat)
    requires spent >= 0
    ensures (spent + 1) * width == spent * width + width
    ensures Inc(spent % U32_MOD) == (spent + 1) % U32_MOD
  {
  }

  lemma FramesStep(t: Tx, u: Tx, e: TxStep, frames: nat)
    requires TxInv(u) && Finite(u) && u.frameCount == t.frameCount
    requires 0 <= Spent(t, u) && u.generation == Spent(t, u) % U32_MOD
    requires frames <= Spent(t, u) * t.frameCount + u.nextFrame
    ensures var v := DoTx(u, e);
            && Finite(v) && v.frameCount == t.frameCount
            && 0 <= Spent(t, v) && v.generation == Spent(t, v) % U32_MOD
            && frames + (if e == SEmit && NextCode(u) == Ok then 1 else 0) <= Spent(t, v) * t.frameCount + v.nextFrame
  {
    var v, spent := DoTx(u, e), Spent(t, u);
    SpendOne(spent, t.frameCount);
    assert Spent(t, v) == spent || (Spent(t, v) == spent + 1 && v.generation == Inc(u.generation) && v.nextFrame == 0);
    assert Spent(t, v) == spent ==> v.generation == u.generation;
  }
}
