/**
 * Path-level credit flow control for native data frames (kernel/path.c, proto/native_data.h).
 *
 * One direction of a path: the sender spends a credit per data frame and the receiver returns credits
 * in batches. A packet that starts a group may only be posted when enough credits for the whole group,
 * up to one return batch, are at hand.
 */
module Credits {
  import opened Basics

  const CONTROL_RESERVE: nat := 256
  const BATCH: nat := 32

  /** tbv_path_data_credit_window: how many data frames a receive ring of this size admits. */
  function Window(ringSize: nat): nat {
    if ringSize == 0 then 0
    else
      var raw := if ringSize <= CONTROL_RESERVE then ringSize / 2 else ringSize - CONTROL_RESERVE;
      var whole := if raw > BATCH then raw - raw % BATCH else raw;
      if whole == 0 then 1 else whole
  }

  function ReturnThreshold(window: nat): nat {
    if 0 < window < BATCH then window else BATCH
  }

  function StartRequired(frames: nat, window: nat): nat {
    if frames == 0 then 0 else Min(frames, ReturnThreshold(window))
  }

  /** The credits a packet needs before it may be posted; `group` is its start_credit_group_frames. */
  function Required(group: nat, window: nat): nat {
    var start := StartRequired(group, window);
    if start > 1 then start else 1
  }

  // ----- the flow of credits -----

  /**
   * `queue` lists the group size of each waiting packet, 0 for a packet inside a group. A packet that has
   * been charged but not yet handed to the ring is `posting`. `holding` are batches the receiver has taken
   * out of `pending` but not yet queued as PATH_CREDIT frames; `wire` are such frames on their way.
   */
  datatype Flow = Flow(
    credits: nat, window: nat, queue: seq<nat>, posting: Option<nat>, outstanding: nat,
    pending: nat, holding: seq<nat>, wire: seq<nat>)

  datatype Step =
    | Enqueue(count: nat)
    | Charge
    | PostOk
    | PostFail(requeue: bool)
    | Deliver
    /** An uncharged READ status reply arrives; the receiver returns a credit for its opcode all the same. */
    | DeliverStatus
    | CreditSent(i: nat)
    | CreditSendFail(i: nat)
    | CreditArrive(i: nat)

  /** tbv_path_enqueue_data_list: the first packet of a list carries the group size. */
  function Group(count: nat): seq<nat>
    requires count > 0
  {
    [count] + seq(count - 1, _ => 0)
  }

  /** The sender side of tbv_path_add_remote_rx_credits. */
  function AddCredits(credits: nat, max: nat, n: nat): nat {
    if max == 0 || n == 0 then credits
    else if credits >= max || n > max - credits then max
    else credits + n
  }

  function Drop(s: seq<nat>, i: nat): seq<nat>
    requires i < |s|
  {
    s[..i] + s[i + 1..]
  }

  /** tbv_path_return_rx_data_credit for one frame. */
  function ReturnOne(s: Flow): Flow {
    if s.pending + 1 >= ReturnThreshold(s.window) then s.(pending := 0, holding := s.holding + [s.pending + 1])
    else s.(pending := s.pending + 1)
  }

  predicate Enabled(s: Flow, e: Step) {
    match e
    case Enqueue(count) => count > 0
    case Charge => s.posting.None? && s.queue != [] && s.credits >= Required(s.queue[0], s.window)
    case PostOk => s.posting.Some?
    case PostFail(_) => s.posting.Some?
    case Deliver => s.outstanding > 0
    case DeliverStatus => true
    case CreditSent(i) => i < |s.holding|
    case CreditSendFail(i) => i < |s.holding|
    case CreditArrive(i) => i < |s.wire|
  }

  function Apply(s: Flow, e: Step): Flow
    requires Enabled(s, e)
  {
    match e
    case Enqueue(count) => s.(queue := s.queue + Group(count))
    case Charge => s.(credits := s.credits - 1, posting := Some(s.queue[0]), queue := s.queue[1..])
    case PostOk => s.(posting := None, outstanding := s.outstanding + 1)
    case PostFail(requeue) =>
      s.(posting := None,
         queue := if requeue then [s.posting.value] + s.queue else s.queue,
         credits := if s.credits < s.window then s.credits + 1 else s.credits)
    case Deliver => ReturnOne(s.(outstanding := s.outstanding - 1))
    case DeliverStatus => ReturnOne(s)
    case CreditSent(i) => s.(holding := Drop(s.holding, i), wire := s.wire + [s.holding[i]])
    case CreditSendFail(i) => s.(holding := Drop(s.holding, i), pending := s.pending + s.holding[i])
    case CreditArrive(i) => s.(wire := Drop(s.wire, i), credits := AddCredits(s.credits, s.window, s.wire[i]))
  }

  /** tbv_path_set_remote_rx_capacity: the peer announced a ring of size `ringSize`. */
  function Start(ringSize: nat): Flow {
    Flow(Window(ringSize), Window(ringSize), [], None, 0, 0, [], [])
  }

  function RunFrom(s: Flow, steps: seq<Step>): Option<Flow> {
    if steps == [] then Some(s)
    else
      match RunFrom(s, steps[..|steps| - 1])
      case None => None
      case Some(t) => if Enabled(t, steps[|steps| - 1]) then Some(Apply(t, steps[|steps| - 1])) else None
  }

  function Sum(s: seq<nat>): nat {
    if s == [] then 0 else Sum(s[..|s| - 1]) + s[|s| - 1]
  }

  /** Every credit of the window, wherever it is. */
  function Total(s: Flow): nat {
    s.credits + (if s.posting.Some? then 1 else 0) + s.outstanding + s.pending + Sum(s.holding) + Sum(s.wire)
  }

  lemma {:induction false} SumDrop(s: seq<nat>, i: nat)
    requires i < |s|
    ensures Sum(Drop(s, i)) == Sum(s) - s[i]
    decreases |s|
  {
    var n := |s| - 1;
    if i < n {
      SumDrop(s[..n], i);
      assert Drop(s, i)[..n - 1] == Drop(s[..n], i);
    } else {
      assert Drop(s, i) == s[..n];
    }
  }

  lemma SumAppend(s: seq<nat>, x: nat)
    ensures Sum(s + [x]) == Sum(s) + x
  {
    assert (s + [x])[..|s|] == s;
  }

  lemma SumMember(s: seq<nat>, i: nat)
    requires i < |s|
    ensures s[i] <= Sum(s)
  {
    SumDrop(s, i);
  }

  /** The number of PATH_CREDIT frames that could not be queued. */
  function Fails(steps: seq<Step>): nat {
    if steps == [] then 0 else Fails(steps[..|steps| - 1]) + if steps[|steps| - 1].CreditSendFail? then 1 else 0
  }

  /** The number of READ status replies among the steps. */
  function Statuses(steps: seq<Step>): nat {
    if steps == [] then 0 else Statuses(steps[..|steps| - 1]) + if steps[|steps| - 1].DeliverStatus? then 1 else 0
  }

  lemma StepConserves(s: Flow, e: Step, extra: nat)
    requires Enabled(s, e) && s.window <= Total(s) <= s.window + extra && s.credits <= s.window
    ensures var t := Apply(s, e);
            && t.window == s.window && t.credits <= t.window
            && t.window <= Total(t) <= t.window + extra + if e.DeliverStatus? then 1 else 0
  {
    hide Sum, Drop, Group, Required, ReturnThreshold;
    match e
    case Deliver => SumAppend(s.holding, s.pending + 1);
    case DeliverStatus => SumAppend(s.holding, s.pending + 1);
    case CreditSent(i) =>
      SumDrop(s.holding, i);
      SumAppend(s.wire, s.holding[i]);
    case CreditSendFail(i) => SumDrop(s.holding, i);
    case CreditArrive(i) =>
      SumDrop(s.wire, i);
      SumMember(s.wire, i);
    case Enqueue(_) =>
    case Charge =>
    case PostOk =>
    case PostFail(_) =>
  }

  /**
   * Over any lossless run, whatever posts or credit sends fail, the credits at the sender, the charged frames
   * under way, the receiver's pending credits and the credits inside batches and PATH_CREDIT frames add up to
   * at least the window, and exceed it by at most one for every READ status reply.
   */
  lemma {:induction false} CreditsBounded(ringSize: nat, steps: seq<Step>)
    requires RunFrom(Start(ringSize), steps).Some?
    ensures var s := RunFrom(Start(ringSize), steps).value;
            && s.window == Window(ringSize) && s.credits <= s.window
            && Window(ringSize) <= Total(s) <= Window(ringSize) + Statuses(steps)
  {
    if steps != [] {
      CreditsBounded(ringSize, steps[..|steps| - 1]);
      var t, e := RunFrom(Start(ringSize), steps[..|steps| - 1]).value, steps[|steps| - 1];
      hide Apply, Enabled, Window;
      StepConserves(t, e, Statuses(steps[..|steps| - 1]));
    }
  }

  /**
   * Credit conservation: without READ status replies the sum is exactly the window. In particular returned
   * credits then never saturate.
   */
  lemma CreditsConserved(ringSize: nat, steps: seq<Step>)
    requires RunFrom(Start(ringSize), steps).Some? && Statuses(steps) == 0
    ensures var s := RunFrom(Start(ringSize), steps).value;
            && Total(s) == Window(ringSize)
            && forall i | 0 <= i < |s.wire| :: AddCredits(s.credits, s.window, s.wire[i]) == s.credits + s.wire[i]
  {
    CreditsBounded(ringSize, steps);
    var s := RunFrom(Start(ringSize), steps).value;
    forall i | 0 <= i < |s.wire| ensures AddCredits(s.credits, s.window, s.wire[i]) == s.credits + s.wire[i] {
      SumMember(s.wire, i);
    }
  }

  /** Data frames then never fill the peer's ring: 256 buffers, or half of a small ring, stay free for control frames. */
  lemma ControlReserveIsKept(ringSize: nat, steps: seq<Step>)
    requires RunFrom(Start(ringSize), steps).Some? && Statuses(steps) == 0 && ringSize >= 2
    ensures var s := RunFrom(Start(ringSize), steps).value;
            && s.outstanding <= Window(ringSize)
            && (ringSize > CONTROL_RESERVE ==> s.outstanding + CONTROL_RESERVE <= ringSize)
            && (ringSize <= CONTROL_RESERVE ==> 2 * s.outstanding <= ringSize)
  {
    CreditsConserved(ringSize, steps);
  }

  // ----- stalls -----

  /** Nothing is under way that could still bring credits back. */
  predicate Quiet(s: Flow) {
    s.posting.None? && s.outstanding == 0 && s.holding == [] && s.wire == []
  }

  /** A packet waits, nothing is under way, and the credit gate keeps it waiting. */
  predicate Stalled(s: Flow) {
    Quiet(s) && s.queue != [] && s.credits < Required(s.queue[0], s.window)
  }

  /** A stall is final short of a READ status reply: only new packets can arrive, and they queue behind the stalled one. */
  lemma StallIsFinal(s: Flow, e: Step)
    requires Stalled(s) && Enabled(s, e) && !e.DeliverStatus?
    ensures Stalled(Apply(s, e))
  {
  }

  /** What batches hold beyond 32 credits each, and what is pending beyond the 31 that no batch is due for. */
  function Excess(s: Flow): int {
    Sum(s.holding) - BATCH * |s.holding| + if s.pending >= BATCH then s.pending - (BATCH - 1) else 0
  }

  ghost predicate FullBatches(s: Flow) {
    forall i | 0 <= i < |s.holding| :: s.holding[i] >= BATCH
  }

  lemma DropFull(s: seq<nat>, i: nat)
    requires i < |s| && forall j | 0 <= j < |s| :: s[j] >= BATCH
    ensures forall j | 0 <= j < |Drop(s, i)| :: Drop(s, i)[j] >= BATCH
  {
  }

  lemma ExcessStep(s: Flow, e: Step)
    requires Enabled(s, e) && s.window >= BATCH && FullBatches(s)
    ensures var t := Apply(s, e);
            && t.window == s.window && FullBatches(t)
            && Excess(t) <= Excess(s) + if e.CreditSendFail? then BATCH else 0
  {
    hide Sum, Drop, Group, AddCredits, Required;
    match e
    case Deliver => SumAppend(s.holding, s.pending + 1);
    case DeliverStatus => SumAppend(s.holding, s.pending + 1);
    case CreditSent(i) =>
      SumDrop(s.holding, i);
      DropFull(s.holding, i);
      assert |Drop(s.holding, i)| == |s.holding| - 1 by { DropLength(s.holding, i); }
    case CreditSendFail(i) =>
      SumDrop(s.holding, i);
      DropFull(s.holding, i);
      assert |Drop(s.holding, i)| == |s.holding| - 1 by { DropLength(s.holding, i); }
    case _ =>
  }

  lemma DropLength(s: seq<nat>, i: nat)
    requires i < |s|
    ensures |Drop(s, i)| == |s| - 1
  {
  }

  /** Every failed send leaves at most one batch more among the credits the receiver sits on. */
  lemma {:induction false} ExcessBounded(ringSize: nat, steps: seq<Step>)
    requires Window(ringSize) >= BATCH && RunFrom(Start(ringSize), steps).Some?
    ensures var s := RunFrom(Start(ringSize), steps).value;
            s.window == Window(ringSize) && FullBatches(s) && Excess(s) <= BATCH * Fails(steps)
  {
    if steps != [] {
      var init := steps[..|steps| - 1];
      hide Window, Apply, Enabled, Excess, FullBatches;
      ExcessBounded(ringSize, init);
      ExcessStep(RunFrom(Start(ringSize), init).value, steps[|steps| - 1]);
    }
  }

  /** A window of one: the single credit is never merely pending unless a send has failed. */
  lemma {:induction false} NothingPending(ringSize: nat, steps: seq<Step>)
    requires Window(ringSize) == 1 && RunFrom(Start(ringSize), steps).Some? && Fails(steps) == 0
    ensures var s := RunFrom(Start(ringSize), steps).value; s.window == 1 && s.pending == 0
  {
    if steps != [] {
      NothingPending(ringSize, steps[..|steps| - 1]);
      hide Group, AddCredits, Drop, Window;
    }
  }

  /** The windows that `f` failed credit sends cannot deadlock: those of at least f + 2 batches, and 1 when none fails. */
  predicate Withstands(window: nat, f: nat) {
    (window == 1 && f == 0) || BATCH * (f + 2) <= window
  }

  lemma NoStallInRun(ringSize: nat, steps: seq<Step>)
    requires Withstands(Window(ringSize), Fails(steps)) && RunFrom(Start(ringSize), steps).Some?
    ensures !Stalled(RunFrom(Start(ringSize), steps).value)
  {
    CreditsBounded(ringSize, steps);
    if Window(ringSize) == 1 { NothingPending(ringSize, steps); } else { ExcessBounded(ringSize, steps); }
  }

  // ----- runs that reach a given state -----

  /** A run from `s0` with `f` failed sends and `k` status replies ends in `t`. */
  ghost predicate Reaches(s0: Flow, t: Flow, f: nat, k: nat) {
    exists steps: seq<Step> :: RunFrom(s0, steps) == Some(t) && Fails(steps) == f && Statuses(steps) == k
  }

  lemma Begin(s0: Flow)
    ensures Reaches(s0, s0, 0, 0)
  {
    assert RunFrom(s0, []) == Some(s0);
  }

  lemma Extend(s0: Flow, t: Flow, f: nat, k: nat, e: Step)
    requires Reaches(s0, t, f, k) && Enabled(t, e)
    ensures Reaches(s0, Apply(t, e), f + if e.CreditSendFail? then 1 else 0, k + if e.DeliverStatus? then 1 else 0)
  {
    hide Apply, Enabled;
    var steps: seq<Step> :| RunFrom(s0, steps) == Some(t) && Fails(steps) == f && Statuses(steps) == k;
    assert (steps + [e])[..|steps|] == steps;
    assert RunFrom(s0, steps + [e]) == Some(Apply(t, e));
  }

  /** No packet waits and no PATH_CREDIT frame is on its way. */
  function Rest(credits: nat, w: nat, outstanding: nat, pending: nat, holding: seq<nat>): Flow {
    Flow(credits, w, [], None, outstanding, pending, holding, [])
  }

  lemma PostOne(s0: Flow, c: nat, w: nat, o: nat, p: nat, h: seq<nat>, f: nat, k: nat)
    requires 0 < c <= w && Reaches(s0, Rest(c, w, o, p, h), f, k)
    ensures Reaches(s0, Rest(c - 1, w, o + 1, p, h), f, k)
  {
    assert Group(1) == [1] && [] + [1] == [1];
    var s := Rest(c, w, o, p, h);
    var s1 := s.(queue := [1]);
    var s2 := s.(credits := c - 1, posting := Some(1));
    assert Enabled(s, Enqueue(1)) && Apply(s, Enqueue(1)) == s1;
    assert Enabled(s1, Charge) && Apply(s1, Charge) == s2;
    assert Enabled(s2, PostOk) && Apply(s2, PostOk) == Rest(c - 1, w, o + 1, p, h);
    hide Reaches, Enabled, Apply;
    Extend(s0, s, f, k, Enqueue(1));
    Extend(s0, s1, f, k, Charge);
    Extend(s0, s2, f, k, PostOk);
  }

  lemma {:induction false} PostMany(s0: Flow, c: nat, w: nat, o: nat, p: nat, h: seq<nat>, n: nat, f: nat, k: nat)
    requires n <= c <= w && Reaches(s0, Rest(c, w, o, p, h), f, k)
    ensures Reaches(s0, Rest(c - n, w, o + n, p, h), f, k)
    decreases n
  {
    hide Reaches, Rest;
    if n > 0 {
      PostOne(s0, c, w, o, p, h, f, k);
      PostMany(s0, c - 1, w, o + 1, p, h, n - 1, f, k);
    }
  }

  /** Frames arrive without a batch falling due. */
  lemma {:induction false} DeliverMany(s0: Flow, c: nat, w: nat, o: nat, p: nat, h: seq<nat>, n: nat, f: nat, k: nat)
    requires n <= o && p + n < ReturnThreshold(w) && Reaches(s0, Rest(c, w, o, p, h), f, k)
    ensures Reaches(s0, Rest(c, w, o - n, p + n, h), f, k)
    decreases n
  {
    hide Reaches;
    if n > 0 {
      assert Apply(Rest(c, w, o, p, h), Deliver) == Rest(c, w, o - 1, p + 1, h);
      Extend(s0, Rest(c, w, o, p, h), f, k, Deliver);
      DeliverMany(s0, c, w, o - 1, p + 1, h, n - 1, f, k);
    }
  }

  /** A frame, or an uncharged status reply, completes a batch. */
  lemma BatchFallsDue(s0: Flow, c: nat, w: nat, o: nat, p: nat, h: seq<nat>, charged: bool, f: nat, k: nat)
    requires p + 1 >= ReturnThreshold(w) && (charged ==> o > 0) && Reaches(s0, Rest(c, w, o, p, h), f, k)
    ensures Reaches(s0, Rest(c, w, if charged then o - 1 else o, 0, h + [p + 1]), f, if charged then k else k + 1)
  {
    var e := if charged then Deliver else DeliverStatus;
    assert Apply(Rest(c, w, o, p, h), e) == Rest(c, w, if charged then o - 1 else o, 0, h + [p + 1]);
    hide Reaches;
    Extend(s0, Rest(c, w, o, p, h), f, k, e);
  }

  /** Frames arrive until a whole batch is due. */
  lemma DeliverBatch(s0: Flow, c: nat, w: nat, o: nat, h: seq<nat>, f: nat, k: nat)
    requires 0 < ReturnThreshold(w) <= o && Reaches(s0, Rest(c, w, o, 0, h), f, k)
    ensures Reaches(s0, Rest(c, w, o - ReturnThreshold(w), 0, h + [ReturnThreshold(w)]), f, k)
  {
    hide Reaches, Rest;
    var t := ReturnThreshold(w);
    DeliverMany(s0, c, w, o, 0, h, t - 1, f, k);
    BatchFallsDue(s0, c, w, o - (t - 1), t - 1, h, true, f, k);
  }

  /** The first of the held batches cannot be sent. */
  lemma BatchFails(s0: Flow, c: nat, w: nat, o: nat, p: nat, n: nat, h: seq<nat>, f: nat, k: nat)
    requires Reaches(s0, Rest(c, w, o, p, [n] + h), f, k)
    ensures Reaches(s0, Rest(c, w, o, p + n, h), f + 1, k)
  {
    assert Drop([n] + h, 0) == h;
    assert Apply(Rest(c, w, o, p, [n] + h), CreditSendFail(0)) == Rest(c, w, o, p + n, h);
    hide Reaches;
    Extend(s0, Rest(c, w, o, p, [n] + h), f, k, CreditSendFail(0));
  }

  /** The one held batch is sent and arrives. */
  lemma BatchReturns(s0: Flow, c: nat, w: nat, o: nat, p: nat, n: nat, f: nat, k: nat)
    requires 0 < n && c + n <= w && Reaches(s0, Rest(c, w, o, p, [n]), f, k)
    ensures Reaches(s0, Rest(c + n, w, o, p, []), f, k)
  {
    assert Drop([n], 0) == [] && [] + [n] == [n];
    var wired := Rest(c, w, o, p, []).(wire := [n]);
    assert Apply(Rest(c, w, o, p, [n]), CreditSent(0)) == wired;
    assert Apply(wired, CreditArrive(0)) == Rest(c + n, w, o, p, []);
    hide Reaches, Apply;
    Extend(s0, Rest(c, w, o, p, [n]), f, k, CreditSent(0));
    Extend(s0, wired, f, k, CreditArrive(0));
  }

  /** Nothing is under way and a packet of `n` frames asks for more credits than there are. */
  lemma LastPacketWaits(s0: Flow, s: Flow, n: nat, f: nat) returns (t: Flow)
    requires Quiet(s) && s.queue == [] && n > 0 && s.credits < Required(n, s.window) && Reaches(s0, s, f, 0)
    ensures Stalled(t) && Reaches(s0, t, f, 0)
  {
    var q := [] + Group(n);
    assert q[0] == n;
    hide Reaches;
    Extend(s0, s, f, 0, Enqueue(n));
    t := Apply(s, Enqueue(n));
  }

  // ----- stalls that are reached -----

  /** One frame makes the round trip to `pending`, then a group as large as a small window asks for every credit. */
  lemma StallReached(ringSize: nat) returns (steps: seq<Step>)
    requires 2 <= Window(ringSize) <= BATCH
    ensures RunFrom(Start(ringSize), steps).Some? && Fails(steps) == 0 && Statuses(steps) == 0
    ensures Stalled(RunFrom(Start(ringSize), steps).value)
  {
    var s, w := Start(ringSize), Window(ringSize);
    assert Reaches(s, Rest(w, w, 0, 0, []), 0, 0) by { Begin(s); }
    assert Reaches(s, Rest(w - 1, w, 0, 1, []), 0, 0) by {
      hide Reaches, Rest;
      PostOne(s, w, w, 0, 0, [], 0, 0);
      DeliverMany(s, w - 1, w, 1, 0, [], 1, 0, 0);
    }
    hide Reaches, Window;
    var t := LastPacketWaits(s, Rest(w - 1, w, 0, 1, []), w, 0);
    steps := RunTo(s, t, 0, 0);
  }

  lemma RunTo(s0: Flow, t: Flow, f: nat, k: nat) returns (steps: seq<Step>)
    requires Reaches(s0, t, f, k)
    ensures RunFrom(s0, steps) == Some(t) && Fails(steps) == f && Statuses(steps) == k
  {
    steps :| RunFrom(s0, steps) == Some(t) && Fails(steps) == f && Statuses(steps) == k;
  }

  /** With a window of one a single failed send leaves no credit to post with. */
  lemma OneFailureStrands(ringSize: nat) returns (steps: seq<Step>)
    requires Window(ringSize) == 1
    ensures RunFrom(Start(ringSize), steps).Some? && Fails(steps) == 1 && Statuses(steps) == 0
    ensures Stalled(RunFrom(Start(ringSize), steps).value)
  {
    var s := Start(ringSize);
    assert Reaches(s, Rest(1, 1, 0, 0, []), 0, 0) by { Begin(s); }
    BatchLost(s, 1);
    var t := LastPacketWaits(s, Rest(0, 1, 0, 1, []), 1, 1);
    steps := RunTo(s, t, 1, 0);
  }

  /** All the credits of a small window make one batch, and it cannot be sent. */
  lemma BatchLost(s0: Flow, w: nat)
    requires 0 < w == ReturnThreshold(w) && Reaches(s0, Rest(w, w, 0, 0, []), 0, 0)
    ensures Reaches(s0, Rest(0, w, 0, w, []), 1, 0)
  {
    assert [] + [w] == [w] && [w] + [] == [w];
    hide Reaches, Rest, ReturnThreshold;
    PostMany(s0, w, w, 0, 0, [], w, 0, 0);
    DeliverBatch(s0, 0, w, w, [], 0, 0);
    BatchFails(s0, 0, w, 0, 0, w, [], 0, 0);
  }

  /** One send fails, and the next batch carries its credits as well: the flow is back where it began. */
  lemma FailureRecovered(s0: Flow, w: nat, f: nat)
    requires w >= 2 * BATCH && Reaches(s0, Rest(w, w, 0, 0, []), f, 0)
    ensures Reaches(s0, Rest(w, w, 0, 0, []), f + 1, 0)
  {
    var c := w - BATCH - 1;
    assert [] + [BATCH] == [BATCH] && [BATCH] + [] == [BATCH] && [] + [BATCH + 1] == [BATCH + 1];
    hide Reaches, Rest;
    PostMany(s0, w, w, 0, 0, [], BATCH + 1, f, 0);
    DeliverBatch(s0, c, w, BATCH + 1, [], f, 0);
    BatchFails(s0, c, w, 1, 0, BATCH, [], f, 0);
    BatchFallsDue(s0, c, w, 1, BATCH, [], true, f + 1, 0);
    BatchReturns(s0, c, w, 0, 0, BATCH + 1, f + 1, 0);
  }

  lemma {:induction false} FailuresRecovered(ringSize: nat, f: nat)
    requires Window(ringSize) >= 2 * BATCH
    ensures Reaches(Start(ringSize), Start(ringSize), f, 0)
  {
    hide Reaches, Window;
    if f == 0 {
      Begin(Start(ringSize));
    } else {
      FailuresRecovered(ringSize, f - 1);
      FailureRecovered(Start(ringSize), Window(ringSize), f - 1);
    }
  }

  /** `n` batches of 32, none of them sent yet. */
  function Batches(n: nat): seq<nat> {
    seq(n, _ => BATCH)
  }

  lemma {:induction false} BatchesPile(s0: Flow, w: nat, n: nat, m: nat, f: nat)
    requires w >= BATCH && Reaches(s0, Rest(1, w, m + BATCH * n, 0, []), f, 0)
    ensures Reaches(s0, Rest(1, w, m, 0, Batches(n)), f, 0)
  {
    hide Reaches, Rest;
    if n == 0 {
      assert Batches(0) == [];
    } else {
      BatchesPile(s0, w, n - 1, m + BATCH, f);
      assert Batches(n - 1) + [BATCH] == Batches(n);
      DeliverBatch(s0, 1, w, m + BATCH, Batches(n - 1), f, 0);
    }
  }

  lemma {:induction false} BatchesFail(s0: Flow, w: nat, n: nat, p: nat, f: nat)
    requires Reaches(s0, Rest(1, w, 0, p, Batches(n)), f, 0)
    ensures Reaches(s0, Rest(1, w, 0, p + BATCH * n, []), f + n, 0)
    decreases n
  {
    hide Reaches, Rest;
    if n == 0 {
      assert Batches(0) == [];
    } else {
      assert [BATCH] + Batches(n - 1) == Batches(n);
      BatchFails(s0, 1, w, 0, p, BATCH, Batches(n - 1), f, 0);
      BatchesFail(s0, w, n - 1, p + BATCH, f + 1);
    }
  }

  /**
   * A window of n + 1 batches: n batches and 31 more frames are taken out of the ring, then every one of the n
   * sends fails. One credit is left at the sender, and a packet of two frames waits for ever.
   */
  lemma BatchesStrand(s0: Flow, w: nat, n: nat, f: nat)
    requires n >= 1 && w == BATCH * n + BATCH
    requires Reaches(s0, Rest(w, w, 0, 0, []), f, 0)
    ensures Reaches(s0, Rest(1, w, 0, w - 1, []), f + n, 0)
  {
    hide Reaches, Rest;
    PostMany(s0, w, w, 0, 0, [], w - 1, f, 0);
    BatchesPile(s0, w, n, BATCH - 1, f);
    DeliverMany(s0, 1, w, BATCH - 1, 0, Batches(n), BATCH - 1, f, 0);
    BatchesFail(s0, w, n, BATCH - 1, f);
  }

  /** Failed sends deadlock the gate once there are as many of them as the window has batches, less one. */
  lemma FailedSendsStrand(ringSize: nat, f: nat) returns (steps: seq<Step>)
    requires 2 * BATCH <= Window(ringSize) < BATCH * (f + 2)
    ensures RunFrom(Start(ringSize), steps).Some? && Fails(steps) == f && Statuses(steps) == 0
    ensures Stalled(RunFrom(Start(ringSize), steps).value)
  {
    var w := Window(ringSize);
    var n := w / BATCH - 1;
    WindowSizes(ringSize);
    assert w == BATCH * n + BATCH;
    hide Reaches, Window, Stalled;
    FailuresRecovered(ringSize, f - n);
    BatchesStrand(Start(ringSize), w, n, f - n);
    var t := LastPacketWaits(Start(ringSize), Rest(1, w, 0, w - 1, []), 2, f);
    steps := RunTo(Start(ringSize), t, f, 0);
  }

  /** No run with exactly `f` failed credit sends ends in a stall. */
  ghost predicate NeverStallsAfter(ringSize: nat, f: nat) {
    forall steps: seq<Step> ::
      RunFrom(Start(ringSize), steps).Some? && Fails(steps) == f ==> !Stalled(RunFrom(Start(ringSize), steps).value)
  }

  /** From 64 frames up, `f` failed credit sends are harmless exactly while the window holds f + 2 batches. */
  lemma FailuresToleratedExactly(ringSize: nat, f: nat)
    requires Window(ringSize) >= 2 * BATCH
    ensures NeverStallsAfter(ringSize, f) <==> BATCH * (f + 2) <= Window(ringSize)
  {
    hide RunFrom, Stalled, Window, Fails;
    if BATCH * (f + 2) <= Window(ringSize) {
      forall steps: seq<Step> | RunFrom(Start(ringSize), steps).Some? && Fails(steps) == f
        ensures !Stalled(RunFrom(Start(ringSize), steps).value)
      {
        NoStallInRun(ringSize, steps);
      }
    } else {
      var _ := FailedSendsStrand(ringSize, f);
    }
  }

  /** The credit gate never deadlocks framed traffic towards a ring of this size, at most `f` credit sends failing. */
  ghost predicate NeverStalls(ringSize: nat, f: nat) {
    forall g: nat | g <= f :: NeverStallsAfter(ringSize, g)
  }

  /** Exactly the rings, and the numbers of failed credit sends, for which the gate never deadlocks. */
  lemma NoStallExactly(ringSize: nat, f: nat)
    requires ringSize > 0
    ensures NeverStalls(ringSize, f) <==> Withstands(Window(ringSize), f)
    ensures NeverStalls(ringSize, 0) <==> ringSize <= 3 || 128 <= ringSize <= 257 || ringSize >= 320
  {
    NeverStallsCases(ringSize, f);
    NeverStallsCases(ringSize, 0);
    WindowSizes(ringSize);
  }

  lemma NeverStallsCases(ringSize: nat, f: nat)
    requires ringSize > 0
    ensures NeverStalls(ringSize, f) <==> Withstands(Window(ringSize), f)
  {
    WindowSizes(ringSize);
    hide Window;
    if Withstands(Window(ringSize), f) {
      forall g: nat | g <= f ensures NeverStallsAfter(ringSize, g) {
        forall steps: seq<Step> | RunFrom(Start(ringSize), steps).Some? && Fails(steps) == g
          ensures !Stalled(RunFrom(Start(ringSize), steps).value)
        {
          NoStallInRun(ringSize, steps);
        }
      }
    } else if Window(ringSize) == 1 {
      var _ := OneFailureStrands(ringSize);
      assert !NeverStallsAfter(ringSize, 1);
    } else if Window(ringSize) <= BATCH {
      var _ := StallReached(ringSize);
      assert !NeverStallsAfter(ringSize, 0);
    } else {
      FailuresToleratedExactly(ringSize, f);
    }
  }

  /** A window is 1 to 32 frames or a multiple of 32 from 64 up. */
  lemma WindowSizes(ringSize: nat)
    requires ringSize > 0
    ensures var w := Window(ringSize);
            && 1 <= w && (w <= BATCH || (w % BATCH == 0 && w >= 2 * BATCH))
            && (2 <= w <= BATCH <==> !(ringSize <= 3 || 128 <= ringSize <= 257 || ringSize >= 320))
  {
  }

  // ----- READ status replies -----

  /** A batch completed by a status reply returns one credit more than the data frames it answers. */
  lemma StatusAdmitsOneMore(s0: Flow, w: nat, t: nat, k: nat)
    requires 0 < t <= w && t == ReturnThreshold(w) && Reaches(s0, Rest(0, w, w + k, 0, []), 0, k)
    ensures Reaches(s0, Rest(0, w, w + k + 1, 0, []), 0, k + 1)
  {
    hide Reaches, Rest, ReturnThreshold;
    var m := w + k - (t - 1);
    assert [] + [t] == [t];
    DeliverMany(s0, 0, w, w + k, 0, [], t - 1, 0, k);
    BatchFallsDue(s0, 0, w, m, t - 1, [], false, 0, k);
    BatchReturns(s0, 0, w, m, 0, t, 0, k + 1);
    PostMany(s0, t, w, m, 0, [], t, 0, k + 1);
  }

  lemma {:induction false} OverWindow(s0: Flow, w: nat, k: nat)
    requires w > 0 && Reaches(s0, Rest(w, w, 0, 0, []), 0, 0)
    ensures Reaches(s0, Rest(0, w, w + k, 0, []), 0, k)
  {
    hide Reaches, Rest;
    if k == 0 {
      PostMany(s0, w, w, 0, 0, [], w, 0, 0);
    } else {
      OverWindow(s0, w, k - 1);
      StatusAdmitsOneMore(s0, w, ReturnThreshold(w), k - 1);
    }
  }

  /** No run with exactly `k` status replies has more than `n` data frames under way. */
  ghost predicate NeverAbove(ringSize: nat, k: nat, n: nat) {
    forall steps: seq<Step> ::
      RunFrom(Start(ringSize), steps).Some? && Statuses(steps) == k ==> RunFrom(Start(ringSize), steps).value.outstanding <= n
  }

  /**
   * Each READ status reply lets one data frame beyond the window: with `k` replies the window plus `k` is the
   * least bound. So the window is kept exactly when there is no reply, and the ring exactly while the buffers
   * outside the window number at least `k`.
   */
  lemma StatusRepliesBreakTheWindow(ringSize: nat, k: nat, n: nat)
    requires ringSize > 0
    ensures NeverAbove(ringSize, k, n) <==> Window(ringSize) + k <= n
    ensures NeverAbove(ringSize, k, Window(ringSize)) <==> k == 0
  {
    WindowSizes(ringSize);
    assert Reaches(Start(ringSize), Rest(Window(ringSize), Window(ringSize), 0, 0, []), 0, 0) by { Begin(Start(ringSize)); }
    OverWindow(Start(ringSize), Window(ringSize), k);
    var steps := RunTo(Start(ringSize), Rest(0, Window(ringSize), Window(ringSize) + k, 0, []), 0, k);
    hide Window, Statuses, RunFrom;
    forall r: seq<Step> | RunFrom(Start(ringSize), r).Some? && Statuses(r) == k
      ensures RunFrom(Start(ringSize), r).value.outstanding <= Window(ringSize) + k
    {
      CreditsBounded(ringSize, r);
    }
  }
}
