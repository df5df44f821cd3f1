/**
 * The requester's queues (kernel/ibdev.c): pending sends and reads complete as a ready prefix in posting order,
 * and one counter bounds everything that is counted against max_send_wr.
 */
module SendQueue {
  import opened Basics
  import Psn

  /** A send or read context; `status` is Some once it is ready, `counted` is sq_counted. */
  datatype Ctx = Ctx(id: nat, psn: nat, status: Option<int>, counted: bool)

  /** Contexts that are counted but not queued yet number `preparing`; `count` is sendq_count. */
  datatype Queues = Queues(sends: seq<Ctx>, readQ: seq<Ctx>, preparing: nat, count: nat)

  const ECANCELED: int := -125

  function Counted(q: seq<Ctx>): nat {
    if q == [] then 0 else Counted(q[..|q| - 1]) + if q[|q| - 1].counted then 1 else 0
  }

  function Finished(c: Ctx): Ctx { c.(counted := false) }

  /** Drop the counter for one context; a context that is no longer counted does not count again. */
  function Release(count: nat, c: Ctx): nat { if c.counted then SubOrZero(count, 1) else count }

  // ----- operations on one list -----

  function FindPsn(q: seq<Ctx>, psn: nat): (r: Option<nat>)
    ensures r.Some? ==> r.value < |q| && q[r.value].psn == psn && forall i | 0 <= i < r.value :: q[i].psn != psn
    ensures r.None? ==> forall i | 0 <= i < |q| :: q[i].psn != psn
  {
    if q == [] then None
    else if q[0].psn == psn then Some(0)
    else
      var r := FindPsn(q[1..], psn);
      assert forall i | 0 < i < |q| :: q[i] == q[1..][i - 1];
      if r.None? then None else Some(r.value + 1)
  }

  function FindId(q: seq<Ctx>, id: nat): (r: Option<nat>)
    ensures r.Some? ==> r.value < |q| && q[r.value].id == id && forall i | 0 <= i < r.value :: q[i].id != id
    ensures r.None? ==> forall i | 0 <= i < |q| :: q[i].id != id
  {
    if q == [] then None
    else if q[0].id == id then Some(0)
    else
      var r := FindId(q[1..], id);
      assert forall i | 0 < i < |q| :: q[i] == q[1..][i - 1];
      if r.None? then None else Some(r.value + 1)
  }

  /** The first status sticks. */
  function Settle(c: Ctx, status: int): Ctx { if c.status.Some? then c else c.(status := Some(status)) }

  /** The ready prefix leaves, each context giving its count back. */
  function DrainReady(q: seq<Ctx>, count: nat): (seq<Ctx>, seq<Ctx>, nat) {
    if q == [] || q[0].status.None? then ([], q, count)
    else
      var (out, rest, n) := DrainReady(q[1..], Release(count, q[0]));
      ([Finished(q[0])] + out, rest, n)
  }

  /** tbv_qp_complete_send_ordered and tbv_qp_complete_read_ordered once the context is found at `k`. */
  function CompleteAt(q: seq<Ctx>, k: nat, status: int, count: nat): (seq<Ctx>, seq<Ctx>, nat)
    requires k < |q|
  {
    DrainReady(q[k := Settle(q[k], status)], count)
  }

  function ReleaseAll(q: seq<Ctx>, count: nat): nat {
    if q == [] then count else ReleaseAll(q[1..], Release(count, q[0]))
  }

  function Without(q: seq<Ctx>, k: nat): seq<Ctx>
    requires k < |q|
  {
    q[..k] + q[k + 1..]
  }

  // ----- runs -----

  datatype Event =
    | Reserve(live: bool)
    | Abandon
    | QueueSend(psn: nat)
    | QueueRead(psn: nat)
    | UnqueueSend(id: nat)
    | UnqueueRead(id: nat)
    | CompleteSend(psn: nat, status: int)
    | CompleteRead(id: nat, status: int)
    | FlushSends
    | FlushReads

  /** `sent` numbers the queued sends and `read` the queued reads; `out` and `readOut` have left, in order; `gone` failed to post. */
  datatype Run = Run(q: Queues, sent: nat, read: nat, out: seq<Ctx>, readOut: seq<Ctx>, gone: set<nat>, readGone: set<nat>)

  predicate Possible(r: Run, e: Event) {
    match e
    case Abandon => r.q.preparing > 0
    case QueueSend(_) => r.q.preparing > 0
    case QueueRead(_) => r.q.preparing > 0
    case _ => true
  }

  function FlushedSends(q: seq<Ctx>): seq<Ctx> {
    seq(|q|, i requires 0 <= i < |q| => Finished(Settle(q[i], ECANCELED)))
  }

  /** tbv_qp_flush_reads leaves the statuses alone; its callers report every flushed read as cancelled. */
  function FlushedReads(q: seq<Ctx>): seq<Ctx> {
    seq(|q|, i requires 0 <= i < |q| => Finished(q[i].(status := Some(ECANCELED))))
  }

  function Step(r: Run, maxWr: nat, e: Event): Run
    requires Possible(r, e)
  {
    var q := r.q;
    match e
    case Reserve(live) =>
      if live && q.count < maxWr then r.(q := q.(count := q.count + 1, preparing := q.preparing + 1)) else r
    case Abandon => r.(q := q.(count := SubOrZero(q.count, 1), preparing := q.preparing - 1))
    case QueueSend(psn) =>
      r.(q := q.(sends := q.sends + [Ctx(r.sent, psn, None, true)], preparing := q.preparing - 1), sent := r.sent + 1)
    case QueueRead(psn) =>
      r.(q := q.(readQ := q.readQ + [Ctx(r.read, psn, None, true)], preparing := q.preparing - 1), read := r.read + 1)
    case UnqueueSend(id) =>
      var k := FindId(q.sends, id);
      if k.None? then r
      else r.(q := q.(sends := Without(q.sends, k.value), count := Release(q.count, q.sends[k.value])), gone := r.gone + {id})
    case UnqueueRead(id) =>
      var k := FindId(q.readQ, id);
      if k.None? then r
      else r.(q := q.(readQ := Without(q.readQ, k.value), count := Release(q.count, q.readQ[k.value])), readGone := r.readGone + {id})
    case CompleteSend(psn, status) =>
      var k := FindPsn(q.sends, psn);
      if k.None? then r
      else
        var (out, rest, n) := CompleteAt(q.sends, k.value, status, q.count);
        r.(q := q.(sends := rest, count := n), out := r.out + out)
    case CompleteRead(id, status) =>
      var k := FindId(q.readQ, id);
      if k.None? then r
      else
        var (out, rest, n) := CompleteAt(q.readQ, k.value, status, q.count);
        r.(q := q.(readQ := rest, count := n), readOut := r.readOut + out)
    case FlushSends =>
      r.(q := q.(sends := [], count := ReleaseAll(q.sends, q.count)), out := r.out + FlushedSends(q.sends))
    case FlushReads =>
      r.(q := q.(readQ := [], count := ReleaseAll(q.readQ, q.count)), readOut := r.readOut + FlushedReads(q.readQ))
  }

  const EMPTY := Run(Queues([], [], 0, 0), 0, 0, [], [], {}, {})

  function RunFrom(r: Run, maxWr: nat, events: seq<Event>): Option<Run> {
    if events == [] then Some(r)
    else
      var prev := RunFrom(r, maxWr, events[..|events| - 1]);
      if prev.Some? && Possible(prev.value, events[|events| - 1]) then Some(Step(prev.value, maxWr, events[|events| - 1]))
      else None
  }

  // ----- the counter -----

  /** sendq_count is the number of counted contexts, wherever they are. */
  ghost predicate CountOk(q: Queues, maxWr: nat) {
    q.count == Counted(q.sends) + Counted(q.readQ) + q.preparing <= maxWr
  }

  lemma {:induction false} CountedFirst(q: seq<Ctx>)
    requires q != []
    ensures Counted(q) == (if q[0].counted then 1 else 0) + Counted(q[1..])
    decreases |q|
  {
    if |q| == 1 {
      assert q[..0] == [] && q[1..] == [];
    } else {
      var n := |q| - 1;
      CountedFirst(q[..n]);
      assert q[..n][1..] == q[1..][..n - 1];
    }
  }

  lemma CountedSnoc(q: seq<Ctx>, c: Ctx)
    ensures Counted(q + [c]) == Counted(q) + if c.counted then 1 else 0
  {
    assert (q + [c])[..|q|] == q;
  }

  lemma {:induction false} CountedWithout(q: seq<Ctx>, k: nat)
    requires k < |q|
    ensures Counted(Without(q, k)) == Counted(q) - if q[k].counted then 1 else 0
    decreases |q|
  {
    var n := |q| - 1;
    var rest := Without(q, k);
    if k < n {
      CountedWithout(q[..n], k);
      assert rest[..n - 1] == Without(q[..n], k);
    } else {
      assert rest == q[..n];
    }
  }

  lemma {:induction false} CountedSettled(q: seq<Ctx>, k: nat, status: int)
    requires k < |q|
    ensures Counted(q[k := Settle(q[k], status)]) == Counted(q)
    decreases |q|
  {
    var n := |q| - 1;
    var q' := q[k := Settle(q[k], status)];
    if k < n {
      CountedSettled(q[..n], k, status);
      assert q'[..n] == q[..n][k := Settle(q[..n][k], status)];
    } else {
      assert q'[..n] == q[..n];
    }
  }

  lemma {:induction false} DrainCounts(q: seq<Ctx>, count: nat)
    requires count >= Counted(q)
    ensures var (out, rest, n) := DrainReady(q, count); n - Counted(rest) == count - Counted(q) && Counted(rest) <= n <= count
    decreases |q|
  {
    hide Counted;
    if q != [] && q[0].status.Some? {
      CountedFirst(q);
      DrainCounts(q[1..], Release(count, q[0]));
    }
  }

  lemma {:induction false} ReleaseAllCounts(q: seq<Ctx>, count: nat)
    requires count >= Counted(q)
    ensures ReleaseAll(q, count) == count - Counted(q)
    decreases |q|
  {
    if q != [] {
      CountedFirst(q);
      hide Counted;
      ReleaseAllCounts(q[1..], Release(count, q[0]));
    }
  }

  lemma StepCount(r: Run, maxWr: nat, e: Event)
    requires CountOk(r.q, maxWr) && Possible(r, e)
    ensures CountOk(Step(r, maxWr, e).q, maxWr)
  {
    assert Counted([]) == 0;
    hide Counted, DrainReady, ReleaseAll, Without, Settle;
    match e
    case QueueSend(psn) => CountedSnoc(r.q.sends, Ctx(r.sent, psn, None, true));
    case QueueRead(psn) => CountedSnoc(r.q.readQ, Ctx(r.read, psn, None, true));
    case UnqueueSend(id) => if FindId(r.q.sends, id).Some? { CountedWithout(r.q.sends, FindId(r.q.sends, id).value); }
    case UnqueueRead(id) => if FindId(r.q.readQ, id).Some? { CountedWithout(r.q.readQ, FindId(r.q.readQ, id).value); }
    case CompleteSend(psn, status) =>
      var k := FindPsn(r.q.sends, psn);
      if k.Some? {
        CountedSettled(r.q.sends, k.value, status);
        DrainCounts(r.q.sends[k.value := Settle(r.q.sends[k.value], status)], r.q.count);
      }
    case CompleteRead(id, status) =>
      var k := FindId(r.q.readQ, id);
      if k.Some? {
        CountedSettled(r.q.readQ, k.value, status);
        DrainCounts(r.q.readQ[k.value := Settle(r.q.readQ[k.value], status)], r.q.count);
      }
    case FlushSends => ReleaseAllCounts(r.q.sends, r.q.count);
    case FlushReads => ReleaseAllCounts(r.q.readQ, r.q.count);
    case _ =>
  }

  /**
   * Over every run the counter is exactly the number of counted contexts and never exceeds max_send_wr. So it is
   * never 0 when a counted context is released, and the guard against that never fires.
   */
  lemma {:induction false} CounterIsExact(maxWr: nat, events: seq<Event>)
    requires RunFrom(EMPTY, maxWr, events).Some?
    ensures var q := RunFrom(EMPTY, maxWr, events).value.q;
            && q.count == Counted(q.sends) + Counted(q.readQ) + q.preparing <= maxWr
            && (forall i | 0 <= i < |q.sends| && q.sends[i].counted :: q.count > 0)
            && (forall i | 0 <= i < |q.readQ| && q.readQ[i].counted :: q.count > 0)
  {
    RunCount(maxWr, events);
    var q := RunFrom(EMPTY, maxWr, events).value.q;
    forall i | 0 <= i < |q.sends| && q.sends[i].counted ensures q.count > 0 { CountedWithout(q.sends, i); }
    forall i | 0 <= i < |q.readQ| && q.readQ[i].counted ensures q.count > 0 { CountedWithout(q.readQ, i); }
  }

  lemma {:induction false} RunCount(maxWr: nat, events: seq<Event>)
    requires RunFrom(EMPTY, maxWr, events).Some?
    ensures CountOk(RunFrom(EMPTY, maxWr, events).value.q, maxWr)
  {
    if events != [] {
      RunCount(maxWr, events[..|events| - 1]);
      StepCount(RunFrom(EMPTY, maxWr, events[..|events| - 1]).value, maxWr, events[|events| - 1]);
    }
  }

  // ----- order and statuses -----

  /** Contexts numbered upwards, all below `n`. */
  ghost predicate Rising(q: seq<Ctx>, n: nat) {
    && (forall i, j | 0 <= i < j < |q| :: q[i].id < q[j].id)
    && forall i | 0 <= i < |q| :: q[i].id < n
  }

  /** Every context number is in exactly one place: once in the list or gone, the list in posting order. */
  ghost predicate Placed(a: seq<Ctx>, gone: set<nat>, n: nat) {
    && Rising(a, n)
    && (forall i | 0 <= i < |a| :: a[i].id !in gone)
    && (forall g | g in gone :: g < n)
    && forall id: nat | id < n && id !in gone :: Has(a, id)
  }

  ghost predicate Has(a: seq<Ctx>, id: nat) { exists i :: 0 <= i < |a| && a[i].id == id }

  /** What has left comes before what waits. */
  ghost predicate Ordered(out: seq<Ctx>, waiting: seq<Ctx>, gone: set<nat>, n: nat) { Placed(out + waiting, gone, n) }

  /** A drain splits the queue: a ready prefix leaves unchanged but for the count, up to the first that is not ready. */
  lemma {:induction false} DrainSplits(q: seq<Ctx>, count: nat)
    ensures var (out, rest, _) := DrainReady(q, count);
            && |out| + |rest| == |q|
            && (forall i | 0 <= i < |out| :: out[i] == Finished(q[i]) && q[i].status.Some?)
            && (forall i | 0 <= i < |rest| :: rest[i] == q[|out| + i])
            && (rest != [] ==> rest[0].status.None?)
    decreases |q|
  {
    if q != [] && q[0].status.Some? {
      DrainSplits(q[1..], Release(count, q[0]));
      var (out1, rest1, _) := DrainReady(q[1..], Release(count, q[0]));
      assert forall i | 0 <= i < |rest1| :: rest1[i] == q[1..][|out1| + i];
    }
  }

  // ----- who may post -----

  /** Every queued context is counted until it leaves. */
  predicate AllCounted(q: seq<Ctx>) { forall i | 0 <= i < |q| :: q[i].counted }

  lemma CompletionKeepsCounted(q: seq<Ctx>, k: nat, status: int, count: nat)
    requires k < |q| && AllCounted(q)
    ensures AllCounted(CompleteAt(q, k, status, count).1)
  {
    hide DrainReady;
    DrainSplits(q[k := Settle(q[k], status)], count);
  }

  lemma {:induction false} CountedIsAll(q: seq<Ctx>)
    requires AllCounted(q)
    ensures Counted(q) == |q|
  {
    if q != [] { CountedIsAll(q[..|q| - 1]); }
  }

  lemma StepAllCounted(r: Run, maxWr: nat, e: Event)
    requires Possible(r, e) && AllCounted(r.q.sends) && AllCounted(r.q.readQ)
    ensures var t := Step(r, maxWr, e); AllCounted(t.q.sends) && AllCounted(t.q.readQ)
  {
    hide CompleteAt, FindPsn, FindId, ReleaseAll;
    match e
    case CompleteSend(psn, status) =>
      var k := FindPsn(r.q.sends, psn);
      if k.Some? { CompletionKeepsCounted(r.q.sends, k.value, status, r.q.count); }
    case CompleteRead(id, status) =>
      var k := FindId(r.q.readQ, id);
      if k.Some? { CompletionKeepsCounted(r.q.readQ, k.value, status, r.q.count); }
    case _ =>
  }

  lemma {:induction false} RunAllCounted(maxWr: nat, events: seq<Event>)
    requires RunFrom(EMPTY, maxWr, events).Some?
    ensures var q := RunFrom(EMPTY, maxWr, events).value.q; AllCounted(q.sends) && AllCounted(q.readQ)
  {
    hide Step, Possible, AllCounted;
    if events == [] {
      assert AllCounted(EMPTY.q.sends) && AllCounted(EMPTY.q.readQ) by { NoneUncounted(); }
    } else {
      RunAllCounted(maxWr, events[..|events| - 1]);
      StepAllCounted(RunFrom(EMPTY, maxWr, events[..|events| - 1]).value, maxWr, events[|events| - 1]);
    }
  }

  lemma NoneUncounted()
    ensures AllCounted([])
  {
  }

  /**
   * Over every run the counter is the number of sends and reads queued or being prepared. A reservation succeeds if and only
   * if the queue pair is live and there are fewer than max_send_wr of these, and one that is given up makes room again.
   */
  lemma SlotsExactly(maxWr: nat, events: seq<Event>, live: bool)
    requires RunFrom(EMPTY, maxWr, events).Some?
    ensures var r := RunFrom(EMPTY, maxWr, events).value;
            var busy := |r.q.sends| + |r.q.readQ| + r.q.preparing;
            && r.q.count == busy <= maxWr
            && Step(r, maxWr, Reserve(live))
               == (if live && busy < maxWr then r.(q := r.q.(count := busy + 1, preparing := r.q.preparing + 1)) else r)
            && (r.q.preparing > 0 ==> Step(r, maxWr, Abandon) == r.(q := r.q.(count := busy - 1, preparing := r.q.preparing - 1)))
  {
    hide RunFrom;
    RunAllCounted(maxWr, events);
    CounterIsExact(maxWr, events);
    var q := RunFrom(EMPTY, maxWr, events).value.q;
    CountedIsAll(q.sends);
    CountedIsAll(q.readQ);
  }

  function Ids(q: seq<Ctx>): seq<nat> { seq(|q|, i requires 0 <= i < |q| => q[i].id) }

  lemma SameIdsSameOrder(out: seq<Ctx>, waiting: seq<Ctx>, out': seq<Ctx>, waiting': seq<Ctx>, gone: set<nat>, n: nat)
    requires Ordered(out, waiting, gone, n) && Ids(out' + waiting') == Ids(out + waiting)
    ensures Ordered(out', waiting', gone, n)
  {
    var a, b := out + waiting, out' + waiting';
    assert |a| == |Ids(a)| == |b|;
    forall i | 0 <= i < |a| ensures b[i].id == a[i].id { assert Ids(b)[i] == Ids(a)[i]; }
    forall id: nat | id < n && id !in gone ensures Has(b, id) {
      assert Has(a, id);
      var i :| 0 <= i < |a| && a[i].id == id;
      assert b[i].id == id;
    }
  }

  lemma CompleteKeepsIds(q: seq<Ctx>, k: nat, status: int, count: nat)
    requires k < |q|
    ensures var (out, rest, _) := CompleteAt(q, k, status, count); Ids(out + rest) == Ids(q)
  {
    hide DrainReady, Ids, Settle;
    var q' := q[k := Settle(q[k], status)];
    SettledIds(q, k, status);
    DrainSplits(q', count);
    var (out, rest, _) := DrainReady(q', count);
    SplitIds(q', out, rest);
  }

  lemma SettledIds(q: seq<Ctx>, k: nat, status: int)
    requires k < |q|
    ensures Ids(q[k := Settle(q[k], status)]) == Ids(q)
  {
  }

  lemma SplitIds(q: seq<Ctx>, out: seq<Ctx>, rest: seq<Ctx>)
    requires |out| + |rest| == |q| && (forall i | 0 <= i < |out| :: out[i] == Finished(q[i]))
    requires forall i | 0 <= i < |rest| :: rest[i] == q[|out| + i]
    ensures Ids(out + rest) == Ids(q)
  {
    forall i | 0 <= i < |q| ensures Ids(out + rest)[i] == Ids(q)[i] {
      if i >= |out| { assert rest[i - |out|] == q[i]; }
    }
  }

  lemma MoveOut(out: seq<Ctx>, waiting: seq<Ctx>, more: seq<Ctx>, rest: seq<Ctx>, gone: set<nat>, n: nat)
    requires Ordered(out, waiting, gone, n) && Ids(more + rest) == Ids(waiting)
    ensures Ordered(out + more, rest, gone, n)
  {
    assert Ids((out + more) + rest) == Ids(out) + Ids(more + rest);
    assert Ids(out + waiting) == Ids(out) + Ids(waiting);
    hide Ids, Ordered;
    SameIdsSameOrder(out, waiting, out + more, rest, gone, n);
  }

  lemma AddLast(out: seq<Ctx>, waiting: seq<Ctx>, c: Ctx, gone: set<nat>, n: nat)
    requires Ordered(out, waiting, gone, n) && c.id == n
    ensures Ordered(out, waiting + [c], gone, n + 1)
  {
    var a, b := out + waiting, out + (waiting + [c]);
    assert b == a + [c];
    forall id: nat | id < n + 1 && id !in gone ensures Has(b, id) {
      if id < n {
        assert Has(a, id);
        var i :| 0 <= i < |a| && a[i].id == id;
        assert b[i].id == id;
      } else {
        assert b[|a|].id == id;
      }
    }
  }

  lemma WithoutHas(a: seq<Ctx>, m: nat, id: nat)
    requires m < |a| && Has(a, id) && id != a[m].id
    ensures Has(Without(a, m), id)
  {
    var i :| 0 <= i < |a| && a[i].id == id;
    assert Without(a, m)[if i < m then i else i - 1].id == id;
  }

  lemma WithoutPlaced(a: seq<Ctx>, m: nat, gone: set<nat>, n: nat)
    requires m < |a| && Placed(a, gone, n)
    ensures Placed(Without(a, m), gone + {a[m].id}, n)
  {
    forall id: nat | id < n && id !in gone + {a[m].id} ensures Has(Without(a, m), id) {
      assert Has(a, id);
      WithoutHas(a, m, id);
    }
    hide Has;
    var b := Without(a, m);
    assert forall i | 0 <= i < |b| :: b[i] == a[if i < m then i else i + 1];
  }

  lemma TakeAway(out: seq<Ctx>, waiting: seq<Ctx>, k: nat, gone: set<nat>, n: nat)
    requires Ordered(out, waiting, gone, n) && k < |waiting|
    ensures Ordered(out, Without(waiting, k), gone + {waiting[k].id}, n)
  {
    WithoutPlaced(out + waiting, |out| + k, gone, n);
    assert Without(out + waiting, |out| + k) == out + Without(waiting, k);
  }

  ghost predicate RunOrdered(r: Run) {
    Ordered(r.out, r.q.sends, r.gone, r.sent) && Ordered(r.readOut, r.q.readQ, r.readGone, r.read)
  }

  lemma StepOrdered(r: Run, maxWr: nat, e: Event)
    requires RunOrdered(r) && Possible(r, e)
    ensures RunOrdered(Step(r, maxWr, e))
  {
    hide Ordered, DrainReady, ReleaseAll, Without, Settle, FlushedSends, FlushedReads;
    match e
    case QueueSend(psn) => AddLast(r.out, r.q.sends, Ctx(r.sent, psn, None, true), r.gone, r.sent);
    case QueueRead(psn) => AddLast(r.readOut, r.q.readQ, Ctx(r.read, psn, None, true), r.readGone, r.read);
    case UnqueueSend(id) =>
      if FindId(r.q.sends, id).Some? { TakeAway(r.out, r.q.sends, FindId(r.q.sends, id).value, r.gone, r.sent); }
    case UnqueueRead(id) =>
      if FindId(r.q.readQ, id).Some? { TakeAway(r.readOut, r.q.readQ, FindId(r.q.readQ, id).value, r.readGone, r.read); }
    case CompleteSend(psn, status) =>
      var k := FindPsn(r.q.sends, psn);
      if k.Some? {
        CompleteKeepsIds(r.q.sends, k.value, status, r.q.count);
        var (out, rest, _) := CompleteAt(r.q.sends, k.value, status, r.q.count);
        MoveOut(r.out, r.q.sends, out, rest, r.gone, r.sent);
      }
    case CompleteRead(id, status) =>
      var k := FindId(r.q.readQ, id);
      if k.Some? {
        CompleteKeepsIds(r.q.readQ, k.value, status, r.q.count);
        var (out, rest, _) := CompleteAt(r.q.readQ, k.value, status, r.q.count);
        MoveOut(r.readOut, r.q.readQ, out, rest, r.readGone, r.read);
      }
    case FlushSends =>
      FlushKeepsIds(r.q.sends);
      MoveOut(r.out, r.q.sends, FlushedSends(r.q.sends), [], r.gone, r.sent);
    case FlushReads =>
      FlushKeepsIds(r.q.readQ);
      MoveOut(r.readOut, r.q.readQ, FlushedReads(r.q.readQ), [], r.readGone, r.read);
    case _ =>
  }

  lemma FlushKeepsIds(q: seq<Ctx>)
    ensures Ids(FlushedSends(q) + []) == Ids(q) && Ids(FlushedReads(q) + []) == Ids(q)
  {
  }

  /**
   * Sends leave in the order they were queued, and so do reads: what has left is followed, in posting order, by
   * what still waits, and every other queued context failed to post.
   */
  lemma {:induction false} LeavesInOrder(maxWr: nat, events: seq<Event>)
    requires RunFrom(EMPTY, maxWr, events).Some?
    ensures var r := RunFrom(EMPTY, maxWr, events).value;
            && Ordered(r.out, r.q.sends, r.gone, r.sent)
            && Ordered(r.readOut, r.q.readQ, r.readGone, r.read)
  {
    if events != [] {
      LeavesInOrder(maxWr, events[..|events| - 1]);
      hide Ordered, Step;
      StepOrdered(RunFrom(EMPTY, maxWr, events[..|events| - 1]).value, maxWr, events[|events| - 1]);
    }
  }

  /** A send's status, where the send is now. */
  ghost predicate HasStatus(a: seq<Ctx>, id: nat, status: int) {
    exists i :: 0 <= i < |a| && a[i].id == id && a[i].status == Some(status)
  }

  lemma KeepIn(a: seq<Ctx>, b: seq<Ctx>, id: nat, status: int)
    requires HasStatus(a, id, status)
    requires |a| <= |b| && forall i | 0 <= i < |a| :: b[i].id == a[i].id && (a[i].status.Some? ==> b[i].status == a[i].status)
    ensures HasStatus(b, id, status)
  {
    var i :| 0 <= i < |a| && a[i].id == id && a[i].status == Some(status);
    assert b[i].id == id;
  }

  lemma KeepWithout(a: seq<Ctx>, m: nat, id: nat, status: int)
    requires HasStatus(a, id, status) && m < |a| && a[m].id != id
    ensures HasStatus(Without(a, m), id, status)
  {
    var i :| 0 <= i < |a| && a[i].id == id && a[i].status == Some(status);
    assert Without(a, m)[if i < m then i else i - 1] == a[i];
  }

  lemma CompleteKeepsStatuses(out: seq<Ctx>, q: seq<Ctx>, k: nat, given: int, count: nat, id: nat, status: int)
    requires HasStatus(out + q, id, status) && k < |q|
    ensures var (more, rest, _) := CompleteAt(q, k, given, count); HasStatus((out + more) + rest, id, status)
  {
    DrainSplits(q[k := Settle(q[k], given)], count);
    hide DrainReady, HasStatus;
    var (more, rest, _) := CompleteAt(q, k, given, count);
    KeepIn(out + q, (out + more) + rest, id, status);
  }

  /** A status, once set, is never replaced: not by a second completion, not by a flush. Only a failed post removes the send. */
  lemma StatusIsSetOnce(r: Run, maxWr: nat, e: Event, id: nat, status: int)
    requires Possible(r, e) && HasStatus(r.out + r.q.sends, id, status) && e != UnqueueSend(id)
    ensures var t := Step(r, maxWr, e); HasStatus(t.out + t.q.sends, id, status)
  {
    hide HasStatus, DrainReady, CompleteAt;
    if e.CompleteSend? && FindPsn(r.q.sends, e.psn).Some? {
      CompleteKeepsStatuses(r.out, r.q.sends, FindPsn(r.q.sends, e.psn).value, e.status, r.q.count, id, status);
    } else if e.UnqueueSend? && FindId(r.q.sends, e.id).Some? {
      var k := FindId(r.q.sends, e.id).value;
      KeepWithout(r.out + r.q.sends, |r.out| + k, id, status);
      assert Without(r.out + r.q.sends, |r.out| + k) == r.out + Without(r.q.sends, k);
    } else {
      var t := Step(r, maxWr, e);
      KeepIn(r.out + r.q.sends, t.out + t.q.sends, id, status);
    }
  }

  // ----- which status -----

  /** Send or read `id` is the first in the queue with this PSN. */
  ghost predicate FirstWith(q: seq<Ctx>, psn: nat, id: nat) {
    exists k :: 0 <= k < |q| && q[k].id == id && q[k].psn == psn && forall j | 0 <= j < k :: q[j].psn != psn
  }

  ghost predicate Queued(q: seq<Ctx>, id: nat) { exists k :: 0 <= k < |q| && q[k].id == id }

  /** The status of position `i` after the one at `k` has been completed with `status`. */
  function StatusAfter(q: seq<Ctx>, k: nat, status: int, i: nat): Option<int>
    requires k < |q| && i < |q|
  {
    if i == k && q[k].status.None? then Some(status) else q[i].status
  }

  /** Completing a PSN gives its first queued send exactly that status when it has none, and touches no other status. */
  lemma CompletionTakesEffect(q: seq<Ctx>, k: nat, status: int, count: nat)
    requires k < |q|
    ensures var (out, rest, _) := CompleteAt(q, k, status, count);
            && |out| + |rest| == |q|
            && (forall i | 0 <= i < |out| :: out[i] == q[i].(status := StatusAfter(q, k, status, i), counted := false) && out[i].status.Some?)
            && (forall i | 0 <= i < |rest| :: rest[i] == q[|out| + i].(status := StatusAfter(q, k, status, |out| + i)))
            && (rest != [] ==> rest[0].status.None?)
  {
    var q' := q[k := Settle(q[k], status)];
    DrainSplits(q', count);
    assert forall i | 0 <= i < |q| :: q'[i] == q[i].(status := StatusAfter(q, k, status, i));
    hide DrainReady, Settle, StatusAfter;
  }

  /** A flush gives -125 to each send without a status and reports every read as -125. */
  lemma FlushTakesEffect(q: seq<Ctx>)
    ensures |FlushedSends(q)| == |q| == |FlushedReads(q)|
    ensures forall i | 0 <= i < |q| ::
              && FlushedSends(q)[i] == q[i].(status := Some(if q[i].status.Some? then q[i].status.value else -125), counted := false)
              && FlushedReads(q)[i] == q[i].(status := Some(-125), counted := false)
  {
  }

  /** The status send `id` has been given: by the first completion that found it, or -125 by a flush that found it without one. */
  ghost function Given(maxWr: nat, events: seq<Event>, id: nat): Option<int>
    requires RunFrom(EMPTY, maxWr, events).Some?
  {
    if events == [] then None
    else
      var init, e := events[..|events| - 1], events[|events| - 1];
      var before, q := Given(maxWr, init, id), RunFrom(EMPTY, maxWr, init).value.q.sends;
      if before.Some? then before
      else if e.CompleteSend? && FirstWith(q, e.psn, id) then Some(e.status)
      else if e.FlushSends? && Queued(q, id) then Some(-125)
      else None
  }

  /** The status read `id` has been given: by the first completion that found it, unless a flush found it and reports -125. */
  ghost function GivenRead(maxWr: nat, events: seq<Event>, id: nat): Option<int>
    requires RunFrom(EMPTY, maxWr, events).Some?
  {
    if events == [] then None
    else
      var init, e := events[..|events| - 1], events[|events| - 1];
      var before, q := GivenRead(maxWr, init, id), RunFrom(EMPTY, maxWr, init).value.q.readQ;
      if e.FlushReads? && Queued(q, id) then Some(-125)
      else if before.Some? then before
      else if e.CompleteRead? && e.id == id && Queued(q, id) then Some(e.status)
      else None
  }

  lemma UniqueId(a: seq<Ctx>, gone: set<nat>, n: nat, i: nat, j: nat)
    requires Placed(a, gone, n) && i < |a| && j < |a| && a[i].id == a[j].id
    ensures i == j
  {
  }

  lemma SamePlace(out: seq<Ctx>, q: seq<Ctx>, gone: set<nat>, n: nat, i: nat, j: nat)
    requires Ordered(out, q, gone, n) && i < |out + q| && j < |out + q| && (out + q)[i].id == (out + q)[j].id
    ensures i == j
  {
    UniqueId(out + q, gone, n, i, j);
  }

  /** Completing at `k`, in terms of who has which status. */
  lemma CompletionMoves(out: seq<Ctx>, q: seq<Ctx>, gone: set<nat>, n: nat, k: nat, status: int, count: nat, j: nat)
    requires Ordered(out, q, gone, n) && k < |q| && j < |out + q|
    ensures var (more, rest, _) := CompleteAt(q, k, status, count);
            var a, b := out + q, (out + more) + rest;
            && |b| == |a| && b[j].id == a[j].id
            && b[j].status == if a[j].id == q[k].id && a[j].status.None? then Some(status) else a[j].status
  {
    CompletionTakesEffect(q, k, status, count);
    hide CompleteAt, Ordered, Placed;
    assert (out + q)[|out| + k] == q[k];
    if (out + q)[j].id == q[k].id { SamePlace(out, q, gone, n, j, |out| + k); }
  }

  lemma NotBehind(out: seq<Ctx>, q: seq<Ctx>, gone: set<nat>, n: nat, j: nat)
    requires Ordered(out, q, gone, n) && j < |out + q|
    ensures Queued(q, (out + q)[j].id) <==> j >= |out|
  {
    hide Ordered, Placed;
    var a := out + q;
    if j >= |out| { assert q[j - |out|].id == a[j].id; }
    if Queued(q, a[j].id) {
      var k :| 0 <= k < |q| && q[k].id == a[j].id;
      assert a[|out| + k].id == a[j].id;
      SamePlace(out, q, gone, n, j, |out| + k);
    }
  }

  lemma FirstIsFound(q: seq<Ctx>, psn: nat, id: nat)
    ensures FirstWith(q, psn, id) <==> FindPsn(q, psn).Some? && id == q[FindPsn(q, psn).value].id
  {
    var r := FindPsn(q, psn);
    if FirstWith(q, psn, id) {
      var k :| 0 <= k < |q| && q[k].id == id && q[k].psn == psn && forall i | 0 <= i < k :: q[i].psn != psn;
      assert r.Some? && r.value == k;
    }
  }

  lemma IdIsFound(q: seq<Ctx>, id: nat)
    ensures Queued(q, id) <==> FindId(q, id).Some?
  {
  }

  ghost predicate AllOut(out: seq<Ctx>) { forall i | 0 <= i < |out| :: out[i].status.Some? }

  /** Every send out or waiting has the status it was given, every send out has one, and no number was given one before its turn. */
  ghost predicate SendsGiven(maxWr: nat, events: seq<Event>)
    requires RunFrom(EMPTY, maxWr, events).Some?
  {
    var r := RunFrom(EMPTY, maxWr, events).value;
    && AllOut(r.out)
    && (forall j | 0 <= j < |r.out + r.q.sends| :: (r.out + r.q.sends)[j].status == Given(maxWr, events, (r.out + r.q.sends)[j].id))
    && forall id: nat | Given(maxWr, events, id).Some? :: id < r.sent
  }

  ghost predicate ReadsGiven(maxWr: nat, events: seq<Event>)
    requires RunFrom(EMPTY, maxWr, events).Some?
  {
    var r := RunFrom(EMPTY, maxWr, events).value;
    && AllOut(r.readOut)
    && (forall j | 0 <= j < |r.readOut + r.q.readQ| ::
          (r.readOut + r.q.readQ)[j].status == GivenRead(maxWr, events, (r.readOut + r.q.readQ)[j].id))
    && forall id: nat | GivenRead(maxWr, events, id).Some? :: id < r.read
  }

  lemma CompletionLength(q: seq<Ctx>, k: nat, status: int, count: nat)
    requires k < |q|
    ensures var (out, rest, _) := CompleteAt(q, k, status, count); |out| + |rest| == |q|
  {
    CompletionTakesEffect(q, k, status, count);
  }

  /** Where the `j`-th send out or waiting comes from in one step, if it is not new, and what has become of its status. */
  lemma SendMoves(r: Run, maxWr: nat, e: Event, j: nat) returns (i: nat)
    requires RunOrdered(r) && Possible(r, e)
    requires j < |Step(r, maxWr, e).out + Step(r, maxWr, e).q.sends|
    ensures var t := Step(r, maxWr, e);
            var a, c := r.out + r.q.sends, (t.out + t.q.sends)[j];
            if i < |a| then
              && c.id == a[i].id
              && c.status == if a[i].status.Some? then a[i].status
                             else if e.CompleteSend? && FirstWith(r.q.sends, e.psn, c.id) then Some(e.status)
                             else if e.FlushSends? && Queued(r.q.sends, c.id) then Some(-125)
                             else None
            else e.QueueSend? && c.id == r.sent && c.status.None?
  {
    hide Ordered, CompleteAt, DrainReady, FirstWith, Queued, ReleaseAll;
    i := j;
    var a := r.out + r.q.sends;
    match e
    case CompleteSend(psn, status) =>
      var k := FindPsn(r.q.sends, psn);
      if k.Some? {
        CompletionLength(r.q.sends, k.value, status, r.q.count);
        CompletionMoves(r.out, r.q.sends, r.gone, r.sent, k.value, status, r.q.count, j);
      }
      FirstIsFound(r.q.sends, psn, a[j].id);
    case FlushSends =>
      NotBehind(r.out, r.q.sends, r.gone, r.sent, j);
    case UnqueueSend(id) =>
      var k := FindId(r.q.sends, id);
      if k.Some? && j >= |r.out| + k.value { i := j + 1; }
    case CompleteRead(id, _) =>
    case _ =>
  }

  lemma ReadMoves(r: Run, maxWr: nat, e: Event, j: nat) returns (i: nat)
    requires RunOrdered(r) && Possible(r, e)
    requires j < |Step(r, maxWr, e).readOut + Step(r, maxWr, e).q.readQ|
    ensures var t := Step(r, maxWr, e);
            var a, c := r.readOut + r.q.readQ, (t.readOut + t.q.readQ)[j];
            if i < |a| then
              && c.id == a[i].id
              && c.status == if e.FlushReads? && Queued(r.q.readQ, c.id) then Some(-125)
                             else if a[i].status.Some? then a[i].status
                             else if e.CompleteRead? && e.id == c.id && Queued(r.q.readQ, c.id) then Some(e.status)
                             else None
            else e.QueueRead? && c.id == r.read && c.status.None?
  {
    hide Ordered, CompleteAt, DrainReady, Queued, ReleaseAll;
    i := j;
    match e
    case CompleteRead(id, status) =>
      var k := FindId(r.q.readQ, id);
      if k.Some? {
        CompletionLength(r.q.readQ, k.value, status, r.q.count);
        CompletionMoves(r.readOut, r.q.readQ, r.readGone, r.read, k.value, status, r.q.count, j);
      }
      IdIsFound(r.q.readQ, id);
    case FlushReads =>
      NotBehind(r.readOut, r.q.readQ, r.readGone, r.read, j);
    case UnqueueRead(id) =>
      var k := FindId(r.q.readQ, id);
      if k.Some? && j >= |r.readOut| + k.value { i := j + 1; }
    case _ =>
  }

  lemma QueuedIsBelow(out: seq<Ctx>, q: seq<Ctx>, gone: set<nat>, n: nat, id: nat)
    requires Ordered(out, q, gone, n) && Queued(q, id)
    ensures id < n
  {
    var k :| 0 <= k < |q| && q[k].id == id;
    assert (out + q)[|out| + k].id == id;
  }

  lemma FirstIsQueued(q: seq<Ctx>, psn: nat, id: nat)
    ensures FirstWith(q, psn, id) ==> Queued(q, id)
  {
    if FirstWith(q, psn, id) {
      var k :| 0 <= k < |q| && q[k].id == id && q[k].psn == psn && forall j | 0 <= j < k :: q[j].psn != psn;
      assert q[k].id == id;
    }
  }

  lemma OutStaysReady(r: Run, maxWr: nat, e: Event)
    requires Possible(r, e) && AllOut(r.out) && AllOut(r.readOut)
    ensures AllOut(Step(r, maxWr, e).out) && AllOut(Step(r, maxWr, e).readOut)
    ensures r.sent <= Step(r, maxWr, e).sent && r.read <= Step(r, maxWr, e).read
  {
    hide DrainReady, CompleteAt, ReleaseAll;
    match e
    case CompleteSend(psn, status) =>
      var k := FindPsn(r.q.sends, psn);
      if k.Some? { CompletionTakesEffect(r.q.sends, k.value, status, r.q.count); }
    case CompleteRead(id, status) =>
      var k := FindId(r.q.readQ, id);
      if k.Some? { CompletionTakesEffect(r.q.readQ, k.value, status, r.q.count); }
    case _ =>
  }

  /**
   * Over every run: each send that has left has the status of the first completion that found it, or -125 from a
   * flush that found it without one, and each send that waits has none unless it was given one.
   */
  lemma {:induction false} SendsLeaveAsGiven(maxWr: nat, events: seq<Event>)
    requires RunFrom(EMPTY, maxWr, events).Some?
    ensures SendsGiven(maxWr, events)
  {
    if events != [] {
      var init, e := events[..|events| - 1], events[|events| - 1];
      SendsLeaveAsGiven(maxWr, init);
      ReadsLeaveAsGiven(maxWr, init);
      LeavesInOrder(maxWr, init);
      var r := RunFrom(EMPTY, maxWr, init).value;
      hide Ordered, Step, FirstWith, Queued;
      OutStaysReady(r, maxWr, e);
      var t := Step(r, maxWr, e);
      forall j | 0 <= j < |t.out + t.q.sends| ensures (t.out + t.q.sends)[j].status == Given(maxWr, events, (t.out + t.q.sends)[j].id) {
        var i := SendMoves(r, maxWr, e, j);
      }
      forall id: nat | Given(maxWr, events, id).Some? ensures id < t.sent {
        if Given(maxWr, init, id).None? {
          if e.CompleteSend? { FirstIsQueued(r.q.sends, e.psn, id); }
          QueuedIsBelow(r.out, r.q.sends, r.gone, r.sent, id);
        }
      }
    }
  }

  /** Likewise for reads, where a flush reports -125 whatever the read was given before. */
  lemma {:induction false} ReadsLeaveAsGiven(maxWr: nat, events: seq<Event>)
    requires RunFrom(EMPTY, maxWr, events).Some?
    ensures ReadsGiven(maxWr, events)
  {
    if events != [] {
      var init, e := events[..|events| - 1], events[|events| - 1];
      SendsLeaveAsGiven(maxWr, init);
      ReadsLeaveAsGiven(maxWr, init);
      LeavesInOrder(maxWr, init);
      var r := RunFrom(EMPTY, maxWr, init).value;
      hide Ordered, Step, FirstWith, Queued;
      OutStaysReady(r, maxWr, e);
      var t := Step(r, maxWr, e);
      forall j | 0 <= j < |t.readOut + t.q.readQ|
        ensures (t.readOut + t.q.readQ)[j].status == GivenRead(maxWr, events, (t.readOut + t.q.readQ)[j].id)
      {
        var i := ReadMoves(r, maxWr, e, j);
      }
      forall id: nat | GivenRead(maxWr, events, id).Some? ensures id < t.read {
        if GivenRead(maxWr, init, id).None? { QueuedIsBelow(r.readOut, r.q.readQ, r.readGone, r.read, id); }
      }
    }
  }

  // ----- the queues in place -----

  /** The send queue state of a queue pair: the two lists and sendq_count. */
  class SendQueues {
    const maxSendWr: nat
    var sendqCount: nat
    var pendingSends: seq<Ctx>
    var pendingReads: seq<Ctx>
    /** Contexts reserved but not queued, for the specification. */
    ghost var preparing: nat

    ghost function View(): Queues
      reads this
    {
      Queues(pendingSends, pendingReads, preparing, sendqCount)
    }

    constructor (maxWr: nat)
      ensures View() == EMPTY.q && CountOk(View(), maxSendWr) && maxSendWr == maxWr
    {
      maxSendWr, sendqCount, pendingSends, pendingReads, preparing := maxWr, 0, [], [], 0;
    }

    /** tbv_qp_reserve_sendq together with the sq_counted mark its callers set. */
    method ReserveSendq(live: bool) returns (ok: bool)
      requires CountOk(View(), maxSendWr)
      modifies `sendqCount, `preparing
      ensures CountOk(View(), maxSendWr)
      ensures ok == (live && old(sendqCount) < maxSendWr)
      ensures View() == if ok then old(View()).(count := old(sendqCount) + 1, preparing := old(preparing) + 1) else old(View())
    {
      if !live { return false; }
      if sendqCount >= maxSendWr { return false; }
      sendqCount, preparing := sendqCount + 1, preparing + 1;
      return true;
    }

    /** tbv_qp_release_sendq_counted_locked */
    method ReleaseCounted(c: Ctx) returns (c': Ctx)
      modifies `sendqCount
      ensures sendqCount == Release(old(sendqCount), c) && c' == Finished(c)
    {
      c' := c;
      if !c.counted { return; }
      sendqCount := SubOrZero(sendqCount, 1);
      c' := c.(counted := false);
    }

    /** tbv_qp_unqueue_send */
    method UnqueueSend(id: nat) returns (found: bool)
      modifies `sendqCount, `pendingSends
      ensures found == FindId(old(pendingSends), id).Some?
      ensures !found ==> View() == old(View())
      ensures found ==> var k := FindId(old(pendingSends), id).value;
                View() == old(View()).(sends := Without(old(pendingSends), k), count := Release(old(sendqCount), old(pendingSends)[k]))
    {
      var i := 0;
      while i < |pendingSends|
        invariant i <= |pendingSends| && forall j | 0 <= j < i :: pendingSends[j].id != id
        invariant View() == old(View())
      {
        if pendingSends[i].id == id {
          FirstId(pendingSends, id, i);
          var _ := ReleaseCounted(pendingSends[i]);
          pendingSends := pendingSends[..i] + pendingSends[i + 1..];
          return true;
        }
        i := i + 1;
      }
      return false;
    }

    /** tbv_qp_drain_ready_sends_locked */
    method DrainReadySends() returns (complete: seq<Ctx>)
      modifies `sendqCount, `pendingSends
      ensures (complete, pendingSends, sendqCount) == DrainReady(old(pendingSends), old(sendqCount))
      ensures preparing == old(preparing) && pendingReads == old(pendingReads)
    {
      complete := [];
      ghost var all := DrainReady(pendingSends, sendqCount);
      assert [] + all.0 == all.0;
      while pendingSends != []
        invariant complete + DrainReady(pendingSends, sendqCount).0 == all.0
        invariant DrainReady(pendingSends, sendqCount).1 == all.1 && DrainReady(pendingSends, sendqCount).2 == all.2
        decreases |pendingSends|
      {
        var send := pendingSends[0];
        if send.status.None? { break; }
        DrainFirst(pendingSends, sendqCount, complete);
        pendingSends := pendingSends[1..];
        var done := ReleaseCounted(send);
        complete := complete + [done];
      }
      assert DrainReady(pendingSends, sendqCount) == ([], pendingSends, sendqCount);
      assert complete + [] == complete;
    }

    /** tbv_qp_complete_send_ordered: the first send with the PSN gets its status if it has none, then the ready prefix leaves. */
    method CompleteSendOrdered(psn: nat, status: int) returns (found: bool, complete: seq<Ctx>)
      modifies `sendqCount, `pendingSends
      ensures var k := FindPsn(old(pendingSends), psn % Psn.MODULUS);
              && found == k.Some?
              && (!found ==> complete == [] && View() == old(View()))
              && (found ==> (complete, pendingSends, sendqCount) == CompleteAt(old(pendingSends), k.value, status, old(sendqCount)))
    {
      complete := [];
      var i := 0;
      while i < |pendingSends|
        invariant i <= |pendingSends| && forall j | 0 <= j < i :: pendingSends[j].psn != psn % Psn.MODULUS
        invariant View() == old(View())
      {
        var send := pendingSends[i];
        if send.psn == psn % Psn.MODULUS {
          FirstPsn(pendingSends, psn % Psn.MODULUS, i);
          if send.status.None? { pendingSends := pendingSends[i := send.(status := Some(status))]; }
          assert pendingSends == old(pendingSends)[i := Settle(send, status)];
          complete := DrainReadySends();
          return true, complete;
        }
        i := i + 1;
      }
      return false, [];
    }

    /** tbv_qp_flush_sends */
    method FlushSends() returns (flush: seq<Ctx>)
      modifies `sendqCount, `pendingSends
      ensures pendingSends == [] && sendqCount == ReleaseAll(old(pendingSends), old(sendqCount))
      ensures flush == FlushedSends(old(pendingSends))
      ensures preparing == old(preparing) && pendingReads == old(pendingReads)
    {
      flush := [];
      var i := 0;
      ghost var total := ReleaseAll(pendingSends, sendqCount);
      assert pendingSends[0..] == pendingSends;
      while i < |pendingSends|
        invariant i <= |pendingSends| && |flush| == i && pendingSends == old(pendingSends)
        invariant forall j | 0 <= j < i :: flush[j] == Finished(Settle(pendingSends[j], ECANCELED))
        invariant ReleaseAll(pendingSends[i..], sendqCount) == total
      {
        var send := pendingSends[i];
        if send.status.None? { send := send.(status := Some(ECANCELED)); }
        assert pendingSends[i..][1..] == pendingSends[i + 1..];
        send := ReleaseCounted(send);
        flush := flush + [send];
        i := i + 1;
      }
      assert pendingSends[i..] == [];
      pendingSends := [];
    }
  }

  lemma DrainFirst(q: seq<Ctx>, count: nat, before: seq<Ctx>)
    requires q != [] && q[0].status.Some?
    ensures var (out, rest, n) := DrainReady(q, count);
            var (out1, rest1, n1) := DrainReady(q[1..], Release(count, q[0]));
            before + out == (before + [Finished(q[0])]) + out1 && rest == rest1 && n == n1
  {
  }

  lemma {:induction false} FirstId(q: seq<Ctx>, id: nat, i: nat)
    requires i < |q| && q[i].id == id && forall j | 0 <= j < i :: q[j].id != id
    ensures FindId(q, id) == Some(i)
  {
    if i > 0 {
      assert forall j | 0 <= j < i - 1 :: q[1..][j] == q[j + 1];
      FirstId(q[1..], id, i - 1);
    }
  }

  lemma {:induction false} FirstPsn(q: seq<Ctx>, psn: nat, i: nat)
    requires i < |q| && q[i].psn == psn && forall j | 0 <= j < i :: q[j].psn != psn
    ensures FindPsn(q, psn) == Some(i)
  {
    if i > 0 {
      assert forall j | 0 <= j < i - 1 :: q[1..][j] == q[j + 1];
      FirstPsn(q[1..], psn, i - 1);
    }
  }
}
