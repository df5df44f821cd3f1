/**
 * The ordered completion queue (proto/reliability.c): operations are pushed in order, marked in any order
 * and released in order. The ring in place refines a plain FIFO, and the FIFO keeps every first status.
 */
module OrderQueue {
  import opened Basics

  const ORDER_MAX: nat := 128

  datatype Code = Ok | Invalid | NoSpace | Exists | NoEntry | Already

  /** A pushed operation; `status` is Some once it is ready. */
  datatype Slot = Slot(opId: nat, status: Option<nat>)

  datatype Released = Released(opId: nat, status: nat)

  // ----- the FIFO -----

  function Find(q: seq<Slot>, opId: nat): (r: Option<nat>)
    ensures r.None? <==> forall i | 0 <= i < |q| :: q[i].opId != opId
    ensures r.Some? ==> r.value < |q| && q[r.value].opId == opId && forall i | 0 <= i < r.value :: q[i].opId != opId
  {
    if q == [] then None
    else if q[0].opId == opId then Some(0)
    else
      var r := Find(q[1..], opId);
      assert forall i | 0 < i < |q| :: q[i] == q[1..][i - 1];
      if r.None? then None else Some(r.value + 1)
  }

  function Pushed(q: seq<Slot>, capacity: nat, opId: nat): (Code, seq<Slot>) {
    if capacity == 0 then (Invalid, q)
    else if |q| == capacity then (NoSpace, q)
    else if Find(q, opId).Some? then (Exists, q)
    else (Ok, q + [Slot(opId, None)])
  }

  function Marked(q: seq<Slot>, capacity: nat, opId: nat, status: nat): (Code, seq<Slot>) {
    if capacity == 0 then (Invalid, q)
    else if Find(q, opId).None? then (NoEntry, q)
    else
      var k := Find(q, opId).value;
      if q[k].status.Some? then (if q[k].status.value == status then Ok else Already, q)
      else (Ok, q[k := Slot(opId, Some(status))])
  }

  function Flushed(s: Slot, status: nat): Slot { if s.status.Some? then s else s.(status := Some(status)) }

  function AllFlushed(q: seq<Slot>, status: nat): seq<Slot> {
    seq(|q|, i requires 0 <= i < |q| => Flushed(q[i], status))
  }

  /** From `i` on, how far the queue is ready, up to `max`. */
  function ReadyUpTo(q: seq<Slot>, i: nat, max: nat): (n: nat)
    requires i <= |q| && i <= max
    ensures i <= n <= |q| && n <= max
    ensures forall k | i <= k < n :: q[k].status.Some?
    ensures n == max || n == |q| || q[n].status.None?
    decreases |q| - i
  {
    if i == |q| || i == max || q[i].status.None? then i else ReadyUpTo(q, i + 1, max)
  }

  function Freed(s: Slot): Released { Released(s.opId, if s.status.Some? then s.status.value else 0) }

  /** The longest ready prefix of at most `max` entries leaves the queue. */
  function Drained(q: seq<Slot>, max: nat): (seq<Released>, seq<Slot>) {
    var n := ReadyUpTo(q, 0, max);
    (seq(n, k requires 0 <= k < n => Freed(q[k])), q[n..])
  }

  // ----- runs -----

  /** The queue, everything pushed into it and everything released from it so far. */
  datatype Trace = Trace(q: seq<Slot>, pushed: seq<nat>, out: seq<Released>)

  datatype Event = DoPush(opId: nat) | DoMark(opId: nat, status: nat) | DoFlush(status: nat) | DoDrain(max: nat)

  function Step(t: Trace, capacity: nat, e: Event): Trace {
    match e
    case DoPush(op) =>
      var (code, q) := Pushed(t.q, capacity, op);
      t.(q := q, pushed := if code == Ok then t.pushed + [op] else t.pushed)
    case DoMark(op, status) => t.(q := Marked(t.q, capacity, op, status).1)
    case DoFlush(status) => t.(q := AllFlushed(t.q, status))
    case DoDrain(max) =>
      var (out, rest) := Drained(t.q, max);
      t.(q := rest, out := t.out + out)
  }

  function RunFrom(t: Trace, capacity: nat, events: seq<Event>): Trace {
    if events == [] then t
    else Step(RunFrom(t, capacity, events[..|events| - 1]), capacity, events[|events| - 1])
  }

  /** The status of the k-th push: where it is now, in the queue or released. */
  function StatusOf(t: Trace, k: nat): Option<nat> {
    if k < |t.out| then Some(t.out[k].status)
    else if k - |t.out| < |t.q| then t.q[k - |t.out|].status
    else None
  }

  function ReleasedOps(out: seq<Released>): seq<nat> { seq(|out|, k requires 0 <= k < |out| => out[k].opId) }

  function QueuedOps(q: seq<Slot>): seq<nat> { seq(|q|, k requires 0 <= k < |q| => q[k].opId) }

  /** The released operations, then the queued ones, are the pushed ones in order. */
  ghost predicate InOrder(t: Trace) { ReleasedOps(t.out) + QueuedOps(t.q) == t.pushed }

  /** What a drain releases is a prefix of the queue, all of it ready, and it stops only where it must. */
  lemma DrainPrefix(q: seq<Slot>, max: nat)
    ensures var (out, rest) := Drained(q, max);
            && |out| <= max && |out| + |rest| == |q|
            && (forall k | 0 <= k < |out| :: q[k] == Slot(out[k].opId, Some(out[k].status)))
            && (forall k | 0 <= k < |rest| :: rest[k] == q[|out| + k])
            && (|out| == max || rest == [] || rest[0].status.None?)
  {
    hide ReadyUpTo;
  }

  lemma DrainKeepsOps(t: Trace, max: nat)
    ensures var (out, rest) := Drained(t.q, max);
            ReleasedOps(t.out + out) + QueuedOps(rest) == ReleasedOps(t.out) + QueuedOps(t.q)
  {
    DrainPrefix(t.q, max);
    hide Drained;
    var (out, rest) := Drained(t.q, max);
    assert QueuedOps(t.q) == ReleasedOps(out) + QueuedOps(rest);
    assert ReleasedOps(t.out + out) == ReleasedOps(t.out) + ReleasedOps(out);
    assert ReleasedOps(t.out) + (ReleasedOps(out) + QueuedOps(rest))
           == (ReleasedOps(t.out) + ReleasedOps(out)) + QueuedOps(rest);
  }

  lemma StepInOrder(t: Trace, capacity: nat, e: Event)
    requires InOrder(t)
    ensures InOrder(Step(t, capacity, e))
  {
    match e
    case DoDrain(max) =>
      DrainKeepsOps(t, max);
      hide Drained, ReleasedOps, QueuedOps;
    case DoPush(op) =>
      var q := Pushed(t.q, capacity, op).1;
      assert q != t.q ==> QueuedOps(q) == QueuedOps(t.q) + [op];
      hide ReleasedOps, QueuedOps;
      assert ReleasedOps(t.out) + (QueuedOps(t.q) + [op]) == (ReleasedOps(t.out) + QueuedOps(t.q)) + [op];
    case DoMark(op, status) =>
      assert QueuedOps(Marked(t.q, capacity, op, status).1) == QueuedOps(t.q);
    case DoFlush(status) =>
      assert QueuedOps(AllFlushed(t.q, status)) == QueuedOps(t.q);
  }

  /** No step changes a status once given, wherever the operation is by then. */
  lemma StepKeepsStatus(t: Trace, capacity: nat, e: Event, k: nat)
    requires StatusOf(t, k).Some?
    ensures StatusOf(Step(t, capacity, e), k) == StatusOf(t, k)
  {
    if e.DoDrain? { DrainPrefix(t.q, e.max); }
    hide Drained;
  }

  /** Over any run the releases, taken together, are a prefix of the pushes, in push order. */
  lemma {:induction false} ReleasesArePushesInOrder(capacity: nat, events: seq<Event>)
    ensures var t := RunFrom(Trace([], [], []), capacity, events);
            InOrder(t) && ReleasedOps(t.out) <= t.pushed
  {
    if events != [] {
      var init := events[..|events| - 1];
      ReleasesArePushesInOrder(capacity, init);
      StepInOrder(RunFrom(Trace([], [], []), capacity, init), capacity, events[|events| - 1]);
    }
  }

  /** The first status an operation is given is the one it is released with; later marks and flushes lose. */
  lemma {:induction false} FirstStatusWins(t: Trace, capacity: nat, events: seq<Event>, k: nat)
    requires StatusOf(t, k).Some?
    ensures StatusOf(RunFrom(t, capacity, events), k) == StatusOf(t, k)
  {
    if events != [] {
      FirstStatusWins(t, capacity, events[..|events| - 1], k);
      StepKeepsStatus(RunFrom(t, capacity, events[..|events| - 1]), capacity, events[|events| - 1], k);
    }
  }

  /** Statuses come only from marks of that very operation and from flushes. */
  lemma StatusIsGiven(t: Trace, capacity: nat, e: Event, k: nat)
    requires InOrder(t) && StatusOf(t, k).None? && k < |Step(t, capacity, e).pushed|
    ensures var s := StatusOf(Step(t, capacity, e), k);
            s.Some? ==> e == DoFlush(s.value) || (k < |t.pushed| && e == DoMark(t.pushed[k], s.value))
  {
    hide Drained, InOrder, ReadyUpTo;
    if |t.out| <= k < |t.pushed| { PushedAt(t, k); }
    if e.DoDrain? { DrainPrefix(t.q, e.max); }
    QueuedIsPushed(t);
  }

  lemma PushedAt(t: Trace, k: nat)
    requires InOrder(t) && |t.out| <= k < |t.pushed|
    ensures k - |t.out| < |t.q| && t.q[k - |t.out|].opId == t.pushed[k]
  {
    assert QueuedOps(t.q)[k - |t.out|] == t.pushed[k];
  }

  lemma QueuedIsPushed(t: Trace)
    requires InOrder(t)
    ensures |t.out| + |t.q| == |t.pushed|
  {
    assert |ReleasedOps(t.out) + QueuedOps(t.q)| == |t.pushed|;
  }

  ghost predicate Unique(q: seq<Slot>) { forall i, j | 0 <= i < j < |q| :: q[i].opId != q[j].opId }

  lemma StepUnique(t: Trace, capacity: nat, e: Event)
    requires Unique(t.q)
    ensures Unique(Step(t, capacity, e).q)
  {
    if e.DoDrain? { DrainPrefix(t.q, e.max); }
    hide Drained;
  }

  /** Over any run the queued operations are pairwise different: a mark can mean only one of them. */
  lemma {:induction false} QueuedAreDifferent(capacity: nat, events: seq<Event>)
    ensures Unique(RunFrom(Trace([], [], []), capacity, events).q)
  {
    if events != [] {
      QueuedAreDifferent(capacity, events[..|events| - 1]);
      StepUnique(RunFrom(Trace([], [], []), capacity, events[..|events| - 1]), capacity, events[|events| - 1]);
    }
  }

  // ----- operations take effect -----

  /** A push is refused without capacity, when the queue is full and while the operation is queued; else it goes to the end, not ready. */
  lemma PushTakesEffect(q: seq<Slot>, capacity: nat, opId: nat)
    ensures var (code, r) := Pushed(q, capacity, opId);
            var queued := exists i :: 0 <= i < |q| && q[i].opId == opId;
            && (code == Invalid <==> capacity == 0)
            && (code == NoSpace <==> capacity > 0 && |q| == capacity)
            && (code == Exists <==> capacity > 0 && |q| != capacity && queued)
            && (code == Ok <==> capacity > 0 && |q| != capacity && !queued)
            && r == (if code == Ok then q + [Slot(opId, None)] else q)
  {
  }

  /** Marking an operation that has no status gives its position exactly that status; anything else changes nothing. */
  lemma MarkTakesEffect(q: seq<Slot>, capacity: nat, opId: nat, status: nat)
    requires Unique(q)
    ensures var (code, r) := Marked(q, capacity, opId, status);
            && (code == Invalid <==> capacity == 0)
            && (code == NoEntry <==> capacity > 0 && forall i | 0 <= i < |q| :: q[i].opId != opId)
            && (code == Already <==> capacity > 0 && exists i :: 0 <= i < |q| && q[i].opId == opId && q[i].status.Some? && q[i].status.value != status)
            && code in {Invalid, NoEntry, Already, Ok}
            && |r| == |q|
            && forall i | 0 <= i < |q| ::
                 r[i] == if capacity > 0 && q[i].opId == opId && q[i].status.None? then Slot(opId, Some(status)) else q[i]
  {
  }

  /** A flush gives the status to every position that has none, and only to those. */
  lemma FlushTakesEffect(q: seq<Slot>, status: nat)
    ensures var r := AllFlushed(q, status);
            && |r| == |q|
            && forall i | 0 <= i < |q| :: r[i] == Slot(q[i].opId, Some(if q[i].status.Some? then q[i].status.value else status))
  {
  }

  /** Over a run: a mark of a pushed, unreleased operation without status gives it that status, wherever it stands. */
  lemma MarkedGetsStatus(capacity: nat, events: seq<Event>, k: nat, status: nat)
    requires var t := RunFrom(Trace([], [], []), capacity, events);
             |t.out| <= k < |t.pushed| && StatusOf(t, k).None? && capacity > 0
    ensures var t := RunFrom(Trace([], [], []), capacity, events);
            && StatusOf(Step(t, capacity, DoMark(t.pushed[k], status)), k) == Some(status)
            && StatusOf(Step(t, capacity, DoFlush(status)), k) == Some(status)
  {
    ReleasesArePushesInOrder(capacity, events);
    QueuedAreDifferent(capacity, events);
    hide RunFrom;
    var t := RunFrom(Trace([], [], []), capacity, events);
    assert QueuedOps(t.q)[k - |t.out|] == t.pushed[k];
    MarkTakesEffect(t.q, capacity, t.pushed[k], status);
    FlushTakesEffect(t.q, status);
    hide Marked, AllFlushed;
  }

  /** Over a run: once the k-th push and everything before it has a status, the next drain with room releases it with that status. */
  lemma ReadyIsReleased(capacity: nat, events: seq<Event>, k: nat, max: nat)
    requires var t := RunFrom(Trace([], [], []), capacity, events);
             && |t.out| <= k < |t.pushed| && k - |t.out| < max
             && forall j | |t.out| <= j <= k :: StatusOf(t, j).Some?
    ensures var t := RunFrom(Trace([], [], []), capacity, events);
            var u := Step(t, capacity, DoDrain(max));
            |u.out| > k && u.out[k] == Released(t.pushed[k], StatusOf(t, k).value)
  {
    ReleasesArePushesInOrder(capacity, events);
    hide RunFrom, StatusOf, InOrder, Step;
    ReadyLeaves(RunFrom(Trace([], [], []), capacity, events), capacity, k, max);
  }

  lemma ReadyLeaves(t: Trace, capacity: nat, k: nat, max: nat)
    requires InOrder(t) && |t.out| <= k < |t.pushed| && k - |t.out| < max
    requires forall j | |t.out| <= j <= k :: StatusOf(t, j).Some?
    ensures var u := Step(t, capacity, DoDrain(max)); |u.out| > k && u.out[k] == Released(t.pushed[k], StatusOf(t, k).value)
  {
    var i := k - |t.out|;
    assert QueuedOps(t.q)[i] == t.pushed[k];
    forall j | 0 <= j <= i ensures t.q[j].status.Some? { assert StatusOf(t, |t.out| + j).Some?; }
    ReadyPrefixLeaves(t.q, i, max);
    hide Drained, ReleasedOps, QueuedOps, InOrder;
  }

  lemma ReadyPrefixLeaves(q: seq<Slot>, i: nat, max: nat)
    requires i < |q| && i < max && forall j | 0 <= j <= i :: q[j].status.Some?
    ensures var out := Drained(q, max).0; |out| > i && out[i] == Released(q[i].opId, q[i].status.value)
  {
    DrainPrefix(q, max);
    hide Drained;
  }

  // ----- the ring -----

  datatype Entry = Entry(opId: nat, status: nat, occupied: bool, ready: bool)

  const CLEAR := Entry(0, 0, false, false)

  function ToSlot(e: Entry): Slot { Slot(e.opId, if e.ready then Some(e.status) else None) }

  function Window(a: seq<Entry>, head: nat, count: nat, capacity: nat): seq<Slot>
    requires capacity <= |a| && count <= capacity && (capacity > 0 ==> head < capacity)
  {
    seq(count, k requires 0 <= k < count => ToSlot(a[RingAt(head, k, capacity)]))
  }

  predicate Live(i: nat, head: nat, count: nat, capacity: nat) {
    (head <= i < capacity && i < head + count) || i + capacity < head + count
  }

  ghost predicate Ring(a: seq<Entry>, head: nat, count: nat, capacity: nat) {
    && |a| == ORDER_MAX && capacity <= ORDER_MAX && count <= capacity
    && (if capacity == 0 then head == 0 else head < capacity)
    && forall i | 0 <= i < |a| ::
         if Live(i, head, count, capacity) then a[i].occupied && (!a[i].ready ==> a[i].status == 0) else a[i] == CLEAR
  }

  lemma AppendEntry(a: seq<Entry>, head: nat, count: nat, capacity: nat, e: Entry)
    requires Ring(a, head, count, capacity) && count < capacity && e.occupied && (!e.ready ==> e.status == 0)
    ensures var j := RingAt(head, count, capacity);
            && Ring(a[j := e], head, count + 1, capacity)
            && Window(a[j := e], head, count + 1, capacity) == Window(a, head, count, capacity) + [ToSlot(e)]
  {
  }

  lemma ReplaceEntry(a: seq<Entry>, head: nat, count: nat, capacity: nat, k: nat, e: Entry)
    requires Ring(a, head, count, capacity) && k < count && e.occupied && (!e.ready ==> e.status == 0)
    ensures var j := RingAt(head, k, capacity);
            && Ring(a[j := e], head, count, capacity)
            && Window(a[j := e], head, count, capacity) == Window(a, head, count, capacity)[k := ToSlot(e)]
  {
  }

  lemma RemoveFirst(a: seq<Entry>, head: nat, count: nat, capacity: nat)
    requires Ring(a, head, count, capacity) && count > 0
    ensures var h := RingAt(head, 1, capacity);
            && Ring(a[head := CLEAR], h, count - 1, capacity)
            && Window(a[head := CLEAR], h, count - 1, capacity) == Window(a, head, count, capacity)[1..]
  {
  }

  /** struct tbv_rel_order_queue */
  class Queue {
    var capacity: nat
    var head: nat
    var count: nat
    const entries: array<Entry>

    /** Slots outside the live window are clear, live ones are occupied. */
    ghost predicate Valid()
      reads this, entries
    {
      Ring(entries[..], head, count, capacity)
    }

    ghost function Contents(): seq<Slot>
      reads this, entries
      requires Valid()
    {
      Window(entries[..], head, count, capacity)
    }

    constructor ()
      ensures Valid() && capacity == 0 && fresh(entries)
    {
      entries := new Entry[ORDER_MAX](_ => CLEAR);
      capacity, head, count := 0, 0, 0;
    }

    method Init(wanted: nat) returns (code: Code)
      requires Valid()
      modifies this, entries
      ensures Valid()
      ensures if wanted == 0 || wanted > ORDER_MAX then code == Invalid && Contents() == old(Contents()) && capacity == old(capacity)
              else code == Ok && capacity == wanted && Contents() == []
    {
      if wanted == 0 || wanted > ORDER_MAX { return Invalid; }
      forall i | 0 <= i < entries.Length { entries[i] := CLEAR; }
      capacity, head, count := wanted, 0, 0;
      return Ok;
    }

    /** The scan shared by push and mark: the position of the first live entry of the operation. */
    method Scan(opId: nat) returns (k: Option<nat>)
      requires Valid() && capacity > 0
      ensures k == Find(Contents(), opId)
    {
      var i := 0;
      while i < count
        invariant 0 <= i <= count
        invariant forall j | 0 <= j < i :: Contents()[j].opId != opId
      {
        RingAtIsModulo(head, i, capacity);
        var e := entries[(head + i) % capacity];
        assert Contents()[i] == ToSlot(e);
        if e.occupied && e.opId == opId { return Some(i); }
        i := i + 1;
      }
      return None;
    }

    method Push(opId: nat) returns (code: Code)
      requires Valid()
      modifies this, entries
      ensures Valid() && capacity == old(capacity)
      ensures (code, Contents()) == Pushed(old(Contents()), capacity, opId)
    {
      if capacity == 0 { return Invalid; }
      if count == capacity { return NoSpace; }
      var k := Scan(opId);
      if k.Some? { return Exists; }
      RingAtIsModulo(head, count, capacity);
      AppendEntry(entries[..], head, count, capacity, Entry(opId, 0, true, false));
      ghost var before := entries[..];
      entries[(head + count) % capacity] := Entry(opId, 0, true, false);
      assert entries[..] == before[RingAt(head, count, capacity) := Entry(opId, 0, true, false)];
      count := count + 1;
      return Ok;
    }

    method Mark(opId: nat, status: nat) returns (code: Code)
      requires Valid()
      modifies entries
      ensures Valid()
      ensures (code, Contents()) == Marked(old(Contents()), capacity, opId, status)
    {
      if capacity == 0 { return Invalid; }
      var k := Scan(opId);
      if k.None? { return NoEntry; }
      RingAtIsModulo(head, k.value, capacity);
      var i := (head + k.value) % capacity;
      assert Contents()[k.value] == ToSlot(entries[i]);
      if entries[i].ready { return if entries[i].status == status then Ok else Already; }
      ghost var before := entries[..];
      ReplaceEntry(before, head, count, capacity, k.value, entries[i].(ready := true, status := status));
      entries[i] := entries[i].(ready := true, status := status);
      assert entries[..] == before[i := before[i].(ready := true, status := status)];
      return Ok;
    }

    method Flush(status: nat) returns (code: Code)
      requires Valid()
      modifies entries
      ensures Valid()
      ensures code == if capacity == 0 then Invalid else Ok
      ensures Contents() == AllFlushed(old(Contents()), status)
    {
      if capacity == 0 { return Invalid; }
      var i := 0;
      ghost var q := Contents();
      while i < count
        invariant Valid() && i <= count
        invariant forall j | 0 <= j < count :: Contents()[j] == if j < i then Flushed(q[j], status) else q[j]
      {
        RingAtIsModulo(head, i, capacity);
        var p := (head + i) % capacity;
        assert Contents()[i] == ToSlot(entries[p]);
        if !entries[p].ready {
          ghost var before := entries[..];
          ReplaceEntry(before, head, count, capacity, i, entries[p].(ready := true, status := status));
          entries[p] := entries[p].(ready := true, status := status);
          assert entries[..] == before[p := before[p].(ready := true, status := status)];
        }
        i := i + 1;
      }
      return Ok;
    }

    /** Take the ready entry at the head out of the ring. */
    method Release() returns (r: Released)
      requires Valid() && count > 0
      requires Contents()[0].status.Some?
      modifies this, entries
      ensures Valid() && capacity == old(capacity) && count == old(count) - 1
      ensures old(Contents())[0] == Slot(r.opId, Some(r.status)) && Contents() == old(Contents())[1..]
    {
      var e := entries[head];
      assert Contents()[0] == ToSlot(e);
      r := Released(e.opId, e.status);
      RemoveFirst(entries[..], head, count, capacity);
      RingAtIsModulo(head, 1, capacity);
      ghost var before := entries[..];
      entries[head] := CLEAR;
      assert entries[..] == before[head := CLEAR];
      head := (head + 1) % capacity;
      count := count - 1;
    }

    method HeadReady() returns (ready: bool)
      requires Valid() && count > 0
      ensures |Contents()| == count && ready == Contents()[0].status.Some?
    {
      assert Contents()[0] == ToSlot(entries[head]);
      ready := entries[head].occupied && entries[head].ready;
    }

    method ResetHead()
      requires Valid() && count == 0
      modifies `head
      ensures Valid() && Contents() == old(Contents())
    {
      head := 0;
      assert Contents() == [];
    }

    method Drain(max: nat) returns (code: Code, out: seq<Released>)
      requires Valid()
      modifies this, entries
      ensures Valid() && capacity == old(capacity)
      ensures code == if capacity == 0 then Invalid else Ok
      ensures (out, Contents()) == Drained(old(Contents()), max)
    {
      out := [];
      if capacity == 0 {
        ReleaseStops(Contents(), [], max);
        return Invalid, [];
      }
      code := Ok;
      ghost var q := Contents();
      assert |q| == count && PartlyReleased(q, [], max);
      hide Ring, Window, RingAt, ToSlot, PartlyReleased;
      while count > 0 && |out| < max
        invariant Valid() && capacity == old(capacity) > 0
        invariant |out| + count == |q| && |out| <= max && Contents() == q[|out|..] && PartlyReleased(q, out, max)
        decreases count
      {
        var ready := HeadReady();
        assert Contents()[0] == q[|out|];
        if !ready { break; }
        var r := Release();
        ReleaseNext(q, out, max, r);
        assert q[|out|..][1..] == q[|out| + 1..];
        out := out + [r];
      }
      ReleaseStops(q, out, max);
      if count == 0 { ResetHead(); }
    }
  }

  /** `out` are the first entries of `q`, all ready, on the way to releasing up to `max` of them. */
  ghost predicate PartlyReleased(q: seq<Slot>, out: seq<Released>, max: nat) {
    && |out| <= |q| && |out| <= max
    && (forall k | 0 <= k < |out| :: out[k] == Freed(q[k]))
    && ReadyUpTo(q, 0, max) == ReadyUpTo(q, |out|, max)
  }

  lemma ReleaseNext(q: seq<Slot>, out: seq<Released>, max: nat, r: Released)
    requires PartlyReleased(q, out, max) && |out| < |q| && |out| < max && q[|out|] == Slot(r.opId, Some(r.status))
    ensures PartlyReleased(q, out + [r], max)
  {
  }

  lemma ReleaseStops(q: seq<Slot>, out: seq<Released>, max: nat)
    requires PartlyReleased(q, out, max) && (|out| == |q| || |out| == max || q[|out|].status.None?)
    ensures (out, q[|out|..]) == Drained(q, max)
  {
    assert ReadyUpTo(q, 0, max) == |out|;
    assert out == Drained(q, max).0;
  }
}
