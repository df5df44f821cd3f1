/**
 * READ against a responder that sends fragments of one snapshot: success means the local segments hold the
 * snapshot, and without faults a read succeeds exactly when every fragment has arrived.
 */
module ReadSnapshot {
  import opened Basics
  import opened Fragment
  import opened NativeData
  import opened ReadSpec
  import opened ReadProof

  const OP_RDMA_READ_RESP: nat := 8

  /** Fragment `k` as tbv_send_read_response_ctx cuts it. */
  function PieceHeader(total: nat, k: nat): DataHeader
    requires k < Count(total, MAX_PAYLOAD)
  {
    var p := PieceOf(total, MAX_PAYLOAD, k);
    DataHeader(OP_RDMA_READ_RESP, if p.last then 1 else 0, 0, 0, 0, p.len, total, 0, 0, p.offset)
  }

  /** A fragment of the snapshot, or a frame the handler refuses. */
  ghost predicate FromSnapshot(e: Event, snap: seq<Byte>) {
    (exists k: nat :: k < Count(|snap|, MAX_PAYLOAD) && e.h == PieceHeader(|snap|, k) && e.payload == PayloadOf(snap, k))
  }

  ghost predicate Refused(r: Read, e: Event) { e.h.rkey != 0 || Rejected(r, e.h) }

  ghost predicate Honest(r: Read, e: Event, snap: seq<Byte>) { FromSnapshot(e, snap) || Refused(r, e) }

  /** `data` are the bytes of the snapshot from `offset` on. */
  predicate SliceAt(snap: seq<Byte>, offset: nat, data: seq<Byte>) {
    offset + |data| <= |snap| && data == snap[offset..offset + |data|]
  }

  predicate Filled(mem: seq<Byte>, snap: seq<Byte>, n: nat) {
    n <= |mem| == |snap| && mem[..n] == snap[..n]
  }

  ghost predicate Slices(frags: seq<Frag>, snap: seq<Byte>) {
    forall i | 0 <= i < |frags| :: SliceAt(snap, frags[i].offset, frags[i].data)
  }

  /** Everything taken so far is the snapshot's. */
  ghost predicate Holds(r: Read, snap: seq<Byte>) {
    r.total == |snap| && Slices(r.frags, snap) && (Sound(r) ==> Filled(Flat(r.segs), snap, r.received))
  }

  lemma FillNext(mem: seq<Byte>, snap: seq<Byte>, at: nat, data: seq<Byte>, after: seq<Byte>)
    requires Filled(mem, snap, at) && SliceAt(snap, at, data)
    requires if data == [] then after == mem else Written(mem, at, data, after)
    ensures Filled(after, snap, at + |data|)
  {
    assert snap[..at + |data|] == snap[..at] + snap[at..at + |data|];
    assert after[..at + |data|] == mem[..at] + data;
  }

  lemma ScatterFills(r: Read, snap: seq<Byte>, data: seq<Byte>, faults: set<nat>)
    requires Filled(Flat(r.segs), snap, r.received) && SliceAt(snap, r.received, data)
    ensures var (segs, ok) := Scatter(r.segs, 0, r.received, data, faults);
            ok ==> Filled(Flat(segs), snap, r.received + |data|)
  {
    ScatterWrites(r.segs, 0, r.received, data, faults);
    var (segs, ok) := Scatter(r.segs, 0, r.received, data, faults);
    hide Scatter, Filled, Flat, SliceAt;
    if ok { FillNext(Flat(r.segs), snap, r.received, data, Flat(segs)); }
  }

  lemma {:induction false} DrainFills(r: Read, snap: seq<Byte>, faults: set<nat>)
    requires Slices(r.frags, snap) && Filled(Flat(r.segs), snap, r.received)
    ensures var (d, ok) := Drain(r, faults);
            Slices(d.frags, snap) && (ok ==> Filled(Flat(d.segs), snap, d.received))
    decreases |r.frags|
  {
    hide Filled, Flat, SliceAt, Scatter;
    var k := FindFrag(r.frags, r.received);
    if k.Some? {
      var f := r.frags[k.value];
      ScatterFills(r, snap, f.data, faults);
      var (segs, ok) := Scatter(r.segs, 0, f.offset, f.data, faults);
      if ok { DrainFills(TakeStored(r, k.value, segs), snap, faults); }
    }
  }

  lemma PieceIsSlice(snap: seq<Byte>, k: nat)
    requires k < Count(|snap|, MAX_PAYLOAD)
    ensures SliceAt(snap, PieceHeader(|snap|, k).fragOffset, PayloadOf(snap, k))
    ensures |PayloadOf(snap, k)| == PieceHeader(|snap|, k).length
  {
    PieceEnds(|snap|, k);
  }

  lemma StoreHolds(r: Read, snap: seq<Byte>, offset: nat, data: seq<Byte>, alloc: bool)
    requires Holds(r, snap) && SliceAt(snap, offset, data)
    ensures Holds(Store(r, offset, data, alloc), snap)
  {
    hide Filled, SliceAt, Flat;
    InsertMembers(r.frags, Frag(offset, data));
    var frags := Insert(r.frags, Frag(offset, data));
    assert forall i | 0 <= i < |frags| :: frags[i] in frags;
    hide Insert;
  }

  lemma TakeHolds(r: Read, snap: seq<Byte>, data: seq<Byte>, faults: set<nat>)
    requires Holds(r, snap) && SliceAt(snap, r.received, data) && r.status.None?
    ensures Holds(TakeInOrder(r, r.received, data, faults).0, snap)
  {
    hide Filled, SliceAt, Flat, Slices;
    ScatterFills(r, snap, data, faults);
    var (segs, ok) := Scatter(r.segs, 0, r.received, data, faults);
    if ok {
      var next := Advanced(r, segs, r.received + |data|);
      DrainFills(next, snap, faults);
      DrainKeepsTotal(next, faults);
      StatusKept(next, faults);
    }
    hide Drain, Scatter;
  }

  lemma {:induction false} StatusKept(r: Read, faults: set<nat>)
    ensures Drain(r, faults).0.status == r.status
    decreases |r.frags|
  {
    hide Scatter;
    var k := FindFrag(r.frags, r.received);
    if k.Some? {
      var f := r.frags[k.value];
      var (segs, ok) := Scatter(r.segs, 0, f.offset, f.data, faults);
      if ok { StatusKept(TakeStored(r, k.value, segs), faults); }
    }
  }

  /** A read that has failed never becomes sound again. */
  lemma FailureIsFinal(r: Read, e: Event)
    requires !Sound(r)
    ensures Step(r, e).status == r.status
  {
    if e.h.fragOffset == r.received {
      var (segs, ok) := Scatter(r.segs, 0, e.h.fragOffset, e.payload, e.env.faults);
      StatusKept(Advanced(r, segs, e.h.fragOffset + |e.payload|), e.env.faults);
    }
    hide Drain, Scatter, StoreResult, Rejected;
  }

  /** Waiting fragments remain slices even when a copy has failed. */
  lemma {:induction false} DrainSlices(r: Read, snap: seq<Byte>, faults: set<nat>)
    requires Slices(r.frags, snap)
    ensures Slices(Drain(r, faults).0.frags, snap)
    decreases |r.frags|
  {
    hide SliceAt, Scatter;
    var k := FindFrag(r.frags, r.received);
    if k.Some? {
      var f := r.frags[k.value];
      var (segs, ok) := Scatter(r.segs, 0, f.offset, f.data, faults);
      if ok { DrainSlices(TakeStored(r, k.value, segs), snap, faults); }
    }
  }

  lemma TakeSlices(r: Read, snap: seq<Byte>, data: seq<Byte>, faults: set<nat>)
    requires Slices(r.frags, snap)
    ensures Slices(TakeInOrder(r, r.received, data, faults).0.frags, snap)
  {
    hide Drain, Scatter, Slices;
    var (segs, ok) := Scatter(r.segs, 0, r.received, data, faults);
    if ok { DrainSlices(Advanced(r, segs, r.received + |data|), snap, faults); }
  }

  lemma StepHolds(r: Read, e: Event, snap: seq<Byte>)
    requires Inv(r) && Holds(r, snap) && Honest(r, e, snap) && |e.payload| == e.h.length
    ensures Holds(Step(r, e), snap)
  {
    TotalKept(r, e);
    if r.status == Some(Success) {
      SuccessIsFinal(r, e.queued, e.h, e.payload, e.env);
    } else if e.queued && !Refused(r, e) {
      var k: nat :| k < Count(|snap|, MAX_PAYLOAD) && e.h == PieceHeader(|snap|, k) && e.payload == PayloadOf(snap, k);
      PieceIsSlice(snap, k);
      if !Sound(r) { FailureIsFinal(r, e); }
      if e.h.fragOffset > r.received {
        StoreHolds(r, snap, e.h.fragOffset, e.payload, e.env.alloc);
      } else if e.h.fragOffset == r.received {
        if r.status.None? { TakeHolds(r, snap, e.payload, e.env.faults); } else { TakeSlices(r, snap, e.payload, e.env.faults); }
      }
    }
    hide Store, TakeInOrder, StoreResult, Rejected, Slices, Filled, Inv, FromSnapshot;
  }

  /** A run in which every frame is a fragment of the snapshot or one the handler refuses. */
  ghost predicate HonestRun(segs: seq<seq<Byte>>, events: seq<Event>, snap: seq<Byte>) {
    events == [] ||
    var init := events[..|events| - 1];
    && HonestRun(segs, init, snap) && RunFrom(Begin(segs), init).Some?
    && Honest(RunFrom(Begin(segs), init).value, events[|events| - 1], snap)
  }

  /**
   * A read that becomes ready with success: the concatenated local segments equal the snapshot, in whatever
   * order and however often its fragments came, whatever allocations and copies failed on the way.
   */
  lemma {:induction false} SuccessMeansSnapshot(segs: seq<seq<Byte>>, events: seq<Event>, snap: seq<Byte>)
    requires |Flat(segs)| == |snap| < U32_MOD && RunFrom(Begin(segs), events).Some? && HonestRun(segs, events, snap)
    ensures var r := RunFrom(Begin(segs), events).value;
            && Holds(r, snap)
            && (r.status == Some(Success) ==> Flat(r.segs) == snap)
  {
    RunInv(segs, events);
    if events != [] {
      var init, e := events[..|events| - 1], events[|events| - 1];
      SuccessMeansSnapshot(segs, init, snap);
      RunInv(segs, init);
      hide Honest, Holds, Inv, Handle;
      StepHolds(RunFrom(Begin(segs), init).value, e, snap);
    }
    SuccessIsFull(RunFrom(Begin(segs), events).value, snap);
  }

  lemma SuccessIsFull(r: Read, snap: seq<Byte>)
    requires Inv(r) && Holds(r, snap)
    ensures r.status == Some(Success) ==> Flat(r.segs) == snap
  {
    assert Flat(r.segs)[..r.total] == Flat(r.segs) && snap[..r.total] == snap;
  }

  // ----- completeness -----

  /** The fragments that are written or waiting. */
  function Covered(r: Read): set<nat> {
    set k: nat | k < Count(r.total, MAX_PAYLOAD) && Has(r, k)
  }

  predicate Has(r: Read, k: nat) { k * MAX_PAYLOAD < r.received || FindFrag(r.frags, k * MAX_PAYLOAD).Some? }

  /** Writing the fragment that begins at `received` covers it, and nothing else. */
  lemma CoversOne(r: Read, i: nat, k: nat, end: nat)
    requires i < Count(r.total, MAX_PAYLOAD) && k < Count(r.total, MAX_PAYLOAD) && r.total > 0
    requires r.received == i * MAX_PAYLOAD && end == r.received + PieceOf(r.total, MAX_PAYLOAD, i).len
    ensures k * MAX_PAYLOAD < end <==> k <= i
    ensures k * MAX_PAYLOAD < r.received <==> k < i
  {
    PieceEnds(r.total, i);
    PieceEnds(r.total, k);
    if k <= i { MulMonotone(k, i, MAX_PAYLOAD); } else { MulMonotone(i + 1, k, MAX_PAYLOAD); }
    if k < i { MulMonotone(k + 1, i, MAX_PAYLOAD); }
  }

  lemma AdvanceCovers(r: Read, segs: seq<seq<Byte>>, i: nat)
    requires Inv(r) && r.total > 0 && i < Count(r.total, MAX_PAYLOAD) && r.received == i * MAX_PAYLOAD
    ensures Covered(Advanced(r, segs, r.received + PieceOf(r.total, MAX_PAYLOAD, i).len)) == Covered(r) + {i}
  {
    var next := Advanced(r, segs, r.received + PieceOf(r.total, MAX_PAYLOAD, i).len);
    forall k: nat | k < Count(r.total, MAX_PAYLOAD) ensures Has(next, k) <==> Has(r, k) || k == i {
      CoversOne(r, i, k, next.received);
    }
    assert forall k :: k in Covered(next) <==> k in Covered(r) + {i};
  }

  lemma FoundIff(frags: seq<Frag>, offset: nat)
    ensures FindFrag(frags, offset).Some? <==> exists f :: f in frags && f.offset == offset
  {
    if FindFrag(frags, offset).Some? { assert frags[FindFrag(frags, offset).value] in frags; }
  }

  lemma StoreCovers(r: Read, i: nat, data: seq<Byte>)
    requires FindFrag(r.frags, i * MAX_PAYLOAD).None? && i < Count(r.total, MAX_PAYLOAD)
    ensures Covered(r.(frags := Insert(r.frags, Frag(i * MAX_PAYLOAD, data)))) == Covered(r) + {i}
  {
    var f := Frag(i * MAX_PAYLOAD, data);
    var next := r.(frags := Insert(r.frags, f));
    InsertMembers(r.frags, f);
    hide Insert, FindFrag;
    forall k: nat | k < Count(r.total, MAX_PAYLOAD) ensures Has(next, k) <==> Has(r, k) || k == i {
      FoundIff(r.frags, k * MAX_PAYLOAD);
      FoundIff(next.frags, k * MAX_PAYLOAD);
    }
    assert forall k :: k in Covered(next) <==> k in Covered(r) + {i};
  }

  lemma IndexOf(total: nat, offset: nat, len: nat) returns (i: nat)
    requires IsPiece(total, offset, len)
    ensures i < Count(total, MAX_PAYLOAD) && offset == i * MAX_PAYLOAD && len == PieceOf(total, MAX_PAYLOAD, i).len
  {
    i :| i < Count(total, MAX_PAYLOAD) && Covers(total, i, offset, len);
  }

  lemma TakeStoredCovers(r: Read, j: nat, segs: seq<seq<Byte>>)
    requires Core(r) && r.total > 0 && j < |r.frags| && r.frags[j].offset == r.received
    ensures Covered(TakeStored(r, j, segs)) == Covered(r)
  {
    var next := TakeStored(r, j, segs);
    var i := IndexOf(r.total, r.frags[j].offset, |r.frags[j].data|);
    RemoveKeeps(r.frags, j, r.total);
    hide FindFrag, Core;
    forall k: nat | k < Count(r.total, MAX_PAYLOAD) ensures Has(next, k) <==> Has(r, k) {
      CoversOne(r, i, k, next.received);
      FoundIff(r.frags, k * MAX_PAYLOAD);
      FoundIff(next.frags, k * MAX_PAYLOAD);
      assert r.frags[j] in r.frags;
    }
    assert forall k :: k in Covered(next) <==> k in Covered(r);
  }

  /** Without faults a drain succeeds, and it moves fragments from the list to the segments without losing any. */
  lemma {:induction false} CleanDrain(r: Read)
    requires Core(r) && r.total > 0
    ensures Drain(r, {}).1 && Covered(Drain(r, {}).0) == Covered(r)
    decreases |r.frags|
  {
    hide Core, Covered, Scatter, IsPiece;
    var k := FindFrag(r.frags, r.received);
    if k.Some? {
      var f := r.frags[k.value];
      FitsSegments(r, k.value);
      ScatterWrites(r.segs, 0, f.offset, f.data, {});
      var (segs, ok) := Scatter(r.segs, 0, f.offset, f.data, {});
      NextCore(r, k.value, segs);
      TakeStoredCovers(r, k.value, segs);
      Unfold(r, k.value, segs, {});
      CleanDrain(TakeStored(r, k.value, segs));
    }
  }

  lemma FitsSegments(r: Read, k: nat)
    requires Core(r) && k < |r.frags|
    ensures r.frags[k].offset + |r.frags[k].data| <= |Flat(r.segs)|
  {
    EndIsBoundary(r.total, r.frags[k].offset, |r.frags[k].data|);
  }

  /** A fragment arriving when memory and user pages behave; a read that is ready may have left the queue. */
  datatype Arrival = Arrival(k: nat, stillQueued: bool)

  function Arrive(r: Read, snap: seq<Byte>, a: Arrival): Read
    requires a.k < Count(|snap|, MAX_PAYLOAD)
  {
    Handle(r, r.status.None? || a.stillQueued, PieceHeader(|snap|, a.k), PayloadOf(snap, a.k), Env(true, {})).0
  }

  predicate Known(arrivals: seq<Arrival>, n: nat) { forall i | 0 <= i < |arrivals| :: arrivals[i].k < n }

  function After(segs: seq<seq<Byte>>, snap: seq<Byte>, arrivals: seq<Arrival>): Read
    requires Known(arrivals, Count(|snap|, MAX_PAYLOAD))
  {
    if arrivals == [] then Begin(segs)
    else Arrive(After(segs, snap, arrivals[..|arrivals| - 1]), snap, arrivals[|arrivals| - 1])
  }

  function Indices(arrivals: seq<Arrival>): set<nat> {
    set i | 0 <= i < |arrivals| :: arrivals[i].k
  }

  /** Ready with success and everything arrived, or unfinished and holding exactly what arrived. */
  ghost predicate Tracks(r: Read, snap: seq<Byte>, arrived: set<nat>) {
    && Inv(r) && Holds(r, snap)
    && if r.status.Some? then r.status == Some(Success) && Range(Count(r.total, MAX_PAYLOAD)) <= arrived
       else if r.total == 0 then arrived == {}
       else r.received < r.total && Covered(r) == arrived
  }

  lemma SomethingMissing(r: Read)
    requires Inv(r) && r.status.None? && r.received < r.total
    ensures exists i: nat :: i < Count(r.total, MAX_PAYLOAD) && i !in Covered(r)
  {
    var i: nat := r.received / MAX_PAYLOAD;
    assert i * MAX_PAYLOAD == r.received;
    CeilingBounds(r.total, MAX_PAYLOAD);
    assert FindFrag(r.frags, i * MAX_PAYLOAD).None?;
    assert i !in Covered(r);
  }

  lemma AllCovered(r: Read)
    requires r.received == r.total > 0
    ensures Range(Count(r.total, MAX_PAYLOAD)) <= Covered(r)
  {
    forall k: nat | k < Count(r.total, MAX_PAYLOAD) ensures k in Covered(r) { PieceEnds(r.total, k); }
  }

  lemma PieceAccepted(r: Read, k: nat)
    requires r.total <= MAX_MSG_SIZE && k < Count(r.total, MAX_PAYLOAD)
    ensures !Rejected(r, PieceHeader(r.total, k))
  {
    var p := PieceOf(r.total, MAX_PAYLOAD, k);
    PieceEnds(r.total, k);
    ShapeAcceptsExactlyPieces(r.total, MAX_PAYLOAD, MAX_FRAGS, p.offset, p.len, p.last, k, Count(r.total, MAX_PAYLOAD));
  }

  lemma TakeTracks(r: Read, snap: seq<Byte>, k: nat, arrived: set<nat>)
    requires Tracks(r, snap, arrived) && r.status.None? && k < Count(|snap|, MAX_PAYLOAD) && r.received == k * MAX_PAYLOAD
    requires |snap| <= MAX_MSG_SIZE
    ensures Tracks(TakeInOrder(r, r.received, PayloadOf(snap, k), {}).0, snap, arrived + {k})
  {
    var data := PayloadOf(snap, k);
    PieceEnds(|snap|, k);
    PieceIsSlice(snap, k);
    assert Covers(r.total, k, r.received, |data|);
    TakeInv(r, data, {});
    TakeHolds(r, snap, data, {});
    ScatterWrites(r.segs, 0, r.received, data, {});
    var (segs, ok) := Scatter(r.segs, 0, r.received, data, {});
    AdvancedCore(r, segs, |data|);
    var next := Advanced(r, segs, r.received + |data|);
    DrainCore(next, {});
    if |snap| > 0 {
      AdvanceCovers(r, segs, k);
      CleanDrain(next);
      var d := Drain(next, {}).0;
      if d.received == d.total { AllCovered(d); }
    } else {
      EmptyDrain(next);
    }
    hide Drain, Scatter, Covered, Inv, Holds;
  }

  lemma EmptyDrain(r: Read)
    requires Core(r) && r.total == 0 && AtOrBeyond(r.frags, r.received)
    ensures Drain(r, {}).1 && Drain(r, {}).0.received == 0 && Drain(r, {}).0.total == 0
  {
  }

  lemma SameOffsetSameData(r: Read, snap: seq<Byte>, k: nat, j: nat)
    requires Inv(r) && Holds(r, snap) && k < Count(|snap|, MAX_PAYLOAD)
    requires j < |r.frags| && r.frags[j].offset == k * MAX_PAYLOAD
    ensures r.frags[j].data == PayloadOf(snap, k)
  {
    var i := IndexOf(r.total, r.frags[j].offset, |r.frags[j].data|);
    if i < k { MulMonotone(i + 1, k, MAX_PAYLOAD); }
    if k < i { MulMonotone(k + 1, i, MAX_PAYLOAD); }
    PieceIsSlice(snap, k);
    assert SliceAt(snap, r.frags[j].offset, r.frags[j].data);
  }

  lemma StoreTracks(r: Read, snap: seq<Byte>, k: nat, arrived: set<nat>)
    requires Tracks(r, snap, arrived) && r.status.None? && k < Count(|snap|, MAX_PAYLOAD) && r.received < k * MAX_PAYLOAD
    ensures StoreResult(r, k * MAX_PAYLOAD, PayloadOf(snap, k), true) == Kept
    ensures Tracks(Store(r, k * MAX_PAYLOAD, PayloadOf(snap, k), true), snap, arrived + {k})
  {
    var data := PayloadOf(snap, k);
    PieceEnds(|snap|, k);
    PieceIsSlice(snap, k);
    assert Covers(r.total, k, k * MAX_PAYLOAD, |data|);
    AlwaysRoom(r, k * MAX_PAYLOAD, data, true);
    StoreInv(r, k * MAX_PAYLOAD, data, true);
    StoreHolds(r, snap, k * MAX_PAYLOAD, data, true);
    var j := FindFrag(r.frags, k * MAX_PAYLOAD);
    if j.Some? {
      SameOffsetSameData(r, snap, k, j.value);
      assert k in Covered(r);
      assert arrived + {k} == arrived;
    } else {
      StoreCovers(r, k, data);
    }
    hide Covered, Inv, Holds, Insert;
  }

  lemma ArriveTracks(r: Read, snap: seq<Byte>, a: Arrival, arrived: set<nat>)
    requires Tracks(r, snap, arrived) && a.k < Count(|snap|, MAX_PAYLOAD) && |snap| <= MAX_MSG_SIZE
    ensures Tracks(Arrive(r, snap, a), snap, arrived + {a.k})
  {
    PieceIsSlice(snap, a.k);
    PieceEnds(|snap|, a.k);
    PieceAccepted(r, a.k);
    if r.status.Some? {
      SuccessIsFinal(r, a.stillQueued, PieceHeader(|snap|, a.k), PayloadOf(snap, a.k), Env(true, {}));
    } else if r.received < a.k * MAX_PAYLOAD {
      StoreTracks(r, snap, a.k, arrived);
    } else if r.received == a.k * MAX_PAYLOAD {
      TakeTracks(r, snap, a.k, arrived);
    } else {
      assert a.k in Covered(r);
      assert arrived + {a.k} == arrived;
    }
    hide Covered, Inv, Holds, Store, TakeInOrder, Rejected, StoreResult, PayloadOf, PieceOf;
  }

  lemma {:induction false} AfterTracks(segs: seq<seq<Byte>>, snap: seq<Byte>, arrivals: seq<Arrival>)
    requires |Flat(segs)| == |snap| <= MAX_MSG_SIZE && Known(arrivals, Count(|snap|, MAX_PAYLOAD))
    ensures Tracks(After(segs, snap, arrivals), snap, Indices(arrivals))
  {
    hide Tracks, Arrive, Indices, Count, Flat;
    if arrivals == [] {
      NothingYet(segs, snap);
      NoIndices(arrivals);
    } else {
      var init, a := arrivals[..|arrivals| - 1], arrivals[|arrivals| - 1];
      AfterTracks(segs, snap, init);
      ArriveTracks(After(segs, snap, init), snap, a, Indices(init));
      IndicesSnoc(arrivals);
    }
  }

  lemma NoIndices(arrivals: seq<Arrival>)
    requires arrivals == []
    ensures Indices(arrivals) == {}
  {
  }

  lemma IndicesSnoc(arrivals: seq<Arrival>)
    requires arrivals != []
    ensures Indices(arrivals) == Indices(arrivals[..|arrivals| - 1]) + {arrivals[|arrivals| - 1].k}
  {
    var init := arrivals[..|arrivals| - 1];
    forall k | k in Indices(arrivals) ensures k in Indices(init) + {arrivals[|arrivals| - 1].k} {
      var i :| 0 <= i < |arrivals| && arrivals[i].k == k;
      if i < |init| { assert init[i].k == k; }
    }
    forall k | k in Indices(init) ensures k in Indices(arrivals) {
      var i :| 0 <= i < |init| && init[i].k == k;
      assert arrivals[i].k == k;
    }
  }

  lemma NothingYet(segs: seq<seq<Byte>>, snap: seq<Byte>)
    requires |Flat(segs)| == |snap| <= MAX_MSG_SIZE
    ensures Tracks(Begin(segs), snap, {})
  {
    assert Covered(Begin(segs)) == {};
  }

  /**
   * Fragments may come in any order, any number of times: the read succeeds exactly when each of them has
   * come at least once, and then the segments hold the snapshot.
   */
  lemma CompletesExactlyWhenAllArrived(segs: seq<seq<Byte>>, snap: seq<Byte>, arrivals: seq<Arrival>)
    requires |Flat(segs)| == |snap| <= MAX_MSG_SIZE && Known(arrivals, Count(|snap|, MAX_PAYLOAD))
    ensures var r := After(segs, snap, arrivals);
            && (r.status == Some(Success) <==> forall k: nat | k < Count(|snap|, MAX_PAYLOAD) :: k in Indices(arrivals))
            && (r.status == Some(Success) ==> Flat(r.segs) == snap)
            && (r.status.None? || r.status == Some(Success))
  {
    AfterTracks(segs, snap, arrivals);
    var r := After(segs, snap, arrivals);
    SuccessIsFull(r, snap);
    if r.status.None? && r.total > 0 { SomethingMissing(r); }
    hide Covered, Inv, Holds, After, Indices;
    assert r.status.None? && r.total == 0 ==> 0 !in Indices(arrivals);
  }
}
