/**
 * READ reassembly over whole runs: the waiting list is exact whatever frames arrive, and a read that
 * becomes ready with success holds exactly the responder's snapshot.
 */
module ReadProof {
  import opened Basics
  import opened Fragment
  import opened NativeData
  import opened ReadSpec

  // ----- accounting, for any frames at all -----

  ghost predicate IsPiece(total: nat, offset: nat, len: nat) {
    exists k: nat :: k < Count(total, MAX_PAYLOAD) && Covers(total, k, offset, len)
  }

  predicate Covers(total: nat, k: nat, offset: nat, len: nat)
    requires k < Count(total, MAX_PAYLOAD)
  {
    offset == PieceOf(total, MAX_PAYLOAD, k).offset && len == PieceOf(total, MAX_PAYLOAD, k).len
  }

  ghost predicate Sorted(frags: seq<Frag>) {
    forall i, j | 0 <= i < j < |frags| :: frags[i].offset < frags[j].offset
  }

  ghost predicate Pieces(frags: seq<Frag>, total: nat) {
    forall i | 0 <= i < |frags| :: IsPiece(total, frags[i].offset, |frags[i].data|)
  }

  ghost predicate Beyond(frags: seq<Frag>, received: nat) {
    forall i | 0 <= i < |frags| :: received < frags[i].offset
  }

  /** No attempt has failed so far. */
  predicate Sound(r: Read) { r.status.None? || r.status.value == Success }

  /** Waiting fragments are distinct pieces in order, and the write position stands between two pieces. */
  ghost predicate Core(r: Read) {
    && r.total < U32_MOD && |Flat(r.segs)| == r.total && r.received <= r.total
    && (r.received == r.total || r.received % MAX_PAYLOAD == 0)
    && Sorted(r.frags) && Pieces(r.frags, r.total)
  }

  ghost predicate Inv(r: Read) {
    && Core(r)
    && (Sound(r) ==> Beyond(r.frags, r.received))
    && (r.status == Some(Success) ==> r.received == r.total)
  }

  /** One piece ends where a later one may begin. */
  lemma PiecesDisjoint(total: nat, a: nat, alen: nat, b: nat, blen: nat)
    requires IsPiece(total, a, alen) && IsPiece(total, b, blen) && a < b
    ensures a + alen <= b && b + blen <= total
  {
    var i: nat :| i < Count(total, MAX_PAYLOAD) && Covers(total, i, a, alen);
    var j: nat :| j < Count(total, MAX_PAYLOAD) && Covers(total, j, b, blen);
    if j <= i { MulMonotone(j, i, MAX_PAYLOAD); }
    MulMonotone(i + 1, j, MAX_PAYLOAD);
    PieceEnds(total, j);
  }

  lemma PieceEnds(total: nat, k: nat)
    requires k < Count(total, MAX_PAYLOAD)
    ensures var p := PieceOf(total, MAX_PAYLOAD, k);
            && p.offset == k * MAX_PAYLOAD && p.offset + p.len <= total
            && (p.offset + p.len == total || p.offset + p.len == (k + 1) * MAX_PAYLOAD)
            && (total > 0 ==> p.len > 0)
  {
    if total > 0 { PieceLength(total, MAX_PAYLOAD, k); }
  }

  /** Sorted pieces never hold more than the bytes up to the end of the last one. */
  lemma {:induction false} BytesFit(frags: seq<Frag>, total: nat)
    requires Sorted(frags) && Pieces(frags, total)
    ensures Bytes(frags) <= if frags == [] then 0 else frags[|frags| - 1].offset + |frags[|frags| - 1].data|
    ensures Bytes(frags) <= total
  {
    if frags != [] {
      var n := |frags| - 1;
      BytesFit(frags[..n], total);
      if n > 0 {
        PiecesDisjoint(total, frags[n - 1].offset, |frags[n - 1].data|, frags[n].offset, |frags[n].data|);
      } else {
        var k: nat :| k < Count(total, MAX_PAYLOAD) && Covers(total, k, frags[0].offset, |frags[0].data|);
        PieceEnds(total, k);
      }
    }
  }

  lemma {:induction false} BytesRemove(frags: seq<Frag>, k: nat)
    requires k < |frags|
    ensures Bytes(frags[..k] + frags[k + 1..]) == Bytes(frags) - |frags[k].data|
    decreases |frags|
  {
    var n := |frags| - 1;
    var rest := frags[..k] + frags[k + 1..];
    if k < n {
      BytesRemove(frags[..n], k);
      assert rest[..n - 1] == frags[..n][..k] + frags[..n][k + 1..];
    } else {
      assert rest == frags[..n];
    }
  }

  lemma InsertMembers(frags: seq<Frag>, f: Frag)
    ensures var r := Insert(frags, f);
            (forall g | g in r :: g in frags || g == f) && (forall g | g in frags :: g in r) && f in r
  {
    var p, r := Place(frags, f.offset), Insert(frags, f);
    assert r[p] == f;
    forall g | g in frags ensures g in r {
      var i :| 0 <= i < |frags| && frags[i] == g;
      assert r[if i < p then i else i + 1] == g;
    }
  }

  lemma InsertAt(frags: seq<Frag>, f: Frag, i: nat)
    requires i <= |frags|
    ensures var p, r := Place(frags, f.offset), Insert(frags, f);
            |r| == |frags| + 1 && r[i] == if i < p then frags[i] else if i == p then f else frags[i - 1]
  {
  }

  lemma InsertSorted(frags: seq<Frag>, f: Frag)
    requires Sorted(frags) && FindFrag(frags, f.offset).None?
    ensures Sorted(Insert(frags, f))
  {
    InsertAt(frags, f, 0);
    hide Insert, Place, FindFrag;
    var p, r := Place(frags, f.offset), Insert(frags, f);
    forall i, j | 0 <= i < j < |r| ensures r[i].offset < r[j].offset {
      InsertAt(frags, f, i);
      InsertAt(frags, f, j);
      if i < p { assert frags[i].offset < f.offset; }
      if p < j { assert frags[p].offset <= frags[j - 1].offset; }
    }
  }

  lemma InsertBytes(frags: seq<Frag>, f: Frag)
    ensures Bytes(Insert(frags, f)) == Bytes(frags) + |f.data|
  {
    var p, r := Place(frags, f.offset), Insert(frags, f);
    BytesRemove(r, p);
    assert r[..p] + r[p + 1..] == frags;
  }

  lemma InsertKeeps(frags: seq<Frag>, f: Frag, total: nat)
    requires Sorted(frags) && Pieces(frags, total) && IsPiece(total, f.offset, |f.data|)
    requires FindFrag(frags, f.offset).None?
    ensures var r := Insert(frags, f);
            && Sorted(r) && Pieces(r, total) && Bytes(r) == Bytes(frags) + |f.data|
            && (forall g | g in r :: g in frags || g == f) && (forall g | g in frags :: g in r) && f in r
  {
    InsertMembers(frags, f);
    InsertSorted(frags, f);
    InsertBytes(frags, f);
    hide IsPiece, Bytes, Insert, Sorted;
    var r := Insert(frags, f);
    assert forall i | 0 <= i < |r| :: r[i] in r;
  }

  /** The no-space answer never happens: a new piece always fits. */
  lemma AlwaysRoom(r: Read, offset: nat, data: seq<Byte>, alloc: bool)
    requires Inv(r) && IsPiece(r.total, offset, |data|)
    ensures StoreResult(r, offset, data, alloc) != NoSpace
  {
    if FindFrag(r.frags, offset).None? {
      InsertKeeps(r.frags, Frag(offset, data), r.total);
      BytesFit(Insert(r.frags, Frag(offset, data)), r.total);
    }
  }

  lemma AcceptedIsPiece(r: Read, h: DataHeader)
    requires !Rejected(r, h) && r.total < U32_MOD
    ensures IsPiece(r.total, h.fragOffset, h.length)
  {
    var s := FragmentShape(r.total, MAX_PAYLOAD, MAX_FRAGS, h.fragOffset, h.length, h.Last()).value;
    ShapeAcceptsExactlyPieces(r.total, MAX_PAYLOAD, MAX_FRAGS, h.fragOffset, h.length, h.Last(), s.idx, s.count);
    assert Covers(r.total, s.idx, h.fragOffset, h.length);
  }

  lemma EndIsBoundary(total: nat, offset: nat, len: nat)
    requires IsPiece(total, offset, len)
    ensures offset + len <= total && (offset + len == total || (offset + len) % MAX_PAYLOAD == 0)
    ensures total > 0 ==> len > 0
  {
    var k: nat :| k < Count(total, MAX_PAYLOAD) && Covers(total, k, offset, len);
    PieceEnds(total, k);
    QuotientOfMultiple(k + 1, MAX_PAYLOAD);
  }

  lemma RemoveKeeps(frags: seq<Frag>, k: nat, total: nat)
    requires k < |frags| && Sorted(frags) && Pieces(frags, total)
    ensures var rest := frags[..k] + frags[k + 1..];
            && Sorted(rest) && Pieces(rest, total)
            && (forall f | f in rest :: f in frags && f.offset != frags[k].offset)
            && (forall f | f in frags && f != frags[k] :: f in rest)
  {
    var rest := frags[..k] + frags[k + 1..];
    forall f | f in frags && f != frags[k] ensures f in rest {
      var i :| 0 <= i < |frags| && frags[i] == f;
      assert rest[if i < k then i else i - 1] == f;
    }
  }

  ghost predicate AtOrBeyond(frags: seq<Frag>, received: nat) {
    forall i | 0 <= i < |frags| :: received <= frags[i].offset
  }

  lemma {:induction false} DrainCore(r: Read, faults: set<nat>)
    requires Core(r)
    ensures var (d, ok) := Drain(r, faults);
            && Core(d) && d.total == r.total && d.status == r.status && r.received <= d.received
            && (ok ==> FindFrag(d.frags, d.received).None?)
            && (ok && AtOrBeyond(r.frags, r.received) ==> Beyond(d.frags, d.received))
    decreases |r.frags|
  {
    hide Core, Scatter, TakeStored, AtOrBeyond, Beyond;
    var k := FindFrag(r.frags, r.received);
    if k.None? {
      NoneWaits(r);
    } else {
      var f := r.frags[k.value];
      var (segs, ok) := Scatter(r.segs, 0, f.offset, f.data, faults);
      ScatterWrites(r.segs, 0, f.offset, f.data, faults);
      NextCore(r, k.value, segs);
      if ok {
        var next := TakeStored(r, k.value, segs);
        Unfold(r, k.value, segs, faults);
        DrainCore(next, faults);
      }
    }
  }

  lemma NoneWaits(r: Read)
    requires FindFrag(r.frags, r.received).None?
    ensures AtOrBeyond(r.frags, r.received) ==> Beyond(r.frags, r.received)
  {
  }

  lemma Unfold(r: Read, k: nat, segs: seq<seq<Byte>>, faults: set<nat>)
    requires FindFrag(r.frags, r.received) == Some(k)
    requires Scatter(r.segs, 0, r.frags[k].offset, r.frags[k].data, faults) == (segs, true)
    ensures |TakeStored(r, k, segs).frags| < |r.frags| && TakeStored(r, k, segs).total == r.total
    ensures TakeStored(r, k, segs).status == r.status
    ensures Drain(r, faults) == Drain(TakeStored(r, k, segs), faults)
  {
  }

  /** The read after the waiting fragment `k`, which begins at `received`, has been copied. */
  function TakeStored(r: Read, k: nat, segs: seq<seq<Byte>>): Read
    requires k < |r.frags|
  {
    r.(segs := segs, received := r.frags[k].offset + |r.frags[k].data|, frags := r.frags[..k] + r.frags[k + 1..])
  }

  lemma NextCore(r: Read, k: nat, segs: seq<seq<Byte>>)
    requires Core(r) && k < |r.frags| && r.frags[k].offset == r.received && |Flat(segs)| == |Flat(r.segs)|
    ensures var next := TakeStored(r, k, segs);
            && Core(next) && Core(r.(segs := segs)) && next.received >= r.received && |next.frags| < |r.frags|
            && (AtOrBeyond(r.frags, r.received) ==> AtOrBeyond(next.frags, next.received))
  {
    EndIsBoundary(r.total, r.received, |r.frags[k].data|);
    RemoveKeeps(r.frags, k, r.total);
    if AtOrBeyond(r.frags, r.received) { LaterBegin(r, k); }
    hide Flat, IsPiece, Sorted, Pieces;
  }

  lemma LaterBegin(r: Read, k: nat)
    requires Core(r) && k < |r.frags| && r.frags[k].offset == r.received && AtOrBeyond(r.frags, r.received)
    ensures AtOrBeyond(r.frags[..k] + r.frags[k + 1..], r.received + |r.frags[k].data|)
  {
    RemoveKeeps(r.frags, k, r.total);
    var rest := r.frags[..k] + r.frags[k + 1..];
    forall i | 0 <= i < |rest| ensures r.received + |r.frags[k].data| <= rest[i].offset {
      assert rest[i] in rest && rest[i] in r.frags;
      PiecesDisjoint(r.total, r.received, |r.frags[k].data|, rest[i].offset, |rest[i].data|);
    }
  }

  // ----- one frame -----

  lemma NothingWaitsAtTheEnd(r: Read)
    requires Inv(r) && Sound(r) && r.received == r.total
    ensures r.frags == []
  {
    if r.frags != [] { EndIsBoundary(r.total, r.frags[0].offset, |r.frags[0].data|); }
  }

  /** After success no frame changes anything, whatever it is. */
  lemma SuccessIsFinal(r: Read, queued: bool, h: DataHeader, payload: seq<Byte>, env: Env)
    requires Inv(r) && r.status == Some(Success) && |payload| == h.length
    ensures Handle(r, queued, h, payload, env).0 == r
  {
    NothingWaitsAtTheEnd(r);
    if queued && h.rkey == 0 && !Rejected(r, h) {
      AcceptedIsPiece(r, h);
      EndIsBoundary(r.total, h.fragOffset, h.length);
      if h.fragOffset == r.received { assert payload == []; }
    }
  }

  lemma StoreInv(r: Read, offset: nat, data: seq<Byte>, alloc: bool)
    requires Inv(r) && IsPiece(r.total, offset, |data|) && offset > r.received
    ensures Inv(Store(r, offset, data, alloc))
  {
    hide Insert, IsPiece, Flat, Sorted, Pieces, FindFrag, StoreResult, Beyond;
    if FindFrag(r.frags, offset).None? {
      var f := Frag(offset, data);
      InsertKeeps(r.frags, f, r.total);
      if Sound(r) { InsertBeyond(r.frags, f, r.received); }
    }
  }

  lemma InsertBeyond(frags: seq<Frag>, f: Frag, received: nat)
    requires received < f.offset && Beyond(frags, received)
    ensures Beyond(Insert(frags, f), received)
  {
    forall i | 0 <= i < |Insert(frags, f)| ensures received < Insert(frags, f)[i].offset {
      InsertAt(frags, f, i);
    }
  }

  /** The state between the copy of an in-order fragment and the drain behind it. */
  function Advanced(r: Read, segs: seq<seq<Byte>>, end: nat): Read { r.(segs := segs, received := end) }

  lemma AdvancedCore(r: Read, segs: seq<seq<Byte>>, len: nat)
    requires Inv(r) && IsPiece(r.total, r.received, len) && |Flat(segs)| == |Flat(r.segs)|
    ensures Core(r.(segs := segs)) && Core(Advanced(r, segs, r.received + len))
    ensures Sound(r) ==> AtOrBeyond(r.frags, r.received + len)
  {
    EndIsBoundary(r.total, r.received, len);
    if Sound(r) {
      forall i | 0 <= i < |r.frags| ensures r.received + len <= r.frags[i].offset {
        PiecesDisjoint(r.total, r.received, len, r.frags[i].offset, |r.frags[i].data|);
      }
    }
  }

  lemma TakeInv(r: Read, payload: seq<Byte>, faults: set<nat>)
    requires Inv(r) && r.status != Some(Success) && IsPiece(r.total, r.received, |payload|)
    ensures Inv(TakeInOrder(r, r.received, payload, faults).0)
  {
    hide Drain, Scatter, Flat, Written, Sorted;
    ScatterWrites(r.segs, 0, r.received, payload, faults);
    var (segs, ok) := Scatter(r.segs, 0, r.received, payload, faults);
    AdvancedCore(r, segs, |payload|);
    var next := Advanced(r, segs, r.received + |payload|);
    DrainCore(next, faults);
  }

  /**
   * Whatever frame arrives: waiting fragments stay distinct pieces sorted behind `received`, and the write
   * position only moves over whole pieces.
   */
  lemma HandleInv(r: Read, queued: bool, h: DataHeader, payload: seq<Byte>, env: Env)
    requires Inv(r) && |payload| == h.length
    ensures Inv(Handle(r, queued, h, payload, env).0)
  {
    if r.status == Some(Success) {
      SuccessIsFinal(r, queued, h, payload, env);
    } else if queued && h.rkey == 0 && !Rejected(r, h) {
      AcceptedIsPiece(r, h);
      if h.fragOffset > r.received {
        StoreInv(r, h.fragOffset, payload, env.alloc);
      } else if h.fragOffset == r.received {
        TakeInv(r, payload, env.faults);
      }
      hide Store, TakeInOrder, StoreResult, Flat, Sorted, Pieces, Beyond;
    }
  }

  // ----- runs -----

  /** A frame with its payload, and how the handler's surroundings behave for it. */
  datatype Event = Frame(h: DataHeader, payload: seq<Byte>, env: Env, queued: bool)

  /** An unfinished read is always found in the queue. */
  predicate Possible(r: Read, e: Event) { |e.payload| == e.h.length && (r.status.None? ==> e.queued) }

  function Step(r: Read, e: Event): Read { Handle(r, e.queued, e.h, e.payload, e.env).0 }

  function RunFrom(r: Read, events: seq<Event>): Option<Read> {
    if events == [] then Some(r)
    else
      var prev := RunFrom(r, events[..|events| - 1]);
      if prev.Some? && Possible(prev.value, events[|events| - 1]) then Some(Step(prev.value, events[|events| - 1]))
      else None
  }

  function Begin(segs: seq<seq<Byte>>): Read { Read(|Flat(segs)|, segs, 0, [], None) }

  /** Accounting over every run of arbitrary frames; in particular there is always room for a new piece. */
  lemma {:induction false} AccountingHolds(segs: seq<seq<Byte>>, events: seq<Event>)
    requires |Flat(segs)| < U32_MOD && RunFrom(Begin(segs), events).Some?
    ensures var r := RunFrom(Begin(segs), events).value;
            && Inv(r) && Bytes(r.frags) <= r.total == |Flat(segs)|
            && forall offset, data, alloc | IsPiece(r.total, offset, |data|) :: StoreResult(r, offset, data, alloc) != NoSpace
  {
    RunInv(segs, events);
    var r := RunFrom(Begin(segs), events).value;
    BytesFit(r.frags, r.total);
    forall offset, data, alloc | IsPiece(r.total, offset, |data|) ensures StoreResult(r, offset, data, alloc) != NoSpace {
      AlwaysRoom(r, offset, data, alloc);
    }
  }

  lemma {:induction false} RunInv(segs: seq<seq<Byte>>, events: seq<Event>)
    requires |Flat(segs)| < U32_MOD && RunFrom(Begin(segs), events).Some?
    ensures var r := RunFrom(Begin(segs), events).value; Inv(r) && r.total == |Flat(segs)|
  {
    hide Handle;
    if events != [] {
      var init, e := events[..|events| - 1], events[|events| - 1];
      RunInv(segs, init);
      var r := RunFrom(Begin(segs), init).value;
      HandleInv(r, e.queued, e.h, e.payload, e.env);
      TotalKept(r, e);
    }
  }

  lemma {:induction false} DrainKeepsTotal(r: Read, faults: set<nat>)
    ensures Drain(r, faults).0.total == r.total
    decreases |r.frags|
  {
    var k := FindFrag(r.frags, r.received);
    if k.Some? {
      var f := r.frags[k.value];
      var (segs, ok) := Scatter(r.segs, 0, f.offset, f.data, faults);
      if ok { DrainKeepsTotal(TakeStored(r, k.value, segs), faults); }
    }
  }

  lemma TotalKept(r: Read, e: Event)
    ensures Step(r, e).total == r.total
  {
    if e.h.fragOffset == r.received {
      var (segs, ok) := Scatter(r.segs, 0, e.h.fragOffset, e.payload, e.env.faults);
      DrainKeepsTotal(Advanced(r, segs, e.h.fragOffset + |e.payload|), e.env.faults);
    }
    hide Drain, Scatter, StoreResult, Rejected;
  }
}
