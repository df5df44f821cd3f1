/**
 * When exactly the expected message completes: over any further run, with fragments of other messages, stale
 * repeats, posted receives and drains in between, it completes once the fragments the engine keeps are all of it.
 */
module RxGather {
  import opened Basics
  import opened Fragment
  import opened NativeData
  import opened RxSpec
  import opened RxProof
  import opened RxProgress
  import Psn

  /** Reachable as far as the invariant tells, whatever was posted and whatever failed. */
  ghost predicate Sound(s: Rx, p: Peer, striping: bool) {
    exists posted, faults :: Inv(s, p, striping, posted, faults)
  }

  lemma StepSound(s: Rx, p: Peer, striping: bool, capacity: nat, e: Event)
    requires Sound(s, p, striping) && Possible(e, s, p)
    ensures Sound(Step(s, p, striping, capacity, e), p, striping)
  {
    var posted, faults :| Inv(s, p, striping, posted, faults);
    var more := faults + EventFaults(e);
    hide Inv;
    MoreFaults(s, p, striping, posted, faults, more);
    if e.PostRecv? {
      if |s.recvs| < capacity { PostInv(s, p, striping, posted, more, e.w); }
    } else {
      StepInv(s, p, striping, capacity, posted, more, e);
    }
  }

  ghost function RunFrom(s: Rx, p: Peer, striping: bool, capacity: nat, events: seq<Event>): Option<Rx> {
    if events == [] then Some(s)
    else
      match RunFrom(s, p, striping, capacity, events[..|events| - 1])
      case None => None
      case Some(t) =>
        var e := events[|events| - 1];
        if Possible(e, t, p) then Some(Step(t, p, striping, capacity, e)) else None
  }

  // ----- completions are only appended -----

  lemma BufferAppends(s: Rx, h: DataHeader, psn: nat, payload: seq<Byte>, env: Env)
    ensures var t := BufferFragment(s, h, psn, payload, env); s.cq <= t.cq && t.rnr == s.rnr
  {
    hide Drain, Find, FragmentShape, FragMatches, TotalBytes;
    match Find(s.reorder, psn)
    case None =>
      var s1 := s.(reorder := s.reorder + [Buffered(h.srcQp, psn, h.imm, ImmOf(h), {}, [])]);
      if ShapeOf(h).Some? { StoreAppends(s1, |s.reorder|, h, psn, ShapeOf(h).value.idx, payload, env); }
    case Some(k) =>
      DrainAppends(s, env.faults);
      if ShapeOf(h).Some? { StoreAppends(s, k, h, psn, ShapeOf(h).value.idx, payload, env); }
  }

  lemma StoreAppends(s: Rx, k: nat, h: DataHeader, psn: nat, idx: nat, payload: seq<Byte>, env: Env)
    requires k < |s.reorder|
    ensures var t := StoreFragment(s, k, h, psn, idx, payload, env); s.cq <= t.cq && t.rnr == s.rnr
  {
    hide Drain, TotalBytes;
    var m := s.reorder[k];
    var frags := if |payload| > 0 then m.frags + [Frag(h.fragOffset, payload)] else m.frags;
    DrainAppends(s.(reorder := s.reorder[k := m.(seen := m.seen + {idx}, frags := frags)]), env.faults);
  }

  lemma AcceptAppends(s: Rx, a: Active, h: DataHeader, shape: Shape, offset: nat, data: seq<Byte>, last: bool, f: set<(nat, nat)>)
    ensures var t := AcceptStriped(s, a, h, shape, data, f); s.cq <= t.cq && t.rnr == s.rnr
    ensures var t := AcceptOrdered(s, a, offset, data, last, f); s.cq <= t.cq && t.rnr == s.rnr
  {
    hide Drain, Absorb;
    var b := if shape.idx in a.seen then a else Absorb(a, h.fragOffset, data, f).(seen := a.seen + {shape.idx});
    DrainAppends(FinishSend(s.(active := Some(b))), f);
    DrainAppends(FinishSend(s.(active := Some(Absorb(a, offset, data, f)))), f);
  }

  lemma StepAppends(s: Rx, p: Peer, striping: bool, capacity: nat, e: Event)
    requires e.Arrive? ==> e.i < |p.msgs| && e.k < Frags(p.msgs[e.i])
    ensures s.cq <= Step(s, p, striping, capacity, e).cq
  {
    match e
    case PostRecv(_) =>
    case DrainNow(f) => DrainAppends(s, f);
    case Arrive(i, k, env) =>
      var h, psn, q := FrameOf(p, i, k), Psn.Of(p.base, i), PayloadOf(p.msgs[i].data, k);
      HandleAppends(s, striping, h, q, env);
  }

  /** No receive is posted for a message nothing of which is held. */
  predicate Unready(s: Rx, psn: nat) { s.active.None? && s.recvs == [] && Find(s.reorder, psn).None? }

  lemma StripedAppends(s: Rx, h: DataHeader, psn: nat, q: seq<Byte>, env: Env)
    ensures var t := HandleStriped(s, h, psn, q, env);
            && s.cq <= t.cq
            && (t.rnr == s.rnr || (t == NotReady(s, h, psn) && Unready(s, psn) && Psn.Delta(psn, s.expected) == 0))
  {
    hide BufferFragment, AcceptStriped, FragmentShape, Find, Psn.Delta, Drain;
    BufferAppends(s, h, psn, q, env);
    if ShapeOf(h).Some? {
      var shape := ShapeOf(h).value;
      if s.active.Some? {
        AcceptAppends(s, s.active.value, h, shape, 0, q, false, env.faults);
      } else if s.recvs != [] {
        AcceptAppends(s.(recvs := s.recvs[1..]), StartActive(s.recvs[0], h, psn), h, shape, 0, q, false, env.faults);
      }
    }
  }

  lemma OrderedAppends(s: Rx, h: DataHeader, psn: nat, q: seq<Byte>, env: Env)
    requires |q| == h.length
    ensures var t := HandleOrdered(s, h, psn, q, env);
            && s.cq <= t.cq
            && (t.rnr == s.rnr || (t == NotReady(s, h, psn) && Unready(s, psn) && psn == s.expected && h.fragOffset == 0))
  {
    hide BufferFragment, AcceptOrdered, Find, Psn.Delta, Drain, SameMessage, StartActive;
    BufferAppends(s, h, psn, q, env);
    if s.active.Some? {
      var a := s.active.value;
      AcceptAppends(s, a, h, Shape(0, 0), h.fragOffset, q, h.Last(), env.faults);
      if h.fragOffset < a.received && a.received - h.fragOffset < h.length {
        AcceptAppends(s, a, h, Shape(0, 0), a.received, q[a.received - h.fragOffset..], h.Last(), env.faults);
      }
    } else if s.recvs != [] {
      AcceptAppends(s.(recvs := s.recvs[1..]), StartActive(s.recvs[0], h, psn), h, Shape(0, 0), 0, q, h.Last(), env.faults);
    }
  }

  lemma HandleAppends(s: Rx, striping: bool, h: DataHeader, q: seq<Byte>, env: Env)
    requires |q| == h.length
    ensures s.cq <= HandleSend(s, striping, h, q, env).cq
  {
    var psn := h.psn % Psn.MODULUS;
    var t := if RnrMatches(s, h, psn) then s.(rnr := None) else s;
    hide HandleStriped, HandleOrdered, BadSendHeader;
    StripedAppends(t, h, psn, q, env);
    OrderedAppends(t, h, psn, q, env);
  }

  // ----- what the engine holds of the expected message -----

  function Entry(list: seq<Buffered>, psn: nat): Option<Buffered> {
    match Find(list, psn)
    case Some(j) => Some(list[j])
    case None => None
  }

  function Held(s: Rx, striping: bool): set<nat> {
    match s.active
    case Some(a) => Done(a, striping)
    case None => if Entry(s.reorder, s.expected).Some? then Entry(s.reorder, s.expected).value.seen else {}
  }

  /** An open receiver-not-ready episode is about the expected message, of which nothing is held then. */
  ghost predicate MarkOk(s: Rx, p: Peer, striping: bool) {
    s.rnr.Some? ==>
      && |s.cq| < |p.msgs| && s.active.None? && Entry(s.reorder, s.expected).None?
      && s.rnr.value.srcQp == p.msgs[|s.cq|].srcQp && s.rnr.value.psn == s.expected && s.rnr.value.remoteAddr == 0
      && (!striping ==> s.rnr.value.fragOffset == 0)
  }

  /** Message `n` is expected and not all there, and when it is not being received yet there is a receive for it. */
  ghost predicate Gathering(s: Rx, p: Peer, striping: bool, n: nat) {
    && Sound(s, p, striping) && |s.cq| == n < |p.msgs| && s.rnr.None? && (s.active.None? ==> s.recvs != [])
    && Held(s, striping) != Range(Frags(p.msgs[n]))
  }

  /** The pieces held after fragment `k` of the expected message, carrying `q`, has been handled. */
  function Grown(s: Rx, striping: bool, k: nat, q: seq<Byte>, env: Env): set<nat> {
    var held := Held(s, striping);
    if s.active.Some? then if striping || s.active.value.received == k * MAX_PAYLOAD then held + {k} else held
    else if Entry(s.reorder, s.expected).Some? then
      if k in held then held
      else if |q| > 0 && (TotalBytes(s.reorder) + |q| > REORDER_MAX_BYTES || !env.fragAlloc) then {}
      else held + {k}
    else if striping || k == 0 then {k} else {}
  }

  function Next(s: Rx, p: Peer, striping: bool, n: nat, e: Event): set<nat>
    requires e.Arrive? ==> e.i < |p.msgs| && e.k < Frags(p.msgs[e.i])
  {
    if e.Arrive? && e.i == n then Grown(s, striping, e.k, PayloadOf(p.msgs[n].data, e.k), e.env) else Held(s, striping)
  }

  /** `s'` has completed the message if `held` is all of it, and otherwise holds just that. */
  ghost predicate Advanced(s': Rx, p: Peer, striping: bool, n: nat, held: set<nat>)
    requires n < |p.msgs|
  {
    if held == Range(Frags(p.msgs[n])) then |s'.cq| > n
    else |s'.cq| == n && s'.rnr.None? && (s'.active.None? ==> s'.recvs != []) && Held(s', striping) == held
  }

  // ----- the reorder list seen from one PSN -----

  lemma EntryAppend(list: seq<Buffered>, e: Buffered, psn: nat)
    requires e.psn != psn
    ensures Entry(list + [e], psn) == Entry(list, psn)
  {
    assert (list + [e])[..|list|] == list;
  }

  lemma EntryUpdate(list: seq<Buffered>, j: nat, e: Buffered, psn: nat)
    requires j < |list| && list[j].psn == e.psn != psn
    ensures Entry(list[j := e], psn) == Entry(list, psn)
  {
    var r, r' := Find(list, psn), Find(list[j := e], psn);
    if r.Some? { assert list[j := e][r.value].psn == psn; }
    if r'.Some? { assert list[r'.value].psn == psn; }
  }

  lemma EntryRemove(list: seq<Buffered>, j: nat, psn: nat)
    requires j < |list| && list[j].psn != psn
    requires forall t, u | 0 <= t < u < |list| :: list[t].psn != list[u].psn
    ensures Entry(Remove(list, j), psn) == Entry(list, psn)
  {
    var rest := Remove(list, j);
    var r, r' := Find(list, psn), Find(rest, psn);
    if r.Some? { assert rest[if r.value < j then r.value else r.value - 1] == list[r.value]; }
    if r'.Some? { assert list[if r'.value < j then r'.value else r'.value + 1] == rest[r'.value]; }
  }

  lemma EntryUpdated(list: seq<Buffered>, j: nat, e: Buffered)
    requires j < |list| && list[j].psn == e.psn
    requires forall t, u | 0 <= t < u < |list| :: list[t].psn != list[u].psn
    ensures Find(list[j := e], e.psn) == Some(j) && Entry(list[j := e], e.psn) == Some(e) && Entry(list, e.psn) == Some(list[j])
  {
    assert list[j := e][j].psn == e.psn;
  }

  lemma EntryRemoved(list: seq<Buffered>, j: nat)
    requires j < |list|
    requires forall t, u | 0 <= t < u < |list| :: list[t].psn != list[u].psn
    ensures Entry(Remove(list, j), list[j].psn) == None
  {
    var rest := Remove(list, j);
    assert forall t | 0 <= t < |rest| :: rest[t] == list[if t < j then t else t + 1];
  }

  // ----- draining -----

  ghost predicate NothingStale(s: Rx) {
    forall t | 0 <= t < |s.reorder| :: Psn.Delta(s.reorder[t].psn, s.expected) >= 0
  }

  lemma ListSound(s: Rx, p: Peer, striping: bool)
    requires Sound(s, p, striping)
    ensures NothingStale(s) && forall t, u | 0 <= t < u < |s.reorder| :: s.reorder[t].psn != s.reorder[u].psn
    ensures p.Valid() && s.expected == Psn.Of(p.base, |s.cq|)
  {
    var posted, faults :| Inv(s, p, striping, posted, faults);
    hide CqOk, HistOk, ActiveOk, BufOk;
    forall t | 0 <= t < |s.reorder| ensures Psn.Delta(s.reorder[t].psn, s.expected) >= 0 {
      assert EntryOk(s.reorder[t], p, |s.cq|);
    }
  }

  /** Nothing is delivered while the expected message is incomplete, nor anything dropped. */
  lemma DrainStays(s: Rx, f: set<(nat, nat)>)
    requires NothingStale(s)
    requires s.active.None? && Entry(s.reorder, s.expected).Some? ==> !Entry(s.reorder, s.expected).value.Complete()
    ensures Drain(s, f) == s
  {
    hide Deliver, Kept, StaleAcks, Psn.Delta, Consume;
    PruneNothing(s.reorder, s.expected, s.hist);
    assert s.acks + [] == s.acks;
  }

  lemma DrainDelivers(s: Rx, f: set<(nat, nat)>)
    requires NothingStale(s) && s.active.None? && s.recvs != []
    requires Entry(s.reorder, s.expected).Some? && Entry(s.reorder, s.expected).value.Complete()
    ensures |Drain(s, f).cq| > |s.cq|
  {
    PruneNothing(s.reorder, s.expected, s.hist);
    assert s.acks + [] == s.acks && Prune(s) == s;
    DrainAppends(Deliver(s, Find(s.reorder, s.expected).value, f), f);
  }

  // ----- fragments of other messages -----

  /** Only the rest of the list and the ACKs change. */
  ghost predicate Apart(s: Rx, s': Rx) {
    s' == s.(reorder := s'.reorder, acks := s'.acks) && Entry(s'.reorder, s.expected) == Entry(s.reorder, s.expected)
  }

  /** The expected message, when it waits in the list, is not complete. */
  predicate Lacking(s: Rx) {
    s.active.None? && Entry(s.reorder, s.expected).Some? ==> !Entry(s.reorder, s.expected).value.Complete()
  }

  lemma StoreApart(s: Rx, j: nat, h: DataHeader, psn: nat, k: nat, q: seq<Byte>, env: Env)
    requires NothingStale(s) && Lacking(s) && j < |s.reorder| && s.reorder[j].psn != s.expected
    requires forall t, u | 0 <= t < u < |s.reorder| :: s.reorder[t].psn != s.reorder[u].psn
    ensures Apart(s, StoreFragment(s, j, h, psn, k, q, env))
  {
    EntryRemove(s.reorder, j, s.expected);
    var m := s.reorder[j];
    var frags := if |q| > 0 then m.frags + [Frag(h.fragOffset, q)] else m.frags;
    var e := m.(seen := m.seen + {k}, frags := frags);
    EntryUpdate(s.reorder, j, e, s.expected);
    hide Drain, Find, TotalBytes, Entry, Remove;
    DrainStays(s.(reorder := s.reorder[j := e]), env.faults);
  }

  lemma BufferApart(s: Rx, h: DataHeader, psn: nat, q: seq<Byte>, env: Env)
    requires NothingStale(s) && Lacking(s) && psn != s.expected
    requires forall t, u | 0 <= t < u < |s.reorder| :: s.reorder[t].psn != s.reorder[u].psn
    ensures Apart(s, BufferFragment(s, h, psn, q, env))
  {
    hide Drain, TotalBytes, FragmentShape, FragMatches, StoreFragment;
    if Psn.Delta(psn, s.expected) >= 0 && ShapeOf(h).Some? {
      var idx := ShapeOf(h).value.idx;
      match Find(s.reorder, psn)
      case None =>
        var e := Buffered(h.srcQp, psn, h.imm, ImmOf(h), {}, []);
        var s1 := s.(reorder := s.reorder + [e]);
        EntryAppend(s.reorder, e, s.expected);
        StoreApart(s1, |s.reorder|, h, psn, idx, q, env);
      case Some(j) =>
        EntryRemove(s.reorder, j, s.expected);
        DrainStays(s, env.faults);
        StoreApart(s, j, h, psn, idx, q, env);
    }
  }

  lemma OthersApart(s: Rx, p: Peer, striping: bool, n: nat, i: nat, k: nat, env: Env)
    requires Sound(s, p, striping) && MarkOk(s, p, striping) && |s.cq| == n < |p.msgs| && Lacking(s)
    requires i != n && Possible(Arrive(i, k, env), s, p)
    ensures Apart(s, Step(s, p, striping, 0, Arrive(i, k, env)))
  {
    ListSound(s, p, striping);
    FrameFacts(p, i, k);
    Psn.DeltaOfCounters(p.base, i, n);
    if Psn.Of(p.base, i) == s.expected { Psn.OfInjective(p.base, i, n); }
    var h, psn, q := FrameOf(p, i, k), Psn.Of(p.base, i), PayloadOf(p.msgs[i].data, k);
    hide BufferFragment, Entry, AcceptStriped, AcceptOrdered, Lacking, NothingStale, Find, Held, Sound, PieceOf, BadSendHeader;
    BufferApart(s, h, psn, q, env);
    StaleIsReacked(s, h, psn, q, env);
    if s.active.Some? && !striping { ActiveCases(s, p, n, i, k, env); }
  }

  lemma StaleIsReacked(s: Rx, h: DataHeader, psn: nat, q: seq<Byte>, env: Env)
    ensures Psn.Delta(psn, s.expected) < 0 ==> BufferFragment(s, h, psn, q, env) == Reack(s, h.srcQp, psn)
  {
  }

  lemma ActiveCases(s: Rx, p: Peer, n: nat, i: nat, k: nat, env: Env)
    requires Sound(s, p, false) && |s.cq| == n < |p.msgs| && s.active.Some? && Possible(Arrive(i, k, env), s, p)
    ensures var h, psn, q, a := FrameOf(p, i, k), Psn.Of(p.base, i), PayloadOf(p.msgs[i].data, k), s.active.value;
            HandleOrdered(s, h, psn, q, env)
            == if i < n then Reack(s, h.srcQp, psn)
               else if i > n then BufferFragment(s, h, psn, q, env)
               else if a.received == k * MAX_PAYLOAD then AcceptOrdered(s, a, k * MAX_PAYLOAD, q, k == Frags(p.msgs[n]) - 1, env.faults)
               else s
  {
    var posted, faults :| Inv(s, p, false, posted, faults);
    hide ReorderOk, CqOk, HistOk, HandleOrdered, BufferFragment, AcceptOrdered;
    OrderedActiveCases(s, s.active.value, p, n, i, k, env);
  }

  /** What waits of the expected message fits it, so it is complete only when all pieces are there. */
  lemma EntryFits(s: Rx, p: Peer, striping: bool, n: nat)
    requires Sound(s, p, striping) && |s.cq| == n < |p.msgs| && Entry(s.reorder, s.expected).Some?
    ensures var e, m := Entry(s.reorder, s.expected).value, p.msgs[n];
            BufOk(e, m) && e.psn == s.expected && (e.Complete() <==> e.seen == Range(Frags(m)))
  {
    var posted, faults :| Inv(s, p, striping, posted, faults);
    var j := Find(s.reorder, s.expected).value;
    assert EntryOk(s.reorder[j], p, n);
    hide CqOk, HistOk, ActiveOk;
    EntryMessage(s.reorder[j], p, n, n);
    SubsetOfRange(s.reorder[j].seen, Frags(p.msgs[n]));
  }

  lemma HeldLacks(s: Rx, p: Peer, striping: bool, n: nat)
    requires Gathering(s, p, striping, n)
    ensures Lacking(s)
  {
    hide Sound, Entry;
    if s.active.None? && Entry(s.reorder, s.expected).Some? { EntryFits(s, p, striping, n); }
  }

  // ----- fragments of the expected message -----

  lemma ActiveFits(s: Rx, p: Peer, striping: bool, n: nat)
    requires Sound(s, p, striping) && |s.cq| == n < |p.msgs| && s.active.Some?
    ensures var a, m := s.active.value, p.msgs[n];
            && a.psn == s.expected == Psn.Of(p.base, n) && p.Valid()
            && a.srcQp == m.srcQp && a.totalLen == |m.data| && a.imm == m.imm
            && Done(a, striping) <= Range(Frags(m)) && (!striping ==> a.received % MAX_PAYLOAD == 0)
  {
    var posted, faults :| Inv(s, p, striping, posted, faults);
    hide ReorderOk, CqOk, HistOk, StatusOk, Filled, Landed, Absent;
  }

  /** The open message of a striped engine takes any piece. */
  lemma StripedTakes(s: Rx, a: Active, h: DataHeader, k: nat, frags: nat, q: seq<Byte>, f: set<(nat, nat)>)
    requires a.seen <= Range(frags) && k < frags
    ensures var t := AcceptStriped(s, a, h, Shape(k, frags), q, f);
            if a.seen + {k} == Range(frags) then |t.cq| > |s.cq|
            else t.active.Some? && t.active.value.seen == a.seen + {k} && t == s.(active := t.active)
  {
    hide Drain, Absorb;
    var b := if k in a.seen then a else Absorb(a, h.fragOffset, q, f).(seen := a.seen + {k});
    assert k in a.seen ==> a.seen + {k} == a.seen;
    SubsetOfRange(b.seen, frags);
    DrainAppends(FinishSend(s.(active := Some(b))), f);
  }

  /** The open message of an ordered engine takes its next piece. */
  lemma OrderedTakes(s: Rx, a: Active, m: Message, k: nat, f: set<(nat, nat)>)
    requires k < Frags(m) && a.received == k * MAX_PAYLOAD
    ensures var t := AcceptOrdered(s, a, k * MAX_PAYLOAD, PayloadOf(m.data, k), k == Frags(m) - 1, f);
            && Done(a, false) == Range(k) && Range(k) + {k} == Range(k + 1)
            && if k + 1 == Frags(m) then |t.cq| > |s.cq|
               else t.active.Some? && Done(t.active.value, false) == Range(k + 1) && t == s.(active := t.active)
  {
    hide Drain, CopyToWqe, PayloadOf;
    var b := Absorb(a, k * MAX_PAYLOAD, PayloadOf(m.data, k), f);
    DoneAt(a, k);
    if k + 1 < Frags(m) {
      FullPiece(m, k);
      DoneAt(b, k + 1);
    } else {
      DrainAppends(FinishSend(s.(active := Some(b))), f);
    }
  }

  lemma RangesDiffer(a: nat, b: nat)
    ensures Range(a) == Range(b) <==> a == b
  {
    assert |Range(a)| == a && |Range(b)| == b;
  }

  /** What the engine does with a fragment of the open message. */
  lemma OpenCases(s: Rx, p: Peer, striping: bool, n: nat, k: nat, env: Env)
    requires Sound(s, p, striping) && |s.cq| == n < |p.msgs| && s.rnr.None? && s.active.Some? && k < Frags(p.msgs[n])
    ensures var a, m := s.active.value, p.msgs[n];
            Step(s, p, striping, 0, Arrive(n, k, env))
            == if striping then AcceptStriped(s, a, FrameOf(p, n, k), Shape(k, Frags(m)), PayloadOf(m.data, k), env.faults)
               else if a.received == k * MAX_PAYLOAD then
                 AcceptOrdered(s, a, k * MAX_PAYLOAD, PayloadOf(m.data, k), k == Frags(m) - 1, env.faults)
               else s
  {
    ActiveFits(s, p, striping, n);
    FrameFacts(p, n, k);
    Psn.DeltaOfCounters(p.base, n, n);
    if !striping { ActiveCases(s, p, n, n, k, env); }
    hide AcceptStriped, AcceptOrdered, BufferFragment, Frags, PayloadOf, BadSendHeader, Sound, Range, Find, Done, HandleOrdered;
  }

  lemma OpenAdvances(s: Rx, p: Peer, striping: bool, n: nat, k: nat, env: Env)
    requires Gathering(s, p, striping, n) && s.active.Some? && k < Frags(p.msgs[n])
    ensures Advanced(Step(s, p, striping, 0, Arrive(n, k, env)), p, striping, n, Next(s, p, striping, n, Arrive(n, k, env)))
  {
    hide Step, AcceptStriped, AcceptOrdered, Count, PayloadOf, Sound, Range, Entry;
    var a, m := s.active.value, p.msgs[n];
    ActiveFits(s, p, striping, n);
    OpenCases(s, p, striping, n, k, env);
    if striping {
      StripedTakes(s, a, FrameOf(p, n, k), k, Frags(m), PayloadOf(m.data, k), env.faults);
    } else if a.received == k * MAX_PAYLOAD {
      OrderedTakes(s, a, m, k, env.faults);
      RangesDiffer(k + 1, Frags(m));
    }
  }

  lemma StartAdvances(s: Rx, p: Peer, striping: bool, n: nat, k: nat, env: Env)
    requires Gathering(s, p, striping, n) && s.active.None? && Entry(s.reorder, s.expected).None? && k < Frags(p.msgs[n])
    ensures Advanced(Step(s, p, striping, 0, Arrive(n, k, env)), p, striping, n, Next(s, p, striping, n, Arrive(n, k, env)))
  {
    var m, h := p.msgs[n], FrameOf(p, n, k);
    ListSound(s, p, striping);
    FrameFacts(p, n, k);
    Psn.DeltaOfCounters(p.base, n, n);
    RangesDiffer(0, Frags(m));
    var c, a := s.(recvs := s.recvs[1..]), StartActive(s.recvs[0], h, s.expected);
    assert {} + {k} == {k};
    hide AcceptStriped, AcceptOrdered, BufferFragment, Frags, PayloadOf, BadSendHeader, Sound, Range;
    if striping {
      StripedTakes(c, a, h, k, Frags(m), PayloadOf(m.data, k), env.faults);
    } else if k == 0 {
      OrderedTakes(c, a, m, 0, env.faults);
      RangesDiffer(1, Frags(m));
    }
  }

  lemma StoredAdvances(s: Rx, p: Peer, striping: bool, n: nat, j: nat, h: DataHeader, k: nat, q: seq<Byte>, env: Env)
    requires Gathering(s, p, striping, n) && s.active.None? && k < Frags(p.msgs[n])
    requires j < |s.reorder| && s.reorder[j].psn == s.expected && k !in s.reorder[j].seen
    ensures Advanced(StoreFragment(s, j, h, s.expected, k, q, env), p, striping, n, Grown(s, striping, k, q, env))
  {
    var e, m := s.reorder[j], p.msgs[n];
    ListSound(s, p, striping);
    RangesDiffer(0, Frags(m));
    var frags := if |q| > 0 then e.frags + [Frag(h.fragOffset, q)] else e.frags;
    var e' := e.(seen := e.seen + {k}, frags := frags);
    var s' := s.(reorder := s.reorder[j := e']);
    EntryUpdated(s.reorder, j, e');
    EntryRemoved(s.reorder, j);
    EntryFits(s, p, striping, n);
    SubsetOfRange(e'.seen, Frags(m));
    hide Drain, Find, TotalBytes, Entry, Sound, Range, Remove, BufOk;
    if e'.Complete() { DrainDelivers(s', env.faults); }
  }

  /** A fragment of the expected message joins those waiting in the list. */
  lemma BufferedIsMerged(s: Rx, p: Peer, striping: bool, n: nat, k: nat, env: Env)
    requires Sound(s, p, striping) && |s.cq| == n < |p.msgs| && s.rnr.None? && s.active.None?
    requires Entry(s.reorder, s.expected).Some? && k < Frags(p.msgs[n])
    ensures var j, q := Find(s.reorder, s.expected).value, PayloadOf(p.msgs[n].data, k);
            && s.expected == Psn.Of(p.base, n)
            && Step(s, p, striping, 0, Arrive(n, k, env)) == MergeFragment(s, j, FrameOf(p, n, k), s.expected, k, q, env)
            && Step(s, p, striping, 0, Arrive(n, k, env)) == BufferFragment(s, FrameOf(p, n, k), s.expected, q, env)
  {
    ListSound(s, p, striping);
    FrameFacts(p, n, k);
    Psn.DeltaOfCounters(p.base, n, n);
    hide MergeFragment, Drain, TotalBytes, Sound, Range, BufOk, PayloadOf, BadSendHeader, FragMatches, FragmentShape, ImmOf;
  }

  lemma BufferedAdvances(s: Rx, p: Peer, striping: bool, n: nat, k: nat, env: Env)
    requires Gathering(s, p, striping, n) && s.active.None? && Entry(s.reorder, s.expected).Some? && k < Frags(p.msgs[n])
    ensures Advanced(Step(s, p, striping, 0, Arrive(n, k, env)), p, striping, n, Next(s, p, striping, n, Arrive(n, k, env)))
  {
    var m, h, q := p.msgs[n], FrameOf(p, n, k), PayloadOf(p.msgs[n].data, k);
    FrameFacts(p, n, k);
    BufferedIsMerged(s, p, striping, n, k, env);
    EntryFits(s, p, striping, n);
    var j := Find(s.reorder, s.expected).value;
    var e := s.reorder[j];
    if k in e.seen && |q| > 0 { SeenMatches(e, m, k); }
    hide Step, StoreFragment, Drain, TotalBytes, Sound, Range, BufOk, PayloadOf, BadSendHeader, FragMatches, FragmentShape, ImmOf;
    if k !in e.seen { StoredAdvances(s, p, striping, n, j, h, k, q, env); }
  }

  lemma ArrivalAdvances(s: Rx, p: Peer, striping: bool, n: nat, i: nat, k: nat, env: Env)
    requires Gathering(s, p, striping, n) && Possible(Arrive(i, k, env), s, p)
    ensures Advanced(Step(s, p, striping, 0, Arrive(i, k, env)), p, striping, n, Next(s, p, striping, n, Arrive(i, k, env)))
  {
    hide Sound, Step, Range, Entry, Grown, Frags;
    HeldLacks(s, p, striping, n);
    if i != n { OthersApart(s, p, striping, n, i, k, env); }
    else if s.active.Some? { OpenAdvances(s, p, striping, n, k, env); }
    else if Entry(s.reorder, s.expected).Some? { BufferedAdvances(s, p, striping, n, k, env); }
    else { StartAdvances(s, p, striping, n, k, env); }
  }

  /** One step: exactly what `Next` says is then held of the expected message. */
  lemma StepAdvances(s: Rx, p: Peer, striping: bool, capacity: nat, n: nat, e: Event)
    requires Gathering(s, p, striping, n) && Possible(e, s, p)
    ensures Advanced(Step(s, p, striping, capacity, e), p, striping, n, Next(s, p, striping, n, e))
  {
    hide Sound, HandleSend, Drain, Range, NothingStale, Entry, Grown, Frags;
    ListSound(s, p, striping);
    HeldLacks(s, p, striping, n);
    match e
    case PostRecv(_) =>
    case DrainNow(f) => DrainStays(s, f);
    case Arrive(i, k, env) => ArrivalAdvances(s, p, striping, n, i, k, env);
  }

  // ----- whole runs -----

  /** The pieces of message `n` the engine has kept by the end of the run, all of them once it has been completed. */
  ghost function Gathered(s: Rx, p: Peer, striping: bool, capacity: nat, n: nat, events: seq<Event>): set<nat>
    requires RunFrom(s, p, striping, capacity, events).Some? && n < |p.msgs|
  {
    if events == [] then Held(s, striping)
    else
      var init, e := events[..|events| - 1], events[|events| - 1];
      var held := Gathered(s, p, striping, capacity, n, init);
      if held == Range(Frags(p.msgs[n])) then held
      else Next(RunFrom(s, p, striping, capacity, init).value, p, striping, n, e)
  }

  /**
   * The expected message, with a receive posted for it, is completed by a run exactly when the engine has kept every
   * one of its fragments, whatever else arrives, is posted or fails in between.
   */
  lemma {:induction false} CompletesExactlyWhenGathered(s: Rx, p: Peer, striping: bool, capacity: nat, n: nat, events: seq<Event>)
    requires Gathering(s, p, striping, n) && RunFrom(s, p, striping, capacity, events).Some?
    ensures var t := RunFrom(s, p, striping, capacity, events).value;
            && (|t.cq| > n <==> Gathered(s, p, striping, capacity, n, events) == Range(Frags(p.msgs[n])))
            && (|t.cq| <= n ==> Gathering(t, p, striping, n) && Held(t, striping) == Gathered(s, p, striping, capacity, n, events))
  {
    if events != [] {
      var init, e := events[..|events| - 1], events[|events| - 1];
      CompletesExactlyWhenGathered(s, p, striping, capacity, n, init);
      var t := RunFrom(s, p, striping, capacity, init).value;
      hide Sound, Step, Held, Grown, Range, Frags;
      StepAppends(t, p, striping, capacity, e);
      if |t.cq| <= n {
        assert Sound(t, p, striping);
        StepSound(t, p, striping, capacity, e);
        StepAdvances(t, p, striping, capacity, n, e);
      }
    }
  }

  // ----- messages nothing of which has come in yet -----

  /** Nothing of message `n` is held; a receive may be posted or not, a receiver-not-ready episode open or not. */
  ghost predicate Unopened(s: Rx, p: Peer, striping: bool, n: nat) {
    && Sound(s, p, striping) && MarkOk(s, p, striping) && |s.cq| == n < |p.msgs|
    && s.active.None? && Entry(s.reorder, s.expected).None?
  }

  /**
   * Fragment `k` of the expected message begins it: a receive is posted, after a receiver-not-ready answer it is the
   * fragment that got that answer, and without striping it is the first.
   */
  predicate Opens(s: Rx, striping: bool, k: nat) {
    s.recvs != [] && (s.rnr.Some? ==> s.rnr.value.fragOffset == k * MAX_PAYLOAD) && (striping || k == 0)
  }

  /** The fragments of message `n` that have arrived from the one on that begins it. */
  ghost function Arrived(s: Rx, p: Peer, capacity: nat, n: nat, events: seq<Event>): set<nat>
    requires RunFrom(s, p, true, capacity, events).Some?
  {
    if events == [] then {}
    else
      var init, e := events[..|events| - 1], events[|events| - 1];
      var before := Arrived(s, p, capacity, n, init);
      if e.Arrive? && e.i == n && (before != {} || Opens(RunFrom(s, p, true, capacity, init).value, true, e.k)) then before + {e.k}
      else before
  }

  /** How many fragments of message `n` arrive in index order, from the one on that begins it, whatever comes between them. */
  ghost function InOrder(s: Rx, p: Peer, capacity: nat, n: nat, events: seq<Event>): nat
    requires RunFrom(s, p, false, capacity, events).Some?
  {
    if events == [] then 0
    else
      var init, e := events[..|events| - 1], events[|events| - 1];
      var c := InOrder(s, p, capacity, n, init);
      if e.Arrive? && e.i == n && e.k == c && (c > 0 || Opens(RunFrom(s, p, false, capacity, init).value, false, e.k)) then c + 1
      else c
  }

  /** An engine that has begun the message, or not seen it yet, never holds pieces of it in the list. */
  lemma NotListed(s: Rx, p: Peer, striping: bool, capacity: nat, n: nat, e: Event)
    requires Gathering(s, p, striping, n) && Possible(e, s, p) && Entry(s.reorder, s.expected).None?
    requires |Step(s, p, striping, capacity, e).cq| <= n
    ensures var t := Step(s, p, striping, capacity, e); Entry(t.reorder, t.expected).None?
  {
    StepAdvances(s, p, striping, capacity, n, e);
    ListSound(s, p, striping);
    HeldLacks(s, p, striping, n);
    match e
    case PostRecv(_) =>
    case DrainNow(f) => DrainStays(s, f);
    case Arrive(i, k, env) =>
      if i != n { OthersApart(s, p, striping, n, i, k, env); } else { StartUnlisted(s, p, striping, n, k, env); }
  }

  lemma StartUnlisted(s: Rx, p: Peer, striping: bool, n: nat, k: nat, env: Env)
    requires Gathering(s, p, striping, n) && Entry(s.reorder, s.expected).None? && k < Frags(p.msgs[n])
    requires |Step(s, p, striping, 0, Arrive(n, k, env)).cq| <= n
    ensures var t := Step(s, p, striping, 0, Arrive(n, k, env)); Entry(t.reorder, t.expected).None?
  {
    var m, h, q := p.msgs[n], FrameOf(p, n, k), PayloadOf(p.msgs[n].data, k);
    ListSound(s, p, striping);
    FrameFacts(p, n, k);
    Psn.DeltaOfCounters(p.base, n, n);
    RangesDiffer(0, Frags(m));
    var c := if s.active.None? then s.(recvs := s.recvs[1..]) else s;
    var a := if s.active.None? then StartActive(s.recvs[0], h, s.expected) else s.active.value;
    if s.active.Some? { ActiveFits(s, p, striping, n); }
    hide AcceptStriped, AcceptOrdered, BufferFragment, Frags, PayloadOf, BadSendHeader, Sound, Range, Find;
    if striping {
      StripedTakes(c, a, h, k, Frags(m), q, env.faults);
    } else {
      if s.active.Some? { ActiveCases(s, p, n, n, k, env); }
      if a.received == k * MAX_PAYLOAD { OrderedTakes(c, a, m, k, env.faults); }
    }
  }

  lemma MarkCleared(s: Rx, p: Peer, striping: bool)
    requires Sound(s, p, striping)
    ensures Sound(s.(rnr := None), p, striping)
  {
    var posted, faults :| Inv(s, p, striping, posted, faults);
    RelistInv(s, s.(rnr := None), p, striping, posted, faults);
  }

  /** During an episode only the marked fragment is looked at, and it is handled as if there had been none. */
  lemma MarkDecides(s: Rx, p: Peer, striping: bool, n: nat, k: nat, env: Env)
    requires Unopened(s, p, striping, n) && k < Frags(p.msgs[n])
    ensures var e := Arrive(n, k, env);
            if s.rnr.Some? && s.rnr.value.fragOffset != k * MAX_PAYLOAD then Step(s, p, striping, 0, e) == s
            else Step(s, p, striping, 0, e) == Step(s.(rnr := None), p, striping, 0, e)
  {
    ListSound(s, p, striping);
    FrameFacts(p, n, k);
    hide HandleStriped, HandleOrdered, BadSendHeader, Entry, Sound, PayloadOf, PieceOf;
    assert s.rnr.None? ==> s.(rnr := None) == s;
  }

  /** Without a receive the fragment is answered, or dropped, and nothing is kept but the mark. */
  lemma UnpostedStays(s: Rx, p: Peer, striping: bool, n: nat, k: nat, env: Env)
    requires Unopened(s, p, striping, n) && s.rnr.None? && s.recvs == [] && k < Frags(p.msgs[n])
    ensures var t := Step(s, p, striping, 0, Arrive(n, k, env));
            t == s.(rnr := t.rnr, acks := t.acks) && MarkOk(t, p, striping)
  {
    ListSound(s, p, striping);
    FrameFacts(p, n, k);
    Psn.DeltaOfCounters(p.base, n, n);
    hide BufferFragment, AcceptStriped, AcceptOrdered, BadSendHeader, Sound, PayloadOf, PieceOf;
  }

  /** An out-of-order fragment of an unopened message is answered with an error when fragments are not striped. */
  lemma MisfitStays(s: Rx, p: Peer, n: nat, k: nat, env: Env)
    requires Unopened(s, p, false, n) && s.rnr.None? && 0 < k < Frags(p.msgs[n])
    ensures var t := Step(s, p, false, 0, Arrive(n, k, env)); t == s.(acks := t.acks)
  {
    ListSound(s, p, false);
    FrameFacts(p, n, k);
    hide BufferFragment, AcceptOrdered, BadSendHeader, Sound, PayloadOf, PieceOf;
  }

  lemma UnopenedGathers(s: Rx, p: Peer, striping: bool, n: nat)
    requires Unopened(s, p, striping, n) && s.rnr.None? && s.recvs != []
    ensures Gathering(s, p, striping, n) && Held(s, striping) == {}
  {
    RangesDiffer(0, Frags(p.msgs[n]));
  }

  /** Until a fragment begins the message, nothing that happens opens it. */
  lemma UnopenedStep(s: Rx, p: Peer, striping: bool, capacity: nat, n: nat, e: Event)
    requires Unopened(s, p, striping, n) && Possible(e, s, p)
    ensures var t := Step(s, p, striping, capacity, e);
            if e.Arrive? && e.i == n && Opens(s, striping, e.k) then
              && (if {e.k} == Range(Frags(p.msgs[n])) then |t.cq| > n
                  else Gathering(t, p, striping, n) && Entry(t.reorder, t.expected).None? && Held(t, striping) == {e.k})
            else Unopened(t, p, striping, n)
  {
    StepSound(s, p, striping, capacity, e);
    ListSound(s, p, striping);
    hide Sound, Step, Range, Entry, Frags, Drain, NothingStale, Find;
    match e
    case PostRecv(_) => PostKeepsUnopened(s, p, striping, capacity, n, e);
    case DrainNow(f) => DrainKeepsUnopened(s, p, striping, capacity, n, f);
    case Arrive(i, k, env) =>
      if i != n {
        OthersKeepUnopened(s, p, striping, n, i, k, env);
      } else {
        OwnUnopened(s, p, striping, n, k, env);
      }
  }

  lemma PostKeepsUnopened(s: Rx, p: Peer, striping: bool, capacity: nat, n: nat, e: Event)
    requires Unopened(s, p, striping, n) && e.PostRecv? && Sound(Step(s, p, striping, capacity, e), p, striping)
    ensures Unopened(Step(s, p, striping, capacity, e), p, striping, n)
  {
  }

  lemma DrainKeepsUnopened(s: Rx, p: Peer, striping: bool, capacity: nat, n: nat, f: set<(nat, nat)>)
    requires Unopened(s, p, striping, n)
    ensures Unopened(Step(s, p, striping, capacity, DrainNow(f)), p, striping, n)
  {
    ListSound(s, p, striping);
    DrainStays(s, f);
  }

  lemma OthersKeepUnopened(s: Rx, p: Peer, striping: bool, n: nat, i: nat, k: nat, env: Env)
    requires Unopened(s, p, striping, n) && i != n && Possible(Arrive(i, k, env), s, p)
    requires Sound(Step(s, p, striping, 0, Arrive(i, k, env)), p, striping)
    ensures Unopened(Step(s, p, striping, 0, Arrive(i, k, env)), p, striping, n)
  {
    assert Lacking(s);
    hide Sound, Step, Entry;
    OthersApart(s, p, striping, n, i, k, env);
  }

  lemma OwnUnopened(s: Rx, p: Peer, striping: bool, n: nat, k: nat, env: Env)
    requires Unopened(s, p, striping, n) && k < Frags(p.msgs[n])
    requires Possible(Arrive(n, k, env), s, p) && Sound(Step(s, p, striping, 0, Arrive(n, k, env)), p, striping)
    ensures var t := Step(s, p, striping, 0, Arrive(n, k, env));
            if Opens(s, striping, k) then
              && (if {k} == Range(Frags(p.msgs[n])) then |t.cq| > n
                  else Gathering(t, p, striping, n) && Entry(t.reorder, t.expected).None? && Held(t, striping) == {k})
            else Unopened(t, p, striping, n)
  {
    hide Sound, Step, Range, Entry, Frags;
    MarkDecides(s, p, striping, n, k, env);
    if !(s.rnr.Some? && s.rnr.value.fragOffset != k * MAX_PAYLOAD) {
      var c := s.(rnr := None);
      MarkCleared(s, p, striping);
      if s.recvs == [] {
        UnpostedStays(c, p, striping, n, k, env);
      } else if !striping && k > 0 {
        MisfitStays(c, p, n, k, env);
      } else {
        UnopenedGathers(c, p, striping, n);
        StepAdvances(c, p, striping, 0, n, Arrive(n, k, env));
        var t := Step(c, p, striping, 0, Arrive(n, k, env));
        assert Next(c, p, striping, n, Arrive(n, k, env)) == {k};
        if |t.cq| <= n { NotListed(c, p, striping, 0, n, Arrive(n, k, env)); }
      }
    }
  }

  /**
   * With fragment striping on, a message nothing of which has come in yet completes exactly when, from the fragment on
   * that begins it, every fragment has arrived at least once, in any order, whatever else arrives, is posted or fails.
   */
  lemma {:induction false} CompletesExactlyWhenAllArrived(s: Rx, p: Peer, capacity: nat, n: nat, events: seq<Event>)
    requires Unopened(s, p, true, n) && RunFrom(s, p, true, capacity, events).Some?
    ensures var t, all := RunFrom(s, p, true, capacity, events).value, Arrived(s, p, capacity, n, events);
            && (|t.cq| > n <==> all == Range(Frags(p.msgs[n])))
            && all <= Range(Frags(p.msgs[n]))
            && (|t.cq| <= n && all == {} ==> Unopened(t, p, true, n))
            && (|t.cq| <= n && all != {} ==> Gathering(t, p, true, n) && Entry(t.reorder, t.expected).None? && Held(t, true) == all)
  {
    hide Sound, Step, Held, Range, Frags, Entry, MarkOk;
    if events == [] {
      NotYetAll(p, n);
    } else {
      var init, e := events[..|events| - 1], events[|events| - 1];
      CompletesExactlyWhenAllArrived(s, p, capacity, n, init);
      var t, before := RunFrom(s, p, true, capacity, init).value, Arrived(s, p, capacity, n, init);
      NotYetAll(p, n);
      StepAppends(t, p, true, capacity, e);
      if e.Arrive? && e.i == n { FragmentIndex(p, n, e.k); }
      if |t.cq| <= n {
        if before == {} {
          UnopenedStep(t, p, true, capacity, n, e);
          if e.Arrive? { assert {} + {e.k} == {e.k}; }
        } else {
          StepSound(t, p, true, capacity, e);
          StepAdvances(t, p, true, capacity, n, e);
          if |Step(t, p, true, capacity, e).cq| <= n { NotListed(t, p, true, capacity, n, e); }
          NextStriped(t, p, n, e);
        }
      }
    }
  }

  lemma NotYetAll(p: Peer, n: nat)
    requires n < |p.msgs|
    ensures {} != Range(Frags(p.msgs[n])) && {} <= Range(Frags(p.msgs[n]))
  {
    RangesDiffer(0, Frags(p.msgs[n]));
  }

  lemma FragmentIndex(p: Peer, n: nat, k: nat)
    requires n < |p.msgs| && k < Frags(p.msgs[n])
    ensures k in Range(Frags(p.msgs[n])) && Range(Frags(p.msgs[n])) + {k} == Range(Frags(p.msgs[n]))
  {
  }

  lemma NextStriped(s: Rx, p: Peer, n: nat, e: Event)
    requires Gathering(s, p, true, n) && Possible(e, s, p) && Entry(s.reorder, s.expected).None?
    ensures Next(s, p, true, n, e) == Held(s, true) + if e.Arrive? && e.i == n then {e.k} else {}
  {
  }

  lemma NextOrdered(s: Rx, p: Peer, n: nat, c: nat, e: Event)
    requires Gathering(s, p, false, n) && Possible(e, s, p) && Entry(s.reorder, s.expected).None? && Held(s, false) == Range(c)
    ensures Next(s, p, false, n, e) == Range(if e.Arrive? && e.i == n && e.k == c then c + 1 else c)
  {
    RangesDiffer(0, c);
    assert Range(c) + {c} == Range(c + 1);
    if s.active.Some? {
      ActiveFits(s, p, false, n);
      RangesDiffer(s.active.value.received / MAX_PAYLOAD, c);
    }
  }

  /**
   * With fragment striping off, such a message completes exactly when, from the fragment on that begins it, its
   * fragments have arrived in index order, anything else, repeats among it, between them.
   */
  lemma {:induction false} CompletesExactlyWhenInOrder(s: Rx, p: Peer, capacity: nat, n: nat, events: seq<Event>)
    requires Unopened(s, p, false, n) && RunFrom(s, p, false, capacity, events).Some?
    ensures var t, c := RunFrom(s, p, false, capacity, events).value, InOrder(s, p, capacity, n, events);
            && (|t.cq| > n <==> c == Frags(p.msgs[n]))
            && c <= Frags(p.msgs[n])
            && (|t.cq| <= n && c == 0 ==> Unopened(t, p, false, n))
            && (|t.cq| <= n && c > 0 ==> Gathering(t, p, false, n) && Entry(t.reorder, t.expected).None? && Held(t, false) == Range(c))
  {
    hide Sound, Step, Held, Range, Frags, Entry, MarkOk;
    RangesDiffer(0, Frags(p.msgs[n]));
    NotYetAll(p, n);
    if events != [] {
      var init, e := events[..|events| - 1], events[|events| - 1];
      CompletesExactlyWhenInOrder(s, p, capacity, n, init);
      var t, c := RunFrom(s, p, false, capacity, init).value, InOrder(s, p, capacity, n, init);
      StepAppends(t, p, false, capacity, e);
      if |t.cq| <= n {
        RangesDiffer(InOrder(s, p, capacity, n, events), Frags(p.msgs[n]));
        if c == 0 {
          UnopenedStep(t, p, false, capacity, n, e);
          FirstRange();
        } else {
          StepSound(t, p, false, capacity, e);
          StepAdvances(t, p, false, capacity, n, e);
          if |Step(t, p, false, capacity, e).cq| <= n { NotListed(t, p, false, capacity, n, e); }
          NextOrdered(t, p, n, c, e);
        }
      }
    }
  }

  lemma FirstRange()
    ensures Range(1) == {0} && Range(0) == {}
  {
    assert Range(1) == Range(0) + {0};
  }

  // ----- every reachable state -----

  /** A mark is only ever set for the expected message, and it is cleared before anything of that message is kept. */
  lemma StepMarkOk(s: Rx, p: Peer, striping: bool, capacity: nat, e: Event)
    requires Sound(s, p, striping) && MarkOk(s, p, striping) && Possible(e, s, p)
    ensures MarkOk(Step(s, p, striping, capacity, e), p, striping)
  {
    if s.rnr.Some? {
      assert Unopened(s, p, striping, |s.cq|);
      hide Sound, Step, Entry, Range, Frags;
      UnopenedStep(s, p, striping, capacity, |s.cq|, e);
      StepAppends(s, p, striping, capacity, e);
      if e.Arrive? && e.i == |s.cq| { OpenedUnmarked(s, p, striping, e.k, e.env); }
    } else {
      match e
      case PostRecv(_) =>
      case DrainNow(f) => DrainAppends(s, f);
      case Arrive(i, k, env) => NewMarkOk(s, p, striping, i, k, env);
    }
  }

  lemma NewMarkOk(s: Rx, p: Peer, striping: bool, i: nat, k: nat, env: Env)
    requires Sound(s, p, striping) && s.rnr.None? && Possible(Arrive(i, k, env), s, p)
    ensures MarkOk(Step(s, p, striping, 0, Arrive(i, k, env)), p, striping)
  {
    ListSound(s, p, striping);
    FrameFacts(p, i, k);
    Psn.DeltaOfCounters(p.base, i, |s.cq|);
    var h, psn, q := FrameOf(p, i, k), Psn.Of(p.base, i), PayloadOf(p.msgs[i].data, k);
    if psn == s.expected { Psn.OfInjective(p.base, i, |s.cq|); }
    hide Sound, HandleStriped, HandleOrdered, BadSendHeader, Find, NothingStale, PayloadOf, PieceOf;
    StripedAppends(s, h, psn, q, env);
    OrderedAppends(s, h, psn, q, env);
  }

  /** The marked fragment ends the episode, unless it starts another. */
  lemma OpenedUnmarked(s: Rx, p: Peer, striping: bool, k: nat, env: Env)
    requires Unopened(s, p, striping, |s.cq|) && s.rnr.Some? && Possible(Arrive(|s.cq|, k, env), s, p)
    ensures MarkOk(Step(s, p, striping, 0, Arrive(|s.cq|, k, env)), p, striping)
  {
    MarkDecides(s, p, striping, |s.cq|, k, env);
    MarkCleared(s, p, striping);
    hide Step, Sound;
    NewMarkOk(s.(rnr := None), p, striping, |s.cq|, k, env);
  }

  /**
   * Every reachable state with a message to come is one of these: nothing of it is held; its pieces gather in an open
   * receive or in the list with a receive posted; they wait in the list for a receive; or all of them are there.
   */
  lemma {:induction false} ReachableStates(p: Peer, striping: bool, capacity: nat, events: seq<Event>)
    requires p.Valid() && RunOf(p, striping, capacity, events).Some?
    ensures var s := RunOf(p, striping, capacity, events).value.s;
            && Sound(s, p, striping) && MarkOk(s, p, striping)
            && (|s.cq| < |p.msgs| ==>
                  || Unopened(s, p, striping, |s.cq|) || Gathering(s, p, striping, |s.cq|)
                  || (s.active.None? && s.recvs == [] && Entry(s.reorder, s.expected).Some?)
                  || Held(s, striping) == Range(Frags(p.msgs[|s.cq|])))
  {
    RunInv(p, striping, capacity, events);
    hide Step, Inv, Range, Frags;
    if events != [] {
      var init, e := events[..|events| - 1], events[|events| - 1];
      ReachableStates(p, striping, capacity, init);
      StepMarkOk(RunOf(p, striping, capacity, init).value.s, p, striping, capacity, e);
    }
  }

  // ----- early fragments -----

  /** The pieces of the message under `psn` that wait in the list. */
  function Waiting(s: Rx, psn: nat): set<nat> {
    if Entry(s.reorder, psn).Some? then Entry(s.reorder, psn).value.seen else {}
  }

  lemma DeliverSound(s: Rx, j: nat, p: Peer, striping: bool, f: set<(nat, nat)>)
    requires Sound(s, p, striping) && s.active.None? && s.recvs != []
    requires j < |s.reorder| && s.reorder[j].psn == s.expected && s.reorder[j].Complete()
    ensures Sound(Deliver(s, j, f), p, striping)
  {
    var posted, faults :| Inv(s, p, striping, posted, faults);
    hide Inv, Deliver;
    MoreFaults(s, p, striping, posted, faults, faults + f);
    DeliverInv(s, j, p, striping, posted, faults + f, f);
  }

  /** A drain leaves what waits of message `i` alone until it delivers it. */
  lemma {:induction false} DrainRemembers(s: Rx, p: Peer, striping: bool, i: nat, f: set<(nat, nat)>)
    requires Sound(s, p, striping) && |s.cq| <= i < |s.cq| + REORDER_MAX_MESSAGES
    ensures |Drain(s, f).cq| > i || Entry(Drain(s, f).reorder, Psn.Of(p.base, i)) == Entry(s.reorder, Psn.Of(p.base, i))
    decreases |s.reorder|
  {
    ListSound(s, p, striping);
    hide Sound, NothingStale, CopyFrags, BufferedWc, Psn.Of;
    if s.active.None? && s.recvs != [] && Entry(s.reorder, s.expected).Some? && Entry(s.reorder, s.expected).value.Complete() {
      var j := Find(s.reorder, s.expected).value;
      var d := Deliver(s, j, f);
      DrainGoesOn(s, f);
      DeliverSound(s, j, p, striping, f);
      if |s.cq| == i {
        DrainAppends(d, f);
      } else {
        if Psn.Of(p.base, i) == s.expected { Psn.OfInjective(p.base, i, |s.cq|); }
        EntryRemove(s.reorder, j, Psn.Of(p.base, i));
        DrainRemembers(d, p, striping, i, f);
      }
    } else {
      DrainKeepsList(s, f);
    }
  }

  lemma DrainGoesOn(s: Rx, f: set<(nat, nat)>)
    requires NothingStale(s) && s.active.None? && s.recvs != []
    requires Entry(s.reorder, s.expected).Some? && Entry(s.reorder, s.expected).value.Complete()
    ensures Drain(s, f) == Drain(Deliver(s, Find(s.reorder, s.expected).value, f), f)
  {
    hide Deliver, Kept, StaleAcks, Psn.Delta, Consume;
    PruneNothing(s.reorder, s.expected, s.hist);
    assert s.acks + [] == s.acks && Prune(s) == s;
  }

  lemma DrainKeepsList(s: Rx, f: set<(nat, nat)>)
    requires NothingStale(s)
    requires !(s.active.None? && s.recvs != [] && Entry(s.reorder, s.expected).Some? && Entry(s.reorder, s.expected).value.Complete())
    ensures Drain(s, f).reorder == s.reorder
  {
    hide Deliver, Kept, StaleAcks, Psn.Delta, Consume;
    PruneNothing(s.reorder, s.expected, s.hist);
    assert s.acks + [] == s.acks && Prune(s) == s;
  }

  lemma EarlyIsBuffered(s: Rx, p: Peer, striping: bool, i: nat, k: nat, env: Env)
    requires Sound(s, p, striping) && MarkOk(s, p, striping) && Possible(Arrive(i, k, env), s, p)
    requires |s.cq| < i && (s.active.Some? ==> |s.cq| < |p.msgs|)
    ensures Step(s, p, striping, 0, Arrive(i, k, env))
            == BufferFragment(s, FrameOf(p, i, k), Psn.Of(p.base, i), PayloadOf(p.msgs[i].data, k), env)
  {
    ListSound(s, p, striping);
    FrameFacts(p, i, k);
    Psn.DeltaOfCounters(p.base, i, |s.cq|);
    if Psn.Of(p.base, i) == s.expected { Psn.OfInjective(p.base, i, |s.cq|); }
    hide BufferFragment, AcceptStriped, AcceptOrdered, NothingStale, Find, Sound, PieceOf, BadSendHeader;
    if s.active.Some? && !striping { ActiveCases(s, p, |s.cq|, i, k, env); }
  }

  lemma PieceStored(s: Rx, p: Peer, striping: bool, i: nat, j: nat, k: nat, frags: seq<Frag>)
    requires Sound(s, p, striping) && |s.cq| <= i < |s.cq| + REORDER_MAX_MESSAGES && i < |p.msgs| && k < Frags(p.msgs[i])
    requires j < |s.reorder| && s.reorder[j].psn == Psn.Of(p.base, i) && k !in s.reorder[j].seen
    requires var q := PayloadOf(p.msgs[i].data, k);
             frags == if |q| > 0 then s.reorder[j].frags + [Frag(k * MAX_PAYLOAD, q)] else s.reorder[j].frags
    ensures Sound(s.(reorder := s.reorder[j := s.reorder[j].(seen := s.reorder[j].seen + {k}, frags := frags)]), p, striping)
  {
    var posted, faults :| Inv(s, p, striping, posted, faults);
    EntryMessage(s.reorder[j], p, |s.cq|, i);
    StoredOk(s.reorder[j], p.msgs[i], k);
    hide CqOk, HistOk, ActiveOk, BufOk;
    ReplaceInv(s, j, s.reorder[j].(seen := s.reorder[j].seen + {k}, frags := frags), p, striping, posted, faults);
  }

  lemma PayloadFits(data: seq<Byte>, k: nat)
    requires k < Count(|data|, MAX_PAYLOAD)
    ensures |PayloadOf(data, k)| <= MAX_PAYLOAD
  {
  }

  lemma StoreRemembers(s: Rx, p: Peer, striping: bool, i: nat, j: nat, k: nat, env: Env)
    requires Sound(s, p, striping) && |s.cq| < i < |s.cq| + REORDER_MAX_MESSAGES && i < |p.msgs| && k < Frags(p.msgs[i])
    requires j < |s.reorder| && s.reorder[j].psn == Psn.Of(p.base, i) && k !in s.reorder[j].seen
    requires env.fragAlloc && TotalBytes(s.reorder) + MAX_PAYLOAD <= REORDER_MAX_BYTES
    ensures var psn := Psn.Of(p.base, i);
            var t := StoreFragment(s, j, FrameOf(p, i, k), psn, k, PayloadOf(p.msgs[i].data, k), env);
            |t.cq| > i || Waiting(t, psn) == s.reorder[j].seen + {k}
  {
    hide Drain, Find, TotalBytes, Sound, NothingStale, Entry, Psn.Of, PayloadOf, PieceOf, Remove, ErrorAck, Count;
    var h, e := FrameOf(p, i, k), s.reorder[j];
    var q := PayloadOf(p.msgs[i].data, k);
    PayloadFits(p.msgs[i].data, k);
    var frags := if |q| > 0 then e.frags + [Frag(k * MAX_PAYLOAD, q)] else e.frags;
    var e' := e.(seen := e.seen + {k}, frags := frags);
    ListSound(s, p, striping);
    FrameFacts(p, i, k);
    PieceStored(s, p, striping, i, j, k, frags);
    EntryUpdated(s.reorder, j, e');
    DrainRemembers(s.(reorder := s.reorder[j := e']), p, striping, i, env.faults);
  }

  /**
   * With room and memory a fragment of a message that is not expected yet is kept beside those already waiting,
   * whether or not another message is being received, unless storing it lets the message itself be delivered.
   */
  lemma EarlyFragmentIsRemembered(s: Rx, p: Peer, striping: bool, i: nat, k: nat, env: Env)
    requires Sound(s, p, striping) && MarkOk(s, p, striping) && |s.cq| < i < |s.cq| + REORDER_MAX_MESSAGES && i < |p.msgs|
    requires k < Frags(p.msgs[i]) && env.msgAlloc && env.fragAlloc && |s.reorder| < REORDER_MAX_MESSAGES
    requires TotalBytes(s.reorder) + MAX_PAYLOAD <= REORDER_MAX_BYTES
    ensures var t, psn := Step(s, p, striping, 0, Arrive(i, k, env)), Psn.Of(p.base, i);
            |t.cq| > i || Waiting(t, psn) == Waiting(s, psn) + {k}
  {
    hide BufferFragment, StoreFragment, Drain, Find, Sound, TotalBytes, NothingStale, FragMatches, PayloadOf, Psn.Of, Step;
    var h, psn, q := FrameOf(p, i, k), Psn.Of(p.base, i), PayloadOf(p.msgs[i].data, k);
    ListSound(s, p, striping);
    EarlyIsBuffered(s, p, striping, i, k, env);
    FrameFacts(p, i, k);
    Psn.DeltaOfCounters(p.base, i, |s.cq|);
    BufferCases(s, h, psn, Shape(k, Frags(p.msgs[i])), q, env);
    match Find(s.reorder, psn)
    case Some(j) =>
      DrainRemembers(s, p, striping, i, env.faults);
      EntryIsOurs(s, p, striping, i, j, k);
      if k in s.reorder[j].seen {
        assert s.reorder[j].seen + {k} == s.reorder[j].seen;
      } else {
        StoreRemembers(s, p, striping, i, j, k, env);
      }
    case None =>
      var e := Buffered(h.srcQp, psn, h.imm, ImmOf(h), {}, []);
      NoBytes(s.reorder, e);
      assert {} + {k} == {k};
      EntryAdded(s, p, striping, i, e);
      StoreRemembers(s.(reorder := s.reorder + [e]), p, striping, i, |s.reorder|, k, env);
  }

  lemma BufferCases(s: Rx, h: DataHeader, psn: nat, shape: Shape, q: seq<Byte>, env: Env)
    requires 0 <= Psn.Delta(psn, s.expected) < REORDER_MAX_MESSAGES && ShapeOf(h) == Some(shape)
    requires env.msgAlloc && |s.reorder| < REORDER_MAX_MESSAGES
    ensures BufferFragment(s, h, psn, q, env)
            == match Find(s.reorder, psn)
               case Some(j) => MergeFragment(s, j, h, psn, shape.idx, q, env)
               case None =>
                 StoreFragment(s.(reorder := s.reorder + [Buffered(h.srcQp, psn, h.imm, ImmOf(h), {}, [])]),
                               |s.reorder|, h, psn, shape.idx, q, env)
  {
  }

  lemma NoBytes(list: seq<Buffered>, e: Buffered)
    requires e.frags == []
    ensures TotalBytes(list + [e]) == TotalBytes(list)
  {
    assert (list + [e])[..|list|] == list;
  }

  lemma EntryAdded(s: Rx, p: Peer, striping: bool, i: nat, e: Buffered)
    requires Sound(s, p, striping) && (s.active.Some? ==> i != |s.cq|) && |s.cq| <= i < |s.cq| + REORDER_MAX_MESSAGES && i < |p.msgs|
    requires e == Buffered(p.msgs[i].srcQp, Psn.Of(p.base, i), |p.msgs[i].data|, p.msgs[i].imm, {}, [])
    requires Find(s.reorder, e.psn).None?
    ensures Sound(s.(reorder := s.reorder + [e]), p, striping)
  {
    var posted, faults :| Inv(s, p, striping, posted, faults);
    NewEntryInv(s, e, p, striping, posted, faults, i);
  }

  /** What waits under the PSN of message `i` is of that message, and a repeated fragment finds its twin. */
  lemma EntryIsOurs(s: Rx, p: Peer, striping: bool, i: nat, j: nat, k: nat)
    requires Sound(s, p, striping) && |s.cq| <= i < |s.cq| + REORDER_MAX_MESSAGES && i < |p.msgs| && k < Frags(p.msgs[i])
    requires j < |s.reorder| && s.reorder[j].psn == Psn.Of(p.base, i)
    ensures var e, m := s.reorder[j], p.msgs[i];
            && e.srcQp == m.srcQp && e.totalLen == |m.data| && e.imm == m.imm && e.seen <= Range(Frags(m))
            && (k in e.seen && |PayloadOf(m.data, k)| > 0 ==> FragMatches(e.frags, k * MAX_PAYLOAD, PayloadOf(m.data, k)))
  {
    var posted, faults :| Inv(s, p, striping, posted, faults);
    EntryMessage(s.reorder[j], p, |s.cq|, i);
    if k in s.reorder[j].seen && |PayloadOf(p.msgs[i].data, k)| > 0 { SeenMatches(s.reorder[j], p.msgs[i], k); }
  }
}
