/**
 * Which ACK every fragment gets: the answers of each step are given outright, in the wire's own statuses, and over any
 * run each completed message is answered with its own outcome and nothing is acknowledged that was not consumed.
 */
module RxAcks {
  import opened Basics
  import opened Fragment
  import opened NativeData
  import opened RxSpec
  import opened RxProof
  import opened RxProgress
  import opened RxGather
  import Psn

  function AckTo(p: Peer, i: nat, status: AckStatus): Ack
    requires i < |p.msgs|
  {
    Ack(p.msgs[i].srcQp, Psn.Of(p.base, i), status)
  }

  /** The ACK of a completed message: OK when its completion succeeded and an error otherwise. */
  function FinalAck(p: Peer, cq: seq<Wc>, c: nat): Ack
    requires c < |cq| <= |p.msgs|
  {
    AckTo(p, c, if cq[c].status == Success then AckOk else AckError)
  }

  function Finals(p: Peer, cq: seq<Wc>, from: nat): seq<Ack>
    requires from <= |cq| <= |p.msgs|
    decreases |cq| - from
  {
    if from == |cq| then [] else [FinalAck(p, cq, from)] + Finals(p, cq, from + 1)
  }

  lemma {:induction false} FinalsAt(p: Peer, cq: seq<Wc>, from: nat)
    requires from <= |cq| <= |p.msgs|
    ensures |Finals(p, cq, from)| == |cq| - from
    ensures forall c | from <= c < |cq| :: Finals(p, cq, from)[c - from] == FinalAck(p, cq, c)
    decreases |cq| - from
  {
    if from < |cq| { FinalsAt(p, cq, from + 1); }
  }

  /** Every fragment of message `i` waits in the list. */
  ghost predicate AllWaiting(s: Rx, p: Peer, i: nat)
    requires i < |p.msgs|
  {
    Waiting(s, Psn.Of(p.base, i)) == Range(Frags(p.msgs[i]))
  }

  /** The expected message is all there but for a receive. */
  ghost predicate Starved(s: Rx, p: Peer) {
    s.active.None? && |s.cq| < |p.msgs| && AllWaiting(s, p, |s.cq|)
  }

  /** The answer of a drain that ends in want of a receive. */
  ghost function Renewal(t: Rx, p: Peer, drained: bool): seq<Ack> {
    if drained && Starved(t, p) then [AckTo(p, |t.cq|, AckRnr)] else []
  }

  /** What a step from `s` to `t` has sent: `own` to the arriving fragment, one ACK per completion, and perhaps RNR. */
  ghost predicate Sent(s: Rx, t: Rx, p: Peer, own: seq<Ack>, drained: bool) {
    && s.cq <= t.cq && |t.cq| <= |p.msgs|
    && t.acks == s.acks + own + Finals(p, t.cq, |s.cq|) + Renewal(t, p, drained)
    && (drained && Starved(t, p) ==> t.recvs == [])
    && (own != [] ==> t.cq == s.cq && t.recvs == s.recvs)
  }

  // ----- draining -----

  lemma CqFits(s: Rx, p: Peer, striping: bool)
    requires Sound(s, p, striping)
    ensures |s.cq| <= |p.msgs| && (s.active.None? && s.recvs != [] ==> s.expected == Psn.Of(p.base, |s.cq|))
  {
    var posted, faults :| Inv(s, p, striping, posted, faults);
  }

  /** One more message consumed, then what `t` sent. */
  lemma SentAfter(s: Rx, d: Rx, t: Rx, p: Peer)
    requires |s.cq| < |d.cq| == |s.cq| + 1 && s.cq <= d.cq && |d.cq| <= |p.msgs|
    requires d.acks == s.acks + [FinalAck(p, d.cq, |s.cq|)] && Sent(d, t, p, [], true)
    ensures Sent(s, t, p, [], true)
  {
    hide Starved;
    assert d.cq[|s.cq|] == t.cq[|s.cq|];
  }

  lemma DeliverAcks(s: Rx, p: Peer, striping: bool, f: set<(nat, nat)>)
    requires Sound(s, p, striping) && s.active.None? && s.recvs != []
    requires Entry(s.reorder, s.expected).Some? && Entry(s.reorder, s.expected).value.Complete()
    ensures |s.cq| < |p.msgs|
    ensures var d := Deliver(s, Find(s.reorder, s.expected).value, f);
            |d.reorder| < |s.reorder| && |d.cq| == |s.cq| + 1 && s.cq <= d.cq && d.acks == s.acks + [FinalAck(p, d.cq, |s.cq|)]
  {
    ListSound(s, p, striping);
    ListedIsToCome(s, p, striping);
    EntryFits(s, p, striping, |s.cq|);
    hide CopyFrags, Sound, BufOk;
  }

  lemma ListedIsToCome(s: Rx, p: Peer, striping: bool)
    requires Sound(s, p, striping) && Entry(s.reorder, s.expected).Some?
    ensures |s.cq| < |p.msgs|
  {
    var posted, faults :| Inv(s, p, striping, posted, faults);
    assert EntryOk(s.reorder[Find(s.reorder, s.expected).value], p, |s.cq|);
    Psn.DeltaOfCounters(p.base, |s.cq|, |s.cq|);
  }

  lemma DrainRests(s: Rx, f: set<(nat, nat)>)
    requires NothingStale(s)
    requires !(s.active.None? && s.recvs != [] && Entry(s.reorder, s.expected).Some? && Entry(s.reorder, s.expected).value.Complete())
    ensures var e := Entry(s.reorder, s.expected);
            Drain(s, f) == if s.active.None? && e.Some? && e.value.Complete() then SendAck(s, e.value.srcQp, e.value.psn, AckRnr) else s
  {
    hide Deliver, Kept, StaleAcks, Psn.Delta, Consume;
    PruneNothing(s.reorder, s.expected, s.hist);
    assert s.acks + [] == s.acks && Prune(s) == s;
  }

  /** A drain that delivers nothing answers only a message that is all there. */
  lemma DrainStops(s: Rx, p: Peer, striping: bool, f: set<(nat, nat)>)
    requires Sound(s, p, striping)
    requires !(s.active.None? && s.recvs != [] && Entry(s.reorder, s.expected).Some? && Entry(s.reorder, s.expected).value.Complete())
    ensures Sent(s, Drain(s, f), p, [], true)
  {
    hide Sound, FragsOk, IdxSet, Range, Drain, NothingStale, Find, Psn.Of;
    ListSound(s, p, striping);
    CqFits(s, p, striping);
    DrainRests(s, f);
    if |s.cq| < |p.msgs| { RangesDiffer(0, Frags(p.msgs[|s.cq|])); CeilingBounds(|p.msgs[|s.cq|].data|, MAX_PAYLOAD); }
    if Entry(s.reorder, s.expected).Some? {
      ListedIsToCome(s, p, striping);
      EntryFits(s, p, striping, |s.cq|);
    }
  }

  /** A drain sends each message it delivers its own ACK, in order, and RNR for a complete one that finds no receive. */
  lemma {:induction false} DrainAcks(s: Rx, p: Peer, striping: bool, f: set<(nat, nat)>)
    requires Sound(s, p, striping)
    ensures Sent(s, Drain(s, f), p, [], true)
    decreases |s.reorder|
  {
    hide Sound, Sent, Deliver, NothingStale;
    ListSound(s, p, striping);
    if s.active.None? && s.recvs != [] && Entry(s.reorder, s.expected).Some? && Entry(s.reorder, s.expected).value.Complete() {
      var j := Find(s.reorder, s.expected).value;
      var d := Deliver(s, j, f);
      DrainGoesOn(s, f);
      DeliverSound(s, j, p, striping, f);
      DeliverAcks(s, p, striping, f);
      CqFits(d, p, striping);
      DrainAcks(d, p, striping, f);
      SentAfter(s, d, Drain(s, f), p);
    } else {
      DrainStops(s, p, striping, f);
    }
  }

  // ----- fragments that wait -----

  /** The bytes of the stored fragments, one after another, and those of the whole list. */
  function Stored(frags: seq<Frag>): seq<Byte> {
    if frags == [] then [] else Stored(frags[..|frags| - 1]) + frags[|frags| - 1].data
  }

  function AllStored(list: seq<Buffered>): seq<Byte> {
    if list == [] then [] else AllStored(list[..|list| - 1]) + Stored(list[|list| - 1].frags)
  }

  lemma {:induction false} StoredLength(frags: seq<Frag>)
    ensures |Stored(frags)| == FragBytes(frags)
  {
    if frags != [] { StoredLength(frags[..|frags| - 1]); }
  }

  lemma {:induction false} AllStoredLength(list: seq<Buffered>)
    ensures |AllStored(list)| == TotalBytes(list)
  {
    if list != [] {
      AllStoredLength(list[..|list| - 1]);
      StoredLength(list[|list| - 1].frags);
    }
  }

  /** The list has no place or the kernel no memory for the fragment, or it is too far ahead. */
  ghost predicate Refused(s: Rx, p: Peer, i: nat, k: nat, env: Env)
    requires i < |p.msgs| && k < Frags(p.msgs[i])
  {
    var waiting, len := Entry(s.reorder, Psn.Of(p.base, i)), |PayloadOf(p.msgs[i].data, k)|;
    || i - |s.cq| >= 1024
    || (waiting.None? && (|s.reorder| >= 1024 || !env.msgAlloc))
    || (k !in Waiting(s, Psn.Of(p.base, i)) && len > 0 && (|AllStored(s.reorder)| + len > 67108864 || !env.fragAlloc))
  }

  /** The message of the arriving fragment is all there, waiting or consumed: such an arrival drains the list. */
  ghost predicate Whole(t: Rx, p: Peer, i: nat)
    requires i < |p.msgs|
  {
    |t.cq| > i || AllWaiting(t, p, i)
  }

  ghost function Refusal(p: Peer, i: nat, refused: bool): seq<Ack>
    requires i < |p.msgs|
  {
    if refused then [AckTo(p, i, AckError)] else []
  }

  /** The entry of message `i` after fragment `k` has been kept. */
  function Extended(e: Buffered, p: Peer, i: nat, k: nat): Buffered
    requires i < |p.msgs| && k < Frags(p.msgs[i])
  {
    var q := PayloadOf(p.msgs[i].data, k);
    e.(seen := e.seen + {k}, frags := if |q| > 0 then e.frags + [Frag(k * MAX_PAYLOAD, q)] else e.frags)
  }

  /** A message whose last missing fragment is kept sets off a drain. */
  lemma KeptAcks(s: Rx, p: Peer, striping: bool, i: nat, j: nat, f: set<(nat, nat)>)
    requires Sound(s, p, striping) && |s.cq| <= i < |s.cq| + 1024 && i < |p.msgs|
    requires j < |s.reorder| && s.reorder[j].psn == Psn.Of(p.base, i)
    ensures var t := if s.reorder[j].Complete() then Drain(s, f) else s;
            Sent(s, t, p, [], Whole(t, p, i))
  {
    hide Drain, Sound, NothingStale, Psn.Of, Range, Starved, FragMatches, Sent;
    ListSound(s, p, striping);
    CqFits(s, p, striping);
    EntryUpdated(s.reorder, j, s.reorder[j]);
    assert s.reorder[j := s.reorder[j]] == s.reorder;
    EntryIsOurs(s, p, striping, i, j, 0);
    SubsetOfRange(s.reorder[j].seen, Frags(p.msgs[i]));
    DrainRemembers(s, p, striping, i, f);
    DrainAcks(s, p, striping, f);
    NothingSent(s, p);
  }

  lemma NothingSent(s: Rx, p: Peer)
    requires |s.cq| <= |p.msgs|
    ensures Sent(s, s, p, [], false)
  {
  }

  lemma DroppedAcks(s: Rx, p: Peer, striping: bool, i: nat, j: nat, k: nat)
    requires Sound(s, p, striping) && |s.cq| <= i < |p.msgs| && k < Frags(p.msgs[i])
    requires j < |s.reorder| && s.reorder[j].psn == Psn.Of(p.base, i)
    ensures var t := ErrorAck(s.(reorder := Remove(s.reorder, j)), FrameOf(p, i, k), Psn.Of(p.base, i));
            Sent(s, t, p, Refusal(p, i, true), Whole(t, p, i))
  {
    hide Sound, NothingStale, Psn.Of, Starved, Remove, Frags, Range;
    ListSound(s, p, striping);
    CqFits(s, p, striping);
    EntryRemoved(s.reorder, j);
    RangesDiffer(0, Frags(p.msgs[i]));
    CeilingBounds(|p.msgs[i].data|, MAX_PAYLOAD);
  }

  /** The fragment is kept, or refused with an error for want of memory. */
  lemma StoreAcks(s: Rx, p: Peer, striping: bool, i: nat, j: nat, k: nat, env: Env)
    requires Sound(s, p, striping) && |s.cq| <= i < |s.cq| + 1024 && i < |p.msgs| && k < Frags(p.msgs[i])
    requires j < |s.reorder| && s.reorder[j].psn == Psn.Of(p.base, i) && k !in s.reorder[j].seen
    ensures var psn, q := Psn.Of(p.base, i), PayloadOf(p.msgs[i].data, k);
            var t := StoreFragment(s, j, FrameOf(p, i, k), psn, k, q, env);
            var refused := |q| > 0 && (TotalBytes(s.reorder) + |q| > 67108864 || !env.fragAlloc);
            Sent(s, t, p, Refusal(p, i, refused), Whole(t, p, i))
  {
    hide Drain, Find, TotalBytes, Sound, NothingStale, Entry, Psn.Of, Remove, Starved, PayloadOf, Sent, Whole, ErrorAck, Buffered.Complete;
    ListSound(s, p, striping);
    FrameFacts(p, i, k);
    PieceStored(s, p, striping, i, j, k, Extended(s.reorder[j], p, i, k).frags);
    var s' := s.(reorder := s.reorder[j := Extended(s.reorder[j], p, i, k)]);
    var t := StoreFragment(s, j, FrameOf(p, i, k), Psn.Of(p.base, i), k, PayloadOf(p.msgs[i].data, k), env);
    KeptAcks(s', p, striping, i, j, env.faults);
    Relisted(s, s', t, p, [], Whole(t, p, i));
    DroppedAcks(s, p, striping, i, j, k);
  }

  lemma Relisted(s: Rx, s': Rx, t: Rx, p: Peer, own: seq<Ack>, drained: bool)
    requires s'.cq == s.cq && s'.acks == s.acks && (own == [] || s'.recvs == s.recvs)
    ensures Sent(s', t, p, own, drained) ==> Sent(s, t, p, own, drained)
  {
  }

  lemma MergeAcks(s: Rx, p: Peer, striping: bool, i: nat, j: nat, k: nat, env: Env)
    requires Sound(s, p, striping) && |s.cq| <= i < |s.cq| + 1024 && i < |p.msgs| && k < Frags(p.msgs[i])
    requires Find(s.reorder, Psn.Of(p.base, i)) == Some(j)
    ensures var t := MergeFragment(s, j, FrameOf(p, i, k), Psn.Of(p.base, i), k, PayloadOf(p.msgs[i].data, k), env);
            Sent(s, t, p, Refusal(p, i, Refused(s, p, i, k, env)), Whole(t, p, i))
  {
    hide Drain, TotalBytes, Sound, NothingStale, Psn.Of, Remove, Starved, PayloadOf, Sent, Whole, StoreFragment, FragMatches,
      ErrorAck, Buffered.Complete, AllStored;
    AllStoredLength(s.reorder);
    ListSound(s, p, striping);
    FrameFacts(p, i, k);
    EntryIsOurs(s, p, striping, i, j, k);
    KeptAcks(s, p, striping, i, j, env.faults);
    if k !in s.reorder[j].seen { StoreAcks(s, p, striping, i, j, k, env); }
  }

  /** A fragment that has to wait: kept, or refused with an error; the one that makes its message whole drains the list. */
  lemma BufferAcks(s: Rx, p: Peer, striping: bool, i: nat, k: nat, env: Env)
    requires Sound(s, p, striping) && Possible(Arrive(i, k, env), s, p)
    requires |s.cq| <= i && (s.active.Some? ==> i != |s.cq|)
    ensures var t := BufferFragment(s, FrameOf(p, i, k), Psn.Of(p.base, i), PayloadOf(p.msgs[i].data, k), env);
            Sent(s, t, p, Refusal(p, i, Refused(s, p, i, k, env)), Whole(t, p, i))
  {
    hide Drain, Sound, NothingStale, Psn.Of, Starved, PayloadOf, Sent, MergeFragment, StoreFragment, FragmentShape, AllStored;
    var h, psn, q := FrameOf(p, i, k), Psn.Of(p.base, i), PayloadOf(p.msgs[i].data, k);
    ListSound(s, p, striping);
    FrameFacts(p, i, k);
    Psn.DeltaOfCounters(p.base, i, |s.cq|);
    var r := Find(s.reorder, psn);
    if i - |s.cq| >= 1024 || (r.None? && (|s.reorder| >= 1024 || !env.msgAlloc)) {
      if i - |s.cq| >= 1024 { FarIsUnlisted(s, p, striping, i); }
      AnsweredAtOnce(s, p, striping, i, AckError);
    } else {
      if r.Some? {
        MergeAcks(s, p, striping, i, r.value, k, env);
      } else {
        NewAcks(s, p, striping, i, k, env);
      }
    }
  }

  /** The first fragment of a message that has to wait. */
  lemma NewAcks(s: Rx, p: Peer, striping: bool, i: nat, k: nat, env: Env)
    requires Sound(s, p, striping) && |s.cq| <= i < |s.cq| + 1024 && i < |p.msgs| && k < Frags(p.msgs[i])
    requires (s.active.Some? ==> i != |s.cq|) && Find(s.reorder, Psn.Of(p.base, i)).None? && |s.reorder| < 1024 && env.msgAlloc
    ensures var h, psn, q := FrameOf(p, i, k), Psn.Of(p.base, i), PayloadOf(p.msgs[i].data, k);
            var s1 := s.(reorder := s.reorder + [Buffered(h.srcQp, psn, h.imm, ImmOf(h), {}, [])]);
            var t := StoreFragment(s1, |s.reorder|, h, psn, k, q, env);
            Sent(s, t, p, Refusal(p, i, Refused(s, p, i, k, env)), Whole(t, p, i))
  {
    hide Sound, NothingStale, Psn.Of, Starved, PayloadOf, Sent, StoreFragment, Whole, TotalBytes;
    var h, psn, q := FrameOf(p, i, k), Psn.Of(p.base, i), PayloadOf(p.msgs[i].data, k);
    ListSound(s, p, striping);
    FrameFacts(p, i, k);
    var e := Buffered(h.srcQp, psn, h.imm, ImmOf(h), {}, []);
    var s1 := s.(reorder := s.reorder + [e]);
    AllStoredLength(s.reorder);
    NoBytes(s.reorder, e);
    EntryAdded(s, p, striping, i, e);
    StoreAcks(s1, p, striping, i, |s.reorder|, k, env);
    var t := StoreFragment(s1, |s.reorder|, h, psn, k, q, env);
    Relisted(s, s1, t, p, Refusal(p, i, Refused(s, p, i, k, env)), Whole(t, p, i));
  }

  lemma FarIsUnlisted(s: Rx, p: Peer, striping: bool, i: nat)
    requires Sound(s, p, striping) && 1024 <= i - |s.cq| < Psn.HALF
    ensures Find(s.reorder, Psn.Of(p.base, i)).None?
  {
    var posted, faults :| Inv(s, p, striping, posted, faults);
    hide CqOk, HistOk, ActiveOk, BufOk;
    Psn.DeltaOfCounters(p.base, i, |s.cq|);
    forall t | 0 <= t < |s.reorder| ensures s.reorder[t].psn != Psn.Of(p.base, i) {
      assert EntryOk(s.reorder[t], p, |s.cq|);
    }
  }

  /** One ACK and nothing else. */
  lemma AnsweredAtOnce(s: Rx, p: Peer, striping: bool, i: nat, status: AckStatus)
    requires Sound(s, p, striping) && |s.cq| <= i < |p.msgs|
    requires Find(s.reorder, Psn.Of(p.base, i)).None?
    ensures var t := SendAck(s, p.msgs[i].srcQp, Psn.Of(p.base, i), status);
            Sent(s, t, p, [AckTo(p, i, status)], Whole(t, p, i))
  {
    hide Sound, Psn.Of, Starved;
    CqFits(s, p, striping);
    CeilingBounds(|p.msgs[i].data|, MAX_PAYLOAD);
    RangesDiffer(0, Frags(p.msgs[i]));
  }

  // ----- the message being received -----

  /** The open message is complete: its own ACK, then whatever the drain behind it sends. */
  lemma FinishAcks(s: Rx, b: Active, p: Peer, striping: bool, f: set<(nat, nat)>)
    requires Sound(FinishSend(s.(active := Some(b))), p, striping)
    requires |s.cq| < |p.msgs| && b.psn == Psn.Of(p.base, |s.cq|) && b.srcQp == p.msgs[|s.cq|].srcQp
    ensures var t := Drain(FinishSend(s.(active := Some(b))), f);
            Sent(s, t, p, [], true) && |t.cq| > |s.cq|
  {
    var d := FinishSend(s.(active := Some(b)));
    hide Sound, Drain, Starved, HistStore;
    CqFits(d, p, striping);
    DrainAcks(d, p, striping, f);
    SentAfter(s, d, Drain(d, f), p);
  }

  /** The open message takes a piece and is still incomplete. */
  lemma StillOpen(s: Rx, t: Rx, p: Peer)
    requires t == s.(active := t.active) && t.active.Some? && |s.cq| < |p.msgs|
    requires Absent(s.reorder, Psn.Of(p.base, |s.cq|))
    ensures Sent(s, t, p, [], Whole(t, p, |s.cq|))
  {
    RangesDiffer(0, Frags(p.msgs[|s.cq|]));
    CeilingBounds(|p.msgs[|s.cq|].data|, MAX_PAYLOAD);
  }

  lemma StripedAcks(s: Rx, a: Active, p: Peer, posted: seq<Wqe>, faults: set<(nat, nat)>, k: nat, f: set<(nat, nat)>)
    requires Receiving(s, a, p, true, posted, faults) && f <= faults && k < Frags(p.msgs[|s.cq|])
    ensures var m, n := p.msgs[|s.cq|], |s.cq|;
            var t := AcceptStriped(s, a, FrameOf(p, n, k), Shape(k, Frags(m)), PayloadOf(m.data, k), f);
            Sent(s, t, p, [], Whole(t, p, n))
  {
    hide ReorderOk, CqOk, HistOk, ActiveOk, Drain, FinishSend, Absorb, Inv, Sent, AllWaiting, Psn.Of, PayloadOf, Absent;
    var m := p.msgs[|s.cq|];
    FrameFacts(p, |s.cq|, k);
    PieceAdded(s, a, p, posted, faults, k, f);
    var b := WithPiece(a, k, k * MAX_PAYLOAD, PayloadOf(m.data, k), f);
    if |b.seen| == Frags(m) { FinishAcks(s, b, p, true, f); } else { StillOpen(s, s.(active := Some(b)), p); }
  }

  lemma OrderedAcks(s: Rx, a: Active, p: Peer, posted: seq<Wqe>, faults: set<(nat, nat)>, k: nat, f: set<(nat, nat)>)
    requires Receiving(s, a, p, false, posted, faults) && f <= faults
    requires k < Frags(p.msgs[|s.cq|]) && a.received == k * MAX_PAYLOAD
    ensures var m, n := p.msgs[|s.cq|], |s.cq|;
            var t := AcceptOrdered(s, a, k * MAX_PAYLOAD, PayloadOf(m.data, k), k == Frags(m) - 1, f);
            Sent(s, t, p, [], Whole(t, p, n))
  {
    hide ReorderOk, CqOk, HistOk, ActiveOk, Drain, FinishSend, Absorb, Inv, Sent, AllWaiting, Psn.Of, PayloadOf, Absent;
    var m := p.msgs[|s.cq|];
    var b := Absorb(a, k * MAX_PAYLOAD, PayloadOf(m.data, k), f);
    if k == Frags(m) - 1 {
      LastPieceInv(s, a, p, posted, faults, k, f);
      FinishAcks(s, b, p, false, f);
    } else {
      StillOpen(s, s.(active := Some(b)), p);
    }
  }

  lemma OpenAcks(s: Rx, p: Peer, striping: bool, k: nat, env: Env)
    requires Sound(s, p, striping) && MarkOk(s, p, striping) && s.active.Some? && |s.cq| < |p.msgs| && k < Frags(p.msgs[|s.cq|])
    ensures var t := Step(s, p, striping, 0, Arrive(|s.cq|, k, env)); Sent(s, t, p, [], Whole(t, p, |s.cq|))
  {
    var posted, faults :| Inv(s, p, striping, posted, faults);
    var a := s.active.value;
    var more := faults + env.faults;
    MoreFaults(s, p, striping, posted, faults, more);
    OpenCases(s, p, striping, |s.cq|, k, env);
    hide Step, ReorderOk, CqOk, HistOk, ActiveOk, AcceptStriped, AcceptOrdered, Sent, Whole, Psn.Of, PayloadOf, Absent, Sound, MarkOk;
    assert Receiving(s, a, p, striping, posted, more);
    StillOpen(s, s, p);
    if striping {
      StripedAcks(s, a, p, posted, more, k, env.faults);
    } else if a.received == k * MAX_PAYLOAD {
      OrderedAcks(s, a, p, posted, more, k, env.faults);
    }
  }

  /** What the engine does with a fragment of a message nothing of which is held, outside an episode. */
  lemma UnopenedCases(s: Rx, p: Peer, striping: bool, k: nat, env: Env)
    requires Unopened(s, p, striping, |s.cq|) && s.rnr.None? && k < Frags(p.msgs[|s.cq|])
    ensures var n, h, m := |s.cq|, FrameOf(p, |s.cq|, k), p.msgs[|s.cq|];
            Step(s, p, striping, 0, Arrive(n, k, env))
            == if !striping && k > 0 then ErrorAck(s, h, s.expected)
               else if s.recvs == [] then NotReady(s, h, s.expected)
               else
                 var c, a := s.(recvs := s.recvs[1..]), StartActive(s.recvs[0], h, s.expected);
                 if striping then AcceptStriped(c, a, h, Shape(k, Frags(m)), PayloadOf(m.data, k), env.faults)
                 else AcceptOrdered(c, a, k * MAX_PAYLOAD, PayloadOf(m.data, k), k == Frags(m) - 1, env.faults)
  {
    ListSound(s, p, striping);
    FrameFacts(p, |s.cq|, k);
    Psn.DeltaOfCounters(p.base, |s.cq|, |s.cq|);
    hide AcceptStriped, AcceptOrdered, BufferFragment, Frags, PayloadOf, BadSendHeader, Sound, NothingStale;
  }

  lemma StartAcks(s: Rx, p: Peer, striping: bool, k: nat, env: Env)
    requires Unopened(s, p, striping, |s.cq|) && s.rnr.None? && k < Frags(p.msgs[|s.cq|]) && s.recvs != [] && (striping || k == 0)
    ensures var t := Step(s, p, striping, 0, Arrive(|s.cq|, k, env)); Sent(s, t, p, [], Whole(t, p, |s.cq|))
  {
    var posted, faults :| Inv(s, p, striping, posted, faults);
    var more := faults + env.faults;
    MoreFaults(s, p, striping, posted, faults, more);
    UnopenedCases(s, p, striping, k, env);
    var c, a := s.(recvs := s.recvs[1..]), StartActive(s.recvs[0], FrameOf(p, |s.cq|, k), s.expected);
    assert Absent(s.reorder, s.expected);
    StartReceiving(s, p, striping, posted, more, k);
    var t := Step(s, p, striping, 0, Arrive(|s.cq|, k, env));
    hide Step, Inv, Receiving, AcceptStriped, AcceptOrdered, Sent, Whole, Psn.Of, PayloadOf, Sound, Unopened;
    if striping {
      StripedAcks(c, a, p, posted, more, k, env.faults);
    } else {
      OrderedAcks(c, a, p, posted, more, k, env.faults);
    }
    Relisted(s, c, t, p, [], Whole(t, p, |s.cq|));
  }

  /** During an episode everything but the marked fragment of the expected message goes unanswered. */
  predicate Muted(s: Rx, k: nat) { s.rnr.Some? && s.rnr.value.fragOffset != k * 4048 }

  /** The answer to fragment `k` of message `i` itself. */
  ghost function Answer(s: Rx, p: Peer, striping: bool, i: nat, k: nat, env: Env): seq<Ack>
    requires i < |p.msgs| && k < Frags(p.msgs[i])
  {
    if i < |s.cq| then [AckTo(p, i, if |s.cq| - i <= 1024 && s.cq[i].status != Success then AckError else AckOk)]
    else if i > |s.cq| || (s.active.None? && Entry(s.reorder, s.expected).Some?) then
      if Refused(s, p, i, k, env) then [AckTo(p, i, AckError)] else []
    else if s.active.Some? || Muted(s, k) then []
    else if !striping && k > 0 then [AckTo(p, i, AckError)]
    else if s.recvs == [] then [AckTo(p, i, AckRnr)]
    else []
  }

  lemma UnopenedAcks(s: Rx, p: Peer, striping: bool, k: nat, env: Env)
    requires Unopened(s, p, striping, |s.cq|) && k < Frags(p.msgs[|s.cq|])
    ensures var t := Step(s, p, striping, 0, Arrive(|s.cq|, k, env));
            Sent(s, t, p, Answer(s, p, striping, |s.cq|, k, env), Whole(t, p, |s.cq|))
  {
    var c, t := s.(rnr := None), Step(s, p, striping, 0, Arrive(|s.cq|, k, env));
    ListSound(s, p, striping);
    FrameFacts(p, |s.cq|, k);
    MarkDecides(s, p, striping, |s.cq|, k, env);
    MarkCleared(s, p, striping);
    hide Step, Sound, Sent, Psn.Of, Starved, PayloadOf, NothingStale;
    AnsweredAtOnce(c, p, striping, |s.cq|, if !striping && k > 0 then AckError else AckRnr);
    if Muted(s, k) {
      UnheldSilence(s, p);
    } else {
      UnopenedCases(c, p, striping, k, env);
      if s.recvs != [] && (striping || k == 0) { StartAcks(c, p, striping, k, env); }
      Relisted(s, c, t, p, Answer(s, p, striping, |s.cq|, k, env), Whole(t, p, |s.cq|));
    }
  }

  lemma UnheldSilence(s: Rx, p: Peer)
    requires |s.cq| < |p.msgs| && Entry(s.reorder, Psn.Of(p.base, |s.cq|)).None?
    ensures Sent(s, s, p, [], Whole(s, p, |s.cq|))
  {
    CeilingBounds(|p.msgs[|s.cq|].data|, MAX_PAYLOAD);
    RangesDiffer(0, Frags(p.msgs[|s.cq|]));
  }

  // ----- every step -----

  /** A fragment of a consumed message is answered with that message's outcome, or OK once the history has forgotten it. */
  lemma StaleAnswered(s: Rx, p: Peer, striping: bool, i: nat, k: nat, env: Env)
    requires Sound(s, p, striping) && MarkOk(s, p, striping) && Possible(Arrive(i, k, env), s, p) && i < |s.cq|
    ensures Step(s, p, striping, 0, Arrive(i, k, env)) == s.(acks := s.acks + Answer(s, p, striping, i, k, env))
  {
    var posted, faults :| Inv(s, p, striping, posted, faults);
    HistoryExact(s, p, striping, posted, faults, i);
    ListSound(s, p, striping);
    FrameFacts(p, i, k);
    Psn.DeltaOfCounters(p.base, i, |s.cq|);
    if Psn.Of(p.base, i) == s.expected { Psn.OfInjective(p.base, i, |s.cq|); }
    hide Inv, BufferFragment, AcceptStriped, AcceptOrdered, NothingStale, Find, Sound, PieceOf, BadSendHeader, Psn.Of, PayloadOf;
    StaleIsReacked(s, FrameOf(p, i, k), Psn.Of(p.base, i), PayloadOf(p.msgs[i].data, k), env);
    if s.active.Some? && !striping { ActiveCases(s, p, |s.cq|, i, k, env); }
  }

  lemma ArrivalAnswers(s: Rx, p: Peer, striping: bool, i: nat, k: nat, env: Env)
    requires Sound(s, p, striping) && MarkOk(s, p, striping) && Possible(Arrive(i, k, env), s, p)
    ensures var t := Step(s, p, striping, 0, Arrive(i, k, env));
            Sent(s, t, p, Answer(s, p, striping, i, k, env), |s.cq| <= i && Whole(t, p, i))
  {
    hide Step, Sound, Sent, Psn.Of, Starved, PayloadOf, Whole, BufferFragment, Refused;
    CqFits(s, p, striping);
    ListSound(s, p, striping);
    if i < |s.cq| {
      StaleAnswered(s, p, striping, i, k, env);
      OnlyOwn(s, p, Answer(s, p, striping, i, k, env));
    } else if i > |s.cq| {
      EarlyIsBuffered(s, p, striping, i, k, env);
      BufferAcks(s, p, striping, i, k, env);
    } else if s.active.Some? {
      OpenAcks(s, p, striping, k, env);
    } else if Entry(s.reorder, s.expected).Some? {
      BufferedIsMerged(s, p, striping, i, k, env);
      BufferAcks(s, p, striping, i, k, env);
    } else {
      UnopenedAcks(s, p, striping, k, env);
    }
  }

  lemma OnlyOwn(s: Rx, p: Peer, own: seq<Ack>)
    requires |s.cq| <= |p.msgs|
    ensures Sent(s, s.(acks := s.acks + own), p, own, false)
  {
  }

  ghost function AnswerTo(s: Rx, p: Peer, striping: bool, e: Event): seq<Ack>
    requires e.Arrive? ==> e.i < |p.msgs| && e.k < Frags(p.msgs[e.i])
  {
    if e.Arrive? then Answer(s, p, striping, e.i, e.k, e.env) else []
  }

  /** The step ends with a drain of the list. */
  ghost predicate Drains(s: Rx, t: Rx, p: Peer, e: Event)
    requires e.Arrive? ==> e.i < |p.msgs|
  {
    match e
    case PostRecv(_) => false
    case DrainNow(_) => true
    case Arrive(i, _, _) => |s.cq| <= i && Whole(t, p, i)
  }

  /**
   * All the ACKs of one step, in order: the answer to the arriving fragment, for each message it completes one ACK that
   * is OK if and only if the completion succeeded and an error otherwise, and receiver-not-ready if and only if the step
   * drained the list and the expected message is all there without a receive.
   */
  lemma StepAnswers(s: Rx, p: Peer, striping: bool, capacity: nat, e: Event)
    requires Sound(s, p, striping) && MarkOk(s, p, striping) && Possible(e, s, p)
    ensures var t := Step(s, p, striping, capacity, e);
            Sent(s, t, p, AnswerTo(s, p, striping, e), Drains(s, t, p, e))
  {
    CqFits(s, p, striping);
    hide HandleSend, Drain, Sound, Whole, Starved, Answer, Sent;
    match e
    case PostRecv(w) => OnlyOwn(s, p, []); Reposted(s, Post(s, capacity, w), p);
    case DrainNow(f) => DrainAcks(s, p, striping, f);
    case Arrive(i, k, env) => ArrivalAnswers(s, p, striping, i, k, env);
  }

  lemma Reposted(s: Rx, t: Rx, p: Peer)
    requires |s.cq| <= |p.msgs| && t == s.(recvs := t.recvs)
    ensures Sent(s, t, p, [], false)
  {
  }

  /**
   * In a step that completes messages the new ACKs are exactly theirs, each with the PSN and queue pair of its message
   * and its own outcome, and possibly one receiver-not-ready answer behind them.
   */
  lemma CompletionsAnswered(s: Rx, p: Peer, striping: bool, capacity: nat, e: Event)
    requires Sound(s, p, striping) && MarkOk(s, p, striping) && Possible(e, s, p)
    requires |Step(s, p, striping, capacity, e).cq| > |s.cq|
    ensures var t := Step(s, p, striping, capacity, e);
            && s.cq <= t.cq && |t.cq| <= |p.msgs| && s.acks <= t.acks
            && var n, sent := |t.cq| - |s.cq|, t.acks[|s.acks|..];
               && |sent| >= n
               && (forall x | 0 <= x < n ::
                     var c := |s.cq| + x;
                     sent[x] == Ack(p.msgs[c].srcQp, Psn.Of(p.base, c), if t.cq[c].status == Success then AckOk else AckError))
               && sent[n..]
                  == if Drains(s, t, p, e) && Starved(t, p) then [Ack(p.msgs[|t.cq|].srcQp, Psn.Of(p.base, |t.cq|), AckRnr)] else []
  {
    hide Step, Sound, MarkOk, Starved, Drains, AnswerTo, Psn.Of;
    var t := Step(s, p, striping, capacity, e);
    StepAnswers(s, p, striping, capacity, e);
    FinalsAt(p, t.cq, |s.cq|);
    Behind(s.acks, Finals(p, t.cq, |s.cq|), Renewal(t, p, Drains(s, t, p, e)), t.acks);
    forall x | 0 <= x < |t.cq| - |s.cq| ensures t.acks[|s.acks|..][x] == FinalAck(p, t.cq, |s.cq| + x) {
      assert Finals(p, t.cq, |s.cq|)[|s.cq| + x - |s.cq|] == FinalAck(p, t.cq, |s.cq| + x);
    }
  }

  lemma Behind(a: seq<Ack>, f: seq<Ack>, r: seq<Ack>, t: seq<Ack>)
    requires t == a + [] + f + r
    ensures a <= t && t[|a|..] == f + r && (f + r)[|f|..] == r && forall x | 0 <= x < |f| :: t[|a|..][x] == f[x]
  {
  }

  /** A fragment of the expected message finds nothing of it held, no receive posted, and no episode that mutes it. */
  predicate FindsNoReceive(s: Rx, striping: bool, e: Event) {
    && e.Arrive? && e.i == |s.cq| && s.active.None? && Entry(s.reorder, s.expected).None?
    && !Muted(s, e.k) && (striping || e.k == 0) && s.recvs == []
  }

  /**
   * Receiver-not-ready is sent if and only if the expected message finds no receive: its fragment does, or a drain finds
   * all of it waiting. It always names the message then expected, and no receive is posted at that moment.
   */
  lemma NotReadyExactly(s: Rx, p: Peer, striping: bool, capacity: nat, e: Event)
    requires Sound(s, p, striping) && MarkOk(s, p, striping) && Possible(e, s, p)
    ensures var t := Step(s, p, striping, capacity, e);
            && s.acks <= t.acks
            && ((exists a :: a in t.acks[|s.acks|..] && a.status == AckRnr)
                <==> FindsNoReceive(s, striping, e) || (Drains(s, t, p, e) && Starved(t, p)))
            && (forall a | a in t.acks[|s.acks|..] && a.status == AckRnr ::
                  |t.cq| < |p.msgs| && t.recvs == [] && a == Ack(p.msgs[|t.cq|].srcQp, Psn.Of(p.base, |t.cq|), AckRnr))
  {
    hide Step, Sound, MarkOk, AllWaiting, Drains, Psn.Of, AnswerTo;
    var t := Step(s, p, striping, capacity, e);
    var own, r := AnswerTo(s, p, striping, e), Renewal(t, p, Drains(s, t, p, e));
    StepAnswers(s, p, striping, capacity, e);
    FinalsAreFinal(p, t.cq, |s.cq|);
    OwnNotReady(s, p, striping, e);
    Parts(s.acks, own, Finals(p, t.cq, |s.cq|), r, t.acks);
  }

  lemma Parts(a: seq<Ack>, own: seq<Ack>, f: seq<Ack>, r: seq<Ack>, t: seq<Ack>)
    requires t == a + own + f + r
    ensures a <= t && forall x :: x in t[|a|..] <==> x in own || x in f || x in r
  {
    assert t[|a|..] == own + f + r;
  }

  lemma {:induction false} FinalsAreFinal(p: Peer, cq: seq<Wc>, from: nat)
    requires from <= |cq| <= |p.msgs|
    ensures forall a | a in Finals(p, cq, from) :: a.status != AckRnr && exists c: nat :: from <= c < |cq| && a == FinalAck(p, cq, c)
    decreases |cq| - from
  {
    if from < |cq| { FinalsAreFinal(p, cq, from + 1); }
  }

  lemma OwnNotReady(s: Rx, p: Peer, striping: bool, e: Event)
    requires Possible(e, s, p) && |s.cq| <= |p.msgs|
    requires MarkOk(s, p, striping)
    ensures forall a | a in AnswerTo(s, p, striping, e) && a.status == AckRnr ::
              FindsNoReceive(s, striping, e) && a == AckTo(p, e.i, AckRnr)
    ensures FindsNoReceive(s, striping, e) ==> AckTo(p, e.i, AckRnr) in AnswerTo(s, p, striping, e)
  {
    hide Refused, Entry, Psn.Of;
  }

  /**
   * Receiver-not-ready episodes: the fragment that finds no receive opens one and is the one to end it; nothing else does
   * either, whatever arrives, is posted or drained.
   */
  lemma EpisodesExactly(s: Rx, p: Peer, striping: bool, capacity: nat, e: Event)
    requires Sound(s, p, striping) && MarkOk(s, p, striping) && Possible(e, s, p)
    ensures var t := Step(s, p, striping, capacity, e);
            t.rnr == if FindsNoReceive(s, striping, e) && e.i < |p.msgs|
                     then Some(Rnr(p.msgs[e.i].srcQp, Psn.Of(p.base, e.i), 0, e.k * 4048))
                     else if e.Arrive? && e.i == |s.cq| && !Muted(s, e.k) then None
                     else s.rnr
  {
    hide HandleSend, Drain, Sound, Entry;
    match e
    case PostRecv(w) =>
    case DrainNow(f) => DrainAppends(s, f);
    case Arrive(i, k, env) =>
      if i != |s.cq| {
        OthersKeepMark(s, p, striping, i, k, env);
      } else if s.active.None? && Entry(s.reorder, s.expected).None? {
        assert Unopened(s, p, striping, i);
        OwnMark(s, p, striping, k, env);
      } else {
        HeldKeepsMark(s, p, striping, k, env);
      }
  }

  lemma OthersKeepMark(s: Rx, p: Peer, striping: bool, i: nat, k: nat, env: Env)
    requires Sound(s, p, striping) && MarkOk(s, p, striping) && Possible(Arrive(i, k, env), s, p) && i != |s.cq|
    ensures Step(s, p, striping, 0, Arrive(i, k, env)).rnr == s.rnr
  {
    hide HandleStriped, HandleOrdered, Sound, Find, NothingStale, PieceOf, BadSendHeader, PayloadOf, Psn.Of;
    ListSound(s, p, striping);
    FrameFacts(p, i, k);
    Psn.DeltaOfCounters(p.base, i, |s.cq|);
    if Psn.Of(p.base, i) == s.expected { Psn.OfInjective(p.base, i, |s.cq|); }
    StripedAppends(s, FrameOf(p, i, k), Psn.Of(p.base, i), PayloadOf(p.msgs[i].data, k), env);
    OrderedAppends(s, FrameOf(p, i, k), Psn.Of(p.base, i), PayloadOf(p.msgs[i].data, k), env);
  }

  /** Something of the expected message is held, so there is no episode and none begins. */
  lemma HeldKeepsMark(s: Rx, p: Peer, striping: bool, k: nat, env: Env)
    requires Sound(s, p, striping) && MarkOk(s, p, striping) && Possible(Arrive(|s.cq|, k, env), s, p)
    requires s.active.Some? || Entry(s.reorder, s.expected).Some?
    ensures s.rnr == None && Step(s, p, striping, 0, Arrive(|s.cq|, k, env)).rnr == None
  {
    hide HandleStriped, HandleOrdered, Sound, NothingStale, PieceOf, BadSendHeader, PayloadOf, Psn.Of;
    var i := |s.cq|;
    ListSound(s, p, striping);
    FrameFacts(p, i, k);
    StripedAppends(s, FrameOf(p, i, k), Psn.Of(p.base, i), PayloadOf(p.msgs[i].data, k), env);
    OrderedAppends(s, FrameOf(p, i, k), Psn.Of(p.base, i), PayloadOf(p.msgs[i].data, k), env);
  }

  lemma OwnMark(s: Rx, p: Peer, striping: bool, k: nat, env: Env)
    requires Unopened(s, p, striping, |s.cq|) && k < Frags(p.msgs[|s.cq|])
    ensures Step(s, p, striping, 0, Arrive(|s.cq|, k, env)).rnr
            == if Muted(s, k) then s.rnr
               else if (striping || k == 0) && s.recvs == [] then Some(Rnr(p.msgs[|s.cq|].srcQp, Psn.Of(p.base, |s.cq|), 0, k * 4048))
               else None
  {
    hide AcceptStriped, AcceptOrdered, HandleSend, Sound, PayloadOf, Psn.Of, PieceOf, NothingStale;
    var n, m := |s.cq|, p.msgs[|s.cq|];
    ListSound(s, p, striping);
    FrameFacts(p, n, k);
    MarkDecides(s, p, striping, n, k, env);
    if !Muted(s, k) {
      var c := s.(rnr := None);
      MarkCleared(s, p, striping);
      UnopenedCases(c, p, striping, k, env);
      if c.recvs != [] {
        var h := FrameOf(p, n, k);
        AcceptAppends(c.(recvs := c.recvs[1..]), StartActive(c.recvs[0], h, c.expected), h, Shape(k, Frags(m)), k * MAX_PAYLOAD,
                      PayloadOf(m.data, k), k == Frags(m) - 1, env.faults);
      }
    }
  }

  // ----- whole runs -----

  /** An OK is for a message that succeeded, or for one that more than 1024 others have followed. */
  ghost predicate Vouched(a: Ack, p: Peer, cq: seq<Wc>)
    requires |cq| <= |p.msgs|
  {
    a.status == AckOk ==>
      exists i: nat :: i < |cq| && Named(a, p, i) && (cq[i].status == Success || |cq| - i > 1024)
  }

  predicate Named(a: Ack, p: Peer, i: nat)
    requires i < |p.msgs|
  {
    a.peerQp == p.msgs[i].srcQp && a.psn == Psn.Of(p.base, i)
  }

  lemma StillVouched(a: Ack, p: Peer, cq: seq<Wc>, cq': seq<Wc>)
    requires cq <= cq' && |cq'| <= |p.msgs| && Vouched(a, p, cq)
    ensures Vouched(a, p, cq')
  {
    if a.status == AckOk {
      var i: nat :| i < |cq| && Named(a, p, i) && (cq[i].status == Success || |cq| - i > 1024);
      assert Named(a, p, i) && cq'[i] == cq[i];
    }
  }

  lemma OwnVouched(s: Rx, p: Peer, striping: bool, e: Event)
    requires Possible(e, s, p) && |s.cq| <= |p.msgs|
    ensures forall a | a in AnswerTo(s, p, striping, e) :: Vouched(a, p, s.cq)
  {
    hide Refused, Entry, Psn.Of;
    if e.Arrive? && e.i < |s.cq| {
      forall a | a in AnswerTo(s, p, striping, e) ensures Vouched(a, p, s.cq) {
        assert Named(a, p, e.i);
      }
    }
  }

  lemma FinalVouched(p: Peer, cq: seq<Wc>, c: nat)
    requires c < |cq| <= |p.msgs|
    ensures Vouched(FinalAck(p, cq, c), p, cq)
  {
    assert Named(FinalAck(p, cq, c), p, c);
  }

  /** What a step has newly sent, for the messages it completed and for others. */
  lemma StepVouches(s: Rx, p: Peer, striping: bool, capacity: nat, e: Event)
    requires Sound(s, p, striping) && MarkOk(s, p, striping) && Possible(e, s, p)
    ensures var t := Step(s, p, striping, capacity, e);
            && s.acks <= t.acks && s.cq <= t.cq && |t.cq| <= |p.msgs|
            && (forall a | a in t.acks[|s.acks|..] :: Vouched(a, p, t.cq))
            && (forall c: nat | |s.cq| <= c < |t.cq| :: FinalAck(p, t.cq, c) in t.acks[|s.acks|..])
  {
    hide Step, Sound, MarkOk, Starved, Drains, Psn.Of, AnswerTo, Vouched, FinalAck;
    var t := Step(s, p, striping, capacity, e);
    StepAnswers(s, p, striping, capacity, e);
    var own, f, r := AnswerTo(s, p, striping, e), Finals(p, t.cq, |s.cq|), Renewal(t, p, Drains(s, t, p, e));
    Parts(s.acks, own, f, r, t.acks);
    FinalsAreFinal(p, t.cq, |s.cq|);
    FinalsAt(p, t.cq, |s.cq|);
    OwnVouched(s, p, striping, e);
    forall a | a in t.acks[|s.acks|..] ensures Vouched(a, p, t.cq) {
      if a in own {
        StillVouched(a, p, s.cq, t.cq);
      } else if a in f {
        var c: nat :| |s.cq| <= c < |t.cq| && a == FinalAck(p, t.cq, c);
        FinalVouched(p, t.cq, c);
      } else {
        RenewalVouched(a, t, p, Drains(s, t, p, e));
      }
    }
    forall c: nat | |s.cq| <= c < |t.cq| ensures FinalAck(p, t.cq, c) in t.acks[|s.acks|..] {
      assert f[c - |s.cq|] == FinalAck(p, t.cq, c);
    }
  }

  lemma RenewalVouched(a: Ack, t: Rx, p: Peer, drained: bool)
    requires a in Renewal(t, p, drained) && |t.cq| <= |p.msgs|
    ensures Vouched(a, p, t.cq)
  {
  }

  /**
   * From any reachable state on: each message a run completes has been sent the ACK of its own outcome, and every OK the
   * run has sent is for a message completed with success or for one that has left the history of 1024.
   */
  lemma {:induction false} RunAnswers(s: Rx, p: Peer, striping: bool, capacity: nat, events: seq<Event>)
    requires Sound(s, p, striping) && MarkOk(s, p, striping) && RunFrom(s, p, striping, capacity, events).Some?
    ensures var t := RunFrom(s, p, striping, capacity, events).value;
            && Sound(t, p, striping) && MarkOk(t, p, striping)
            && s.acks <= t.acks && s.cq <= t.cq && |t.cq| <= |p.msgs|
            && (forall a | a in t.acks[|s.acks|..] :: Vouched(a, p, t.cq))
            && (forall c: nat | |s.cq| <= c < |t.cq| ::
                  Ack(p.msgs[c].srcQp, Psn.Of(p.base, c), if t.cq[c].status == Success then AckOk else AckError) in t.acks[|s.acks|..])
  {
    hide Step, Sound, MarkOk, Psn.Of, Vouched;
    if events == [] {
      CqFits(s, p, striping);
    } else {
      var init, e := events[..|events| - 1], events[|events| - 1];
      RunAnswers(s, p, striping, capacity, init);
      var t := RunFrom(s, p, striping, capacity, init).value;
      var t' := Step(t, p, striping, capacity, e);
      StepSound(t, p, striping, capacity, e);
      StepMarkOk(t, p, striping, capacity, e);
      StepVouches(t, p, striping, capacity, e);
      Later(s.acks, t.acks, t'.acks);
      forall a | a in t.acks[|s.acks|..] ensures Vouched(a, p, t'.cq) { StillVouched(a, p, t.cq, t'.cq); }
      forall c: nat | |s.cq| <= c < |t'.cq|
        ensures AckTo(p, c, if t'.cq[c].status == Success then AckOk else AckError) in t'.acks[|s.acks|..]
      {
        if c < |t.cq| {
          assert t'.cq[c] == t.cq[c];
        } else {
          assert FinalAck(p, t'.cq, c) in t'.acks[|t.acks|..];
        }
      }
    }
  }

  lemma Later(a: seq<Ack>, b: seq<Ack>, c: seq<Ack>)
    requires a <= b <= c
    ensures a <= c && c[|a|..] == b[|a|..] + c[|b|..]
  {
  }

  lemma {:induction false} RunsAgree(p: Peer, striping: bool, capacity: nat, events: seq<Event>)
    requires RunOf(p, striping, capacity, events).Some?
    ensures RunFrom(Fresh(Psn.Of(p.base, 0)), p, striping, capacity, events) == Some(RunOf(p, striping, capacity, events).value.s)
  {
    hide Step, Psn.Of;
    if events != [] { RunsAgree(p, striping, capacity, events[..|events| - 1]); }
  }

  /**
   * Over any run of a fresh queue pair every completed message has been acknowledged with its own outcome, and no other
   * is ever acknowledged OK while its outcome is remembered.
   */
  lemma AcksTellTheOutcome(p: Peer, striping: bool, capacity: nat, events: seq<Event>)
    requires p.Valid() && RunOf(p, striping, capacity, events).Some?
    ensures var s := RunOf(p, striping, capacity, events).value.s;
            && |s.cq| <= |p.msgs|
            && (forall c: nat | c < |s.cq| ::
                  Ack(p.msgs[c].srcQp, Psn.Of(p.base, c), if s.cq[c].status == Success then AckOk else AckError) in s.acks)
            && (forall a | a in s.acks && a.status == AckOk :: exists i: nat ::
                  i < |s.cq| && Named(a, p, i) && (s.cq[i].status == Success || |s.cq| - i > 1024))
  {
    hide RunOf, RunFrom, Sound, MarkOk;
    FreshIsReached(p, striping, capacity);
    RunsAgree(p, striping, capacity, events);
    RunAnswers(Fresh(Psn.Of(p.base, 0)), p, striping, capacity, events);
    var s := RunOf(p, striping, capacity, events).value.s;
    assert s.acks[0..] == s.acks;
  }

  lemma FreshIsReached(p: Peer, striping: bool, capacity: nat)
    requires p.Valid()
    ensures Sound(Fresh(Psn.Of(p.base, 0)), p, striping) && MarkOk(Fresh(Psn.Of(p.base, 0)), p, striping)
  {
    RunInv(p, striping, capacity, []);
  }
}
