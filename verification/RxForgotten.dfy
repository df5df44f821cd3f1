/**
 * The ACK history is bounded: a run in which a message fails, 1024 more are consumed, and a late duplicate
 * of the failed one is then acknowledged as a success.
 */
module RxForgotten {
  import opened Basics
  import opened Fragment
  import opened NativeData
  import opened RxSpec
  import opened RxProof
  import opened RxProgress
  import Psn

  /** The first message is one byte long, all others are empty. */
  function ShortMessages(base: nat, count: nat): Peer {
    Peer(base, 0, seq(count, i => Message(0, if i == 0 then [7] else [], None, false)))
  }

  const NO_ROOM := Wqe(0, [])

  const CALM := Env(true, true, {})

  /** Every message so far found an empty receive, and the first did not fit into it. */
  ghost predicate AllConsumed(s: Rx, n: nat) {
    && s.active.None? && s.reorder == [] && s.recvs == [] && s.rnr.None?
    && |s.cq| == n && (n > 0 ==> s.cq[0].status == LenErr)
  }

  lemma DrainEmpty(s: Rx, f: set<(nat, nat)>)
    requires s.active.None? && s.reorder == []
    ensures Drain(s, f) == s
  {
    assert s.acks + [] == s.acks;
  }

  /** A posted receive takes the next message whole. */
  lemma OneConsumed(s: Rx, p: Peer, striping: bool, n: nat)
    requires p.Valid() && AllConsumed(s, n) && s.expected == Psn.Of(p.base, n)
    requires n < |p.msgs| && p.msgs[n] == Message(0, if n == 0 then [7] else [], None, false)
    ensures AllConsumed(Step(s.(recvs := [NO_ROOM]), p, striping, 0, Arrive(n, 0, CALM)), n + 1)
  {
    var c, m := s.(recvs := [NO_ROOM]), p.msgs[n];
    FrameFacts(p, n, 0);
    Psn.DeltaOfCounters(p.base, n, n);
    var h, q := FrameOf(p, n, 0), PayloadOf(m.data, 0);
    var a := Absorb(StartActive(NO_ROOM, h, c.expected), 0, q, {});
    assert {} + {0} == {0 as nat};
    assert [NO_ROOM][1..] == [];
    hide Psn.Of, ShapeOf, Drain, BufferFragment, BadSendHeader;
    if striping {
      DrainEmpty(FinishSend(s.(active := Some(a.(seen := {0})))), {});
    } else {
      DrainEmpty(FinishSend(s.(active := Some(a))), {});
    }
  }

  function Rounds(n: nat): seq<Event> {
    if n == 0 then [] else Rounds(n - 1) + [PostRecv(NO_ROOM), Arrive(n - 1, 0, CALM)]
  }

  lemma RunAppend(p: Peer, striping: bool, capacity: nat, events: seq<Event>, e: Event)
    requires RunOf(p, striping, capacity, events).Some? && Possible(e, RunOf(p, striping, capacity, events).value.s, p)
    ensures var r := RunOf(p, striping, capacity, events).value;
            RunOf(p, striping, capacity, events + [e])
            == Some(Run(Step(r.s, p, striping, capacity, e),
                        if e.PostRecv? && |r.s.recvs| < capacity then r.posted + [e.w] else r.posted,
                        r.faults + EventFaults(e)))
  {
    assert (events + [e])[..|events|] == events;
  }

  lemma {:induction false} RoundsConsume(base: nat, striping: bool, capacity: nat, count: nat, n: nat)
    requires capacity > 0 && n <= count
    ensures var r := RunOf(ShortMessages(base, count), striping, capacity, Rounds(n));
            r.Some? && AllConsumed(r.value.s, n)
  {
    hide AllConsumed, Step, RunOf, HandleSend;
    var p := ShortMessages(base, count);
    if n == 0 {
      NothingConsumed(p, striping, capacity);
    } else {
      RoundsConsume(base, striping, capacity, count, n - 1);
      OneRound(p, striping, capacity, Rounds(n - 1), n - 1);
    }
  }

  lemma NothingConsumed(p: Peer, striping: bool, capacity: nat)
    ensures var r := RunOf(p, striping, capacity, []); r.Some? && AllConsumed(r.value.s, 0)
  {
  }

  lemma OneRound(p: Peer, striping: bool, capacity: nat, events: seq<Event>, n: nat)
    requires p.Valid() && capacity > 0 && n < |p.msgs| && p.msgs[n] == Message(0, if n == 0 then [7] else [], None, false)
    requires RunOf(p, striping, capacity, events).Some? && AllConsumed(RunOf(p, striping, capacity, events).value.s, n)
    ensures var r := RunOf(p, striping, capacity, events + [PostRecv(NO_ROOM), Arrive(n, 0, CALM)]);
            r.Some? && AllConsumed(r.value.s, n + 1)
  {
    var s := RunOf(p, striping, capacity, events).value.s;
    var c := s.(recvs := [NO_ROOM]);
    RunInv(p, striping, capacity, events);
    OneConsumed(s, p, striping, n);
    assert Post(s, capacity, NO_ROOM) == c by { assert [] + [NO_ROOM] == [NO_ROOM]; }
    var posted := events + [PostRecv(NO_ROOM)];
    assert events + [PostRecv(NO_ROOM), Arrive(n, 0, CALM)] == posted + [Arrive(n, 0, CALM)];
    hide RunOf, HandleSend, AllConsumed, Inv;
    RunAppend(p, striping, capacity, events, PostRecv(NO_ROOM));
    RunAppend(p, striping, capacity, posted, Arrive(n, 0, CALM));
  }

  /**
   * For every starting PSN and in both modes: message 0 completes with an error, more than 1023 further messages
   * are consumed, and the duplicate of message 0 is answered with a success ACK and nothing else.
   */
  lemma ForgottenFailureIsAcked(base: nat, striping: bool, capacity: nat, n: nat)
    requires capacity > 0 && ACK_HISTORY_SIZE < n <= Psn.HALF
    ensures var p := ShortMessages(base, n);
            var r := RunOf(p, striping, capacity, Rounds(n));
            var r' := RunOf(p, striping, capacity, Rounds(n) + [Arrive(0, 0, CALM)]);
            && p.Valid() && r.Some? && r'.Some?
            && AllConsumed(r.value.s, n) && r.value.s.cq[0].status == LenErr
            && r'.value.s == SendAck(r.value.s, 0, Psn.Of(base, 0), AckOk)
  {
    var p := ShortMessages(base, n);
    RoundsConsume(base, striping, capacity, n, n);
    var events := Rounds(n);
    var r := RunOf(p, striping, capacity, events).value;
    RunInv(p, striping, capacity, events);
    hide RunOf, Step, Rounds, Inv;
    StaleFragmentOnlyReacks(r.s, p, striping, r.posted, r.faults, 0, 0, CALM);
    RunAppend(p, striping, capacity, events, Arrive(0, 0, CALM));
  }
}
