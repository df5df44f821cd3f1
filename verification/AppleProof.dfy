/**
 * Over any in-order stream of whole messages the Apple reassembler delivers whole messages in order: drops
 * lose messages, never parts of them, and no tail of a truncated message is taken for a message.
 */
module AppleProof {
  import opened Basics
  import opened AppleSpec
  import RxSpec

  datatype Frame = Frame(data: seq<Byte>, sof: bool)

  /** A message on the wire: its last frame carries EOF=3; the first carries SOF unless it is also the last. */
  ghost predicate WholeMessage(m: seq<Frame>) {
    && m != [] && (m[0].sof || |m| == 1)
    && forall k | 0 <= k < |m| :: 0 < |m[k].data| <= FRAME_SIZE
  }

  function Joined(m: seq<Frame>): seq<Byte> {
    if m == [] then [] else Joined(m[..|m| - 1]) + m[|m| - 1].data
  }

  lemma JoinedStep(m: seq<Frame>, k: nat)
    requires k < |m|
    ensures Joined(m[..k + 1]) == Joined(m[..k]) + m[k].data
  {
    assert m[..k + 1][..k] == m[..k];
  }

  /** `msg` and `frame` point at the next frame of the stream; `taken` numbers the messages that got a slot to the end. */
  datatype Run = Run(rx: Port, msg: nat, frame: nat, taken: seq<nat>, posted: seq<RxSpec.Wqe>)

  datatype Event = Arrive(env: Env) | PostRecv(w: RxSpec.Wqe) | Kick(faults: set<(nat, nat)>)

  predicate Possible(r: Run, msgs: seq<seq<Frame>>, e: Event) {
    e.Arrive? ==> r.msg < |msgs| && r.frame < |msgs[r.msg]|
  }

  /** Messages the port has finished taking in, whether delivered or still waiting. */
  function Finished(s: Port): nat { |s.cq| + |s.ready| }

  function Step(r: Run, msgs: seq<seq<Frame>>, capacity: nat, e: Event): Run
    requires Possible(r, msgs, e)
  {
    match e
    case Arrive(env) =>
      var m := msgs[r.msg];
      var last := r.frame == |m| - 1;
      var rx := RxFrame(r.rx, m[r.frame].data, m[r.frame].sof, last, env);
      Run(rx, if last then r.msg + 1 else r.msg, if last then 0 else r.frame + 1,
          if Finished(rx) > Finished(r.rx) then r.taken + [r.msg] else r.taken, r.posted)
    case PostRecv(w) =>
      var rx := Post(r.rx, capacity, w);
      r.(rx := rx, posted := if |rx.recvs| > |r.rx.recvs| then r.posted + [w] else r.posted)
    case Kick(faults) => r.(rx := Drain(r.rx, faults))
  }

  function RunOf(slots: nat, capacity: nat, msgs: seq<seq<Frame>>, events: seq<Event>): Option<Run> {
    if events == [] then Some(Run(Fresh(slots), 0, 0, [], []))
    else
      var prev := RunOf(slots, capacity, msgs, events[..|events| - 1]);
      if prev.Some? && Possible(prev.value, msgs, events[|events| - 1]) then
        Some(Step(prev.value, msgs, capacity, events[|events| - 1]))
      else None
  }

  // ----- the invariant -----

  /** What a receive completion owes its message. */
  ghost predicate Delivers(c: Completion, whole: seq<Byte>, w: RxSpec.Wqe) {
    && c.wqe.id == w.id && |c.wqe.region| == |w.region|
    && (c.status == RxSpec.Success ==>
          && |whole| <= |w.region| && c.byteLen == |whole|
          && c.wqe.region == whole + w.region[|whole|..])
  }

  predicate Intact(m: Msg, whole: seq<Byte>) { m.status == RxSpec.Success ==> m.bytes == whole }

  ghost predicate TakenOk(taken: seq<nat>, msg: nat) {
    && (forall i, j | 0 <= i < j < |taken| :: taken[i] < taken[j])
    && forall i | 0 <= i < |taken| :: taken[i] < msg
  }

  /** Completions use the posted receives in order, for the taken messages in order; the rest waits intact. */
  ghost predicate Accounted(s: Port, msgs: seq<seq<Frame>>, taken: seq<nat>, posted: seq<RxSpec.Wqe>) {
    && |taken| == Finished(s) && |s.cq| <= |posted| && s.recvs == posted[|s.cq|..]
    && (forall i | 0 <= i < |taken| :: taken[i] < |msgs|)
    && (forall i | 0 <= i < |s.cq| :: Delivers(s.cq[i], Joined(msgs[taken[i]]), posted[i]))
    && forall i | 0 <= i < |s.ready| :: Intact(s.ready[i], Joined(msgs[taken[|s.cq| + i]]))
  }

  /** Between messages nothing is open; inside one it is either being taken or being skipped. */
  ghost predicate Placed(s: Port, msgs: seq<seq<Frame>>, msg: nat, frame: nat) {
    && msg <= |msgs|
    && if frame == 0 then s.active.None? && !s.discard
       else
         && msg < |msgs| && frame < |msgs[msg]| && s.active.Some? == !s.discard
         && (s.active.Some? ==> Intact(s.active.value, Joined(msgs[msg][..frame])))
  }

  ghost predicate Inv(r: Run, msgs: seq<seq<Frame>>) {
    && (forall i | 0 <= i < |msgs| :: WholeMessage(msgs[i]))
    && TakenOk(r.taken, r.msg) && r.msg <= |msgs|
    && Accounted(r.rx, msgs, r.taken, r.posted)
    && Placed(r.rx, msgs, r.msg, r.frame)
  }

  lemma CompleteDelivers(m: Msg, w: RxSpec.Wqe, whole: seq<Byte>, faults: set<(nat, nat)>)
    requires Intact(m, whole)
    ensures Delivers(Complete(m, w, faults), whole, w)
  {
    var c := Complete(m, w, faults);
    if c.status == RxSpec.Success {
      assert m.bytes[..|whole|] == whole;
      assert whole[..|whole|] == whole;
    }
  }

  lemma {:induction false} DrainAccounted(
    s: Port, msgs: seq<seq<Frame>>, taken: seq<nat>, posted: seq<RxSpec.Wqe>, faults: set<(nat, nat)>)
    requires Accounted(s, msgs, taken, posted)
    ensures Accounted(Drain(s, faults), msgs, taken, posted)
    ensures var d := Drain(s, faults); d.active == s.active && d.discard == s.discard && d.slots == s.slots
    decreases |s.ready|
  {
    hide Delivers, Intact, Joined, Complete;
    if s.ready != [] && s.recvs != [] {
      var c := Complete(s.ready[0], s.recvs[0], faults);
      var next := s.(ready := s.ready[1..], recvs := s.recvs[1..], cq := s.cq + [c]);
      CompleteDelivers(s.ready[0], s.recvs[0], Joined(msgs[taken[|s.cq|]]), faults);
      assert posted[|s.cq|] == s.recvs[0];
      DrainAccounted(next, msgs, taken, posted, faults);
    }
  }

  lemma {:induction false} DrainFinishes(s: Port, faults: set<(nat, nat)>)
    ensures Finished(Drain(s, faults)) == Finished(s)
    decreases |s.ready|
  {
    hide Complete;
    if s.ready != [] && s.recvs != [] {
      DrainFinishes(s.(ready := s.ready[1..], recvs := s.recvs[1..],
                       cq := s.cq + [Complete(s.ready[0], s.recvs[0], faults)]), faults);
    }
  }

  lemma PieceIntact(m: Msg, before: seq<Byte>, held: nat, data: seq<Byte>, env: Env)
    requires Intact(m, before)
    ensures Intact(AddPiece(m, held, data, env), before + data)
  {
  }

  /** A message that has been taken to its end joins the waiting ones. */
  lemma TakeAccounted(s: Port, msgs: seq<seq<Frame>>, taken: seq<nat>, posted: seq<RxSpec.Wqe>, m: Msg, msg: nat)
    requires Accounted(s, msgs, taken, posted) && msg < |msgs| && Intact(m, Joined(msgs[msg]))
    ensures Accounted(s.(active := None, ready := s.ready + [m]), msgs, taken + [msg], posted)
  {
    hide Delivers, Intact, Joined;
  }

  lemma OtherFieldsDoNotCount(s: Port, s': Port, msgs: seq<seq<Frame>>, taken: seq<nat>, posted: seq<RxSpec.Wqe>)
    requires Accounted(s, msgs, taken, posted) && s'.cq == s.cq && s'.ready == s.ready && s'.recvs == s.recvs
    ensures Accounted(s', msgs, taken, posted)
  {
  }

  /** The frame is the next one of message `msg`; `got` is what adding it to the open message makes. */
  function Got(d: Port, data: seq<Byte>, env: Env): Msg {
    AddPiece(if d.active.Some? then d.active.value else Msg([], RxSpec.Success), HeldBytes(d), data, env)
  }

  lemma GotIntact(d: Port, msgs: seq<seq<Frame>>, msg: nat, frame: nat, env: Env)
    requires Placed(d, msgs, msg, frame) && msg < |msgs| && frame < |msgs[msg]| && !d.discard
    ensures Intact(Got(d, msgs[msg][frame].data, env), Joined(msgs[msg][..frame + 1]))
  {
    JoinedStep(msgs[msg], frame);
    assert frame == 0 ==> msgs[msg][..frame] == [];
    PieceIntact(if d.active.Some? then d.active.value else Msg([], RxSpec.Success), Joined(msgs[msg][..frame]),
                HeldBytes(d), msgs[msg][frame].data, env);
  }

  /** The frame is dropped: the rest of its message is skipped. */
  lemma SkipFrame(d: Port, msgs: seq<seq<Frame>>, taken: seq<nat>, posted: seq<RxSpec.Wqe>, msg: nat, frame: nat, env: Env)
    requires Accounted(d, msgs, taken, posted) && Placed(d, msgs, msg, frame) && msg < |msgs| && frame < |msgs[msg]|
    requires WholeMessage(msgs[msg]) && (d.discard || (d.active.None? && NoSlot(d, env)))
    ensures var f, last := msgs[msg][frame], frame == |msgs[msg]| - 1;
            var s := Sort(d, f.data, f.sof, last, env);
            && Accounted(s, msgs, taken, posted) && Finished(s) == Finished(d)
            && Placed(s, msgs, if last then msg + 1 else msg, if last then 0 else frame + 1)
  {
    hide Intact, Joined, Delivers, NoSlot, AddPiece;
  }

  /** The last frame of a message that is being taken. */
  lemma EndFrame(d: Port, msgs: seq<seq<Frame>>, taken: seq<nat>, posted: seq<RxSpec.Wqe>, msg: nat, env: Env)
    requires msg < |msgs| && WholeMessage(msgs[msg]) && var frame := |msgs[msg]| - 1;
             && Accounted(d, msgs, taken, posted) && Placed(d, msgs, msg, frame)
             && !d.discard && !(d.active.None? && NoSlot(d, env))
    ensures var f := msgs[msg][|msgs[msg]| - 1];
            var s := Sort(d, f.data, f.sof, true, env);
            && Accounted(s, msgs, taken + [msg], posted) && Finished(s) == Finished(d) + 1
            && Placed(s, msgs, msg + 1, 0)
  {
    var m := msgs[msg];
    var got := Got(d, m[|m| - 1].data, env);
    GotIntact(d, msgs, msg, |m| - 1, env);
    assert m[..|m|] == m;
    var full := d.(active := None, ready := d.ready + [got]);
    TakeAccounted(d, msgs, taken, posted, got, msg);
    DrainAccounted(full, msgs, taken + [msg], posted, env.faults);
    DrainFinishes(full, env.faults);
    hide Accounted, Drain, Joined, AddPiece, HeldBytes, NoSlot, Intact;
  }

  /** An earlier frame of a message that is being taken, or is now begun. */
  lemma MiddleFrame(d: Port, msgs: seq<seq<Frame>>, taken: seq<nat>, posted: seq<RxSpec.Wqe>, msg: nat, frame: nat, env: Env)
    requires Accounted(d, msgs, taken, posted) && Placed(d, msgs, msg, frame) && msg < |msgs| && frame < |msgs[msg]| - 1
    requires WholeMessage(msgs[msg]) && !d.discard && !(d.active.None? && NoSlot(d, env))
    ensures var f := msgs[msg][frame];
            var s := Sort(d, f.data, f.sof, false, env);
            && Accounted(s, msgs, taken, posted) && Finished(s) == Finished(d)
            && Placed(s, msgs, msg, frame + 1)
  {
    var got := Got(d, msgs[msg][frame].data, env);
    GotIntact(d, msgs, msg, frame, env);
    OtherFieldsDoNotCount(d, d.(active := Some(got)), msgs, taken, posted);
    hide Accounted, Drain, Joined, AddPiece, HeldBytes, NoSlot, Intact;
  }

  lemma ArriveInv(r: Run, msgs: seq<seq<Frame>>, capacity: nat, env: Env)
    requires Inv(r, msgs) && Possible(r, msgs, Arrive(env))
    ensures Inv(Step(r, msgs, capacity, Arrive(env)), msgs)
  {
    hide WholeMessage, RxFrame, Drain, Sort, NoSlot, Accounted, TakenOk, Finished, Placed;
    var m := msgs[r.msg];
    var f, last := m[r.frame], r.frame == |m| - 1;
    var d := Drain(r.rx, env.faults);
    FirstDrain(r, msgs, env);
    TakenLater(r.taken, r.msg);
    TakenOne(r.taken, r.msg);
    if d.discard || (d.active.None? && NoSlot(d, env)) {
      SkipFrame(d, msgs, r.taken, r.posted, r.msg, r.frame, env);
    } else if last {
      EndFrame(d, msgs, r.taken, r.posted, r.msg, env);
    } else {
      MiddleFrame(d, msgs, r.taken, r.posted, r.msg, r.frame, env);
    }
  }

  /** A frame of a message is never empty or too long, so the port drains and then sorts it. */
  lemma FirstDrain(r: Run, msgs: seq<seq<Frame>>, env: Env)
    requires Inv(r, msgs) && Possible(r, msgs, Arrive(env))
    ensures var d, m := Drain(r.rx, env.faults), msgs[r.msg];
            && Accounted(d, msgs, r.taken, r.posted) && Placed(d, msgs, r.msg, r.frame) && Finished(d) == Finished(r.rx)
            && WholeMessage(m)
            && forall last :: RxFrame(r.rx, m[r.frame].data, m[r.frame].sof, last, env)
                              == Sort(d, m[r.frame].data, m[r.frame].sof, last, env)
  {
    DrainAccounted(r.rx, msgs, r.taken, r.posted, env.faults);
    DrainFinishes(r.rx, env.faults);
    hide Drain, Accounted, Joined;
    assert WholeMessage(msgs[r.msg]) && 0 < |msgs[r.msg][r.frame].data| <= FRAME_SIZE;
  }

  lemma TakenLater(taken: seq<nat>, msg: nat)
    requires TakenOk(taken, msg)
    ensures TakenOk(taken, msg + 1)
  {
  }

  lemma TakenOne(taken: seq<nat>, msg: nat)
    requires TakenOk(taken, msg)
    ensures TakenOk(taken + [msg], msg + 1)
  {
  }

  lemma PostInv(r: Run, msgs: seq<seq<Frame>>, capacity: nat, w: RxSpec.Wqe)
    requires Inv(r, msgs)
    ensures Inv(Step(r, msgs, capacity, PostRecv(w)), msgs)
  {
    hide WholeMessage, Intact, Joined, TakenOk, Delivers;
    var rx := Post(r.rx, capacity, w);
    assert |r.rx.cq| <= |r.posted| ==> (r.posted + [w])[|r.rx.cq|..] == r.posted[|r.rx.cq|..] + [w];
  }

  lemma {:induction false} RunInv(slots: nat, capacity: nat, msgs: seq<seq<Frame>>, events: seq<Event>)
    requires forall i | 0 <= i < |msgs| :: WholeMessage(msgs[i])
    requires RunOf(slots, capacity, msgs, events).Some?
    ensures Inv(RunOf(slots, capacity, msgs, events).value, msgs)
  {
    hide WholeMessage, RxFrame;
    if events != [] {
      RunInv(slots, capacity, msgs, events[..|events| - 1]);
      var r, e := RunOf(slots, capacity, msgs, events[..|events| - 1]).value, events[|events| - 1];
      match e
      case Arrive(env) => ArriveInv(r, msgs, capacity, env);
      case PostRecv(w) => PostInv(r, msgs, capacity, w);
      case Kick(faults) => DrainAccounted(r.rx, msgs, r.taken, r.posted, faults);
    }
  }

  /**
   * Whatever slots, byte limits, allocations and copies run out or fail, and however receives are posted: the
   * n-th completion uses the n-th posted receive and belongs to a message of its own, later than those before
   * it; and when it reports success the receive holds exactly that whole message.
   */
  lemma SuccessIsOneWholeMessage(slots: nat, capacity: nat, msgs: seq<seq<Frame>>, events: seq<Event>)
    requires forall i | 0 <= i < |msgs| :: WholeMessage(msgs[i])
    requires RunOf(slots, capacity, msgs, events).Some?
    ensures var r := RunOf(slots, capacity, msgs, events).value;
            && |r.rx.cq| <= |r.taken| && |r.rx.cq| <= |r.posted|
            && (forall i, j | 0 <= i < j < |r.rx.cq| :: r.taken[i] < r.taken[j])
            && (forall i | 0 <= i < |r.rx.cq| ::
                  && r.taken[i] < r.msg <= |msgs|
                  && r.rx.cq[i].wqe.id == r.posted[i].id
                  && (r.rx.cq[i].status == RxSpec.Success ==>
                        var whole := Joined(msgs[r.taken[i]]);
                        && |whole| <= |r.posted[i].region| && r.rx.cq[i].byteLen == |whole|
                        && r.rx.cq[i].wqe.region == whole + r.posted[i].region[|whole|..]))
  {
    RunInv(slots, capacity, msgs, events);
    hide RunOf, WholeMessage, Intact, Placed;
    var r := RunOf(slots, capacity, msgs, events).value;
    assert forall i | 0 <= i < |r.rx.cq| :: Delivers(r.rx.cq[i], Joined(msgs[r.taken[i]]), r.posted[i]);
  }

  // ----- which messages are taken -----

  function Feed(s: Port, m: seq<Frame>, n: nat, env: Env): Port
    requires n <= |m|
  {
    if n == 0 then s else RxFrame(Feed(s, m, n - 1, env), m[n - 1].data, m[n - 1].sof, n == |m|, env)
  }

  predicate Idle(s: Port) { s.active.None? && !s.discard && s.recvs == [] }

  /** The first `n` bytes-bearing frames fit the limits and find memory. */
  predicate Fits(s: Port, len: nat, env: Env) {
    len <= Min(env.msgLimit, MAX_MSG_SIZE) && Bytes(s.ready) + len <= env.totalLimit && env.memOk
  }

  /** With no slot for it, a whole message passes without a trace: the port is back in step behind it. */
  lemma {:induction false} DroppedWhole(s: Port, m: seq<Frame>, n: nat, env: Env)
    requires Idle(s) && WholeMessage(m) && NoSlot(s, env) && n <= |m|
    ensures Feed(s, m, n, env) == if 0 < n < |m| then s.(discard := true) else s
  {
    if n > 0 { DroppedWhole(s, m, n - 1, env); }
  }

  /** The open message after `n` frames: complete so far exactly when it still fits. */
  ghost predicate TakenSoFar(s: Port, m: seq<Frame>, n: nat, x: Msg, env: Env)
    requires n <= |m|
  {
    && (x.status == RxSpec.Success <==> Fits(s, |Joined(m[..n])|, env))
    && (x.status == RxSpec.Success ==> x.bytes == Joined(m[..n]))
  }

  lemma NextTaken(s: Port, m: seq<Frame>, n: nat, x: Msg, env: Env)
    requires n < |m| && env.totalLimit < U32_MOD && m[n].data != []
    requires if n == 0 then x == Msg([], RxSpec.Success) && env.msgLimit > 0 else TakenSoFar(s, m, n, x, env)
    ensures TakenSoFar(s, m, n + 1, AddPiece(x, Bytes(s.ready) + |x.bytes|, m[n].data, env), env)
  {
    JoinedStep(m, n);
    assert m[..0] == [];
  }

  /** A frame that is taken while no receive is posted. */
  lemma FrameTaken(t: Port, f: Frame, last: bool, env: Env)
    requires t.recvs == [] && !t.discard && 0 < |f.data| <= FRAME_SIZE
    requires t.active.Some? || (!NoSlot(t, env) && (f.sof || last))
    ensures var x := if t.active.Some? then t.active.value else Msg([], RxSpec.Success);
            var got := AddPiece(x, Bytes(t.ready) + |x.bytes|, f.data, env);
            RxFrame(t, f.data, f.sof, last, env)
            == if last then t.(active := None, ready := t.ready + [got]) else t.(active := Some(got))
  {
  }

  lemma {:induction false} TakenPartway(s: Port, m: seq<Frame>, n: nat, env: Env)
    requires Idle(s) && WholeMessage(m) && !NoSlot(s, env) && env.totalLimit < U32_MOD && 0 < n < |m|
    ensures var t := Feed(s, m, n, env);
            t.active.Some? && t == s.(active := t.active) && TakenSoFar(s, m, n, t.active.value, env)
  {
    hide TakenSoFar, AddPiece, Joined, Bytes, RxFrame;
    var before := Feed(s, m, n - 1, env);
    if n > 1 { TakenPartway(s, m, n - 1, env); }
    FrameTaken(before, m[n - 1], false, env);
    NextTaken(s, m, n - 1, if before.active.Some? then before.active.value else Msg([], RxSpec.Success), env);
  }

  /**
   * Exactly which messages are taken, while no receive is posted: with a slot free the message is held, intact
   * if and only if it fits the two limits and memory lasts; with none free it is dropped as a whole.
   */
  lemma TakenExactly(s: Port, m: seq<Frame>, env: Env)
    requires Idle(s) && WholeMessage(m) && env.totalLimit < U32_MOD
    ensures var t := Feed(s, m, |m|, env);
            if NoSlot(s, env) then t == s
            else
              && |t.ready| == |s.ready| + 1 && t == s.(ready := s.ready + [t.ready[|s.ready|]])
              && (t.ready[|s.ready|].status == RxSpec.Success <==> Fits(s, |Joined(m)|, env))
              && (t.ready[|s.ready|].status == RxSpec.Success ==> t.ready[|s.ready|].bytes == Joined(m))
  {
    if NoSlot(s, env) {
      DroppedWhole(s, m, |m|, env);
    } else {
      TakenAtTheEnd(s, m, env);
    }
  }

  lemma TakenAtTheEnd(s: Port, m: seq<Frame>, env: Env)
    requires Idle(s) && WholeMessage(m) && env.totalLimit < U32_MOD && !NoSlot(s, env)
    ensures var t := Feed(s, m, |m|, env);
            && |t.ready| == |s.ready| + 1 && t == s.(ready := s.ready + [t.ready[|s.ready|]])
            && (t.ready[|s.ready|].status == RxSpec.Success <==> Fits(s, |Joined(m)|, env))
            && (t.ready[|s.ready|].status == RxSpec.Success ==> t.ready[|s.ready|].bytes == Joined(m))
  {
    hide AddPiece, Joined, Bytes, Fits, RxFrame;
    var n := |m| - 1;
    var before := Feed(s, m, n, env);
    if n > 0 { TakenPartway(s, m, n, env); }
    FrameTaken(before, m[n], true, env);
    NextTaken(s, m, n, if before.active.Some? then before.active.value else Msg([], RxSpec.Success), env);
    assert m[..|m|] == m;
  }
}
