/**
 * Why an Apple receive completes as it does: over any run a completion is successful exactly when its message was taken
 * without trouble, fits the receive and was copied; every other status has its cause among the frames and copies of the run.
 */
module AppleStatus {
  import opened Basics
  import opened AppleSpec
  import opened AppleProof
  import RxSpec

  // ----- what goes wrong with a frame -----

  /** Taking in a frame of message `msg` failed with this status. */
  datatype Stumble = Stumble(msg: nat, status: RxSpec.WcStatus)

  /** All the bytes that finished messages hold in slots. */
  function Stored(ready: seq<Msg>): seq<Byte> {
    if ready == [] then [] else Stored(ready[..|ready| - 1]) + ready[|ready| - 1].bytes
  }

  lemma {:induction false} StoredLength(ready: seq<Msg>)
    ensures |Stored(ready)| == Bytes(ready)
  {
    if ready != [] { StoredLength(ready[..|ready| - 1]); }
  }

  function Open(s: Port): seq<Byte> { if s.active.Some? then s.active.value.bytes else [] }

  /** `len` more bytes exceed 16 MiB, a size parameter, or what a `u32` can count. */
  predicate TooMuch(s: Port, len: nat, env: Env) {
    || |Open(s)| + len > 16777216 || |Open(s)| + len > env.msgLimit
    || |Stored(s.ready) + Open(s)| + len > env.totalLimit || |Stored(s.ready) + Open(s)| + len >= 4294967296
  }

  /** The port passes the frame over: it is skipping a message, or has no slot for a new one. */
  predicate PassesOver(s: Port, env: Env) {
    s.discard || (s.active.None? && (|s.ready| >= s.slots || env.msgLimit == 0 || env.totalLimit == 0))
  }

  /** What goes wrong with a frame of `len` bytes of message `msg` in the drained port `s`. */
  function StumbleOver(s: Port, msg: nat, len: nat, env: Env): set<Stumble> {
    if PassesOver(s, env) then {}
    else if TooMuch(s, len, env) then {Stumble(msg, RxSpec.LenErr)}
    else if !env.memOk then {Stumble(msg, RxSpec.ProtErr)}
    else {}
  }

  function StumblesIn(r: Run, msgs: seq<seq<Frame>>, e: Event): set<Stumble>
    requires Possible(r, msgs, e)
  {
    if e.Arrive? then StumbleOver(Drain(r.rx, e.env.faults), r.msg, |msgs[r.msg][r.frame].data|, e.env) else {}
  }

  function Stumbles(slots: nat, capacity: nat, msgs: seq<seq<Frame>>, events: seq<Event>): set<Stumble>
    requires RunOf(slots, capacity, msgs, events).Some?
  {
    if events == [] then {}
    else
      var init := events[..|events| - 1];
      Stumbles(slots, capacity, msgs, init) + StumblesIn(RunOf(slots, capacity, msgs, init).value, msgs, events[|events| - 1])
  }

  function FaultsOf(e: Event): set<(nat, nat)> {
    match e
    case Arrive(env) => env.faults
    case PostRecv(_) => {}
    case Kick(faults) => faults
  }

  function Faults(events: seq<Event>): set<(nat, nat)> {
    if events == [] then {} else Faults(events[..|events| - 1]) + FaultsOf(events[|events| - 1])
  }

  // ----- the invariant -----

  ghost predicate Smooth(msg: nat, st: set<Stumble>) { forall x | x in st :: x.msg != msg }

  /** A message of which `len` bytes have come in: its status says what went wrong with it. */
  ghost predicate Known(m: Msg, msg: nat, len: nat, st: set<Stumble>) {
    && |m.bytes| <= len
    && (m.status == RxSpec.Success <==> Smooth(msg, st))
    && (m.status != RxSpec.Success ==> Stumble(msg, m.status) in st)
  }

  /** The status of a completion has its cause: the counterpart of `RxProof.StatusOk`. */
  ghost predicate Explains(c: Completion, whole: seq<Byte>, w: RxSpec.Wqe, msg: nat, st: set<Stumble>, faults: set<(nat, nat)>) {
    match c.status
    case Success => |whole| <= |w.region| && Smooth(msg, st)
    case LenErr => |whole| > |w.region| || Stumble(msg, RxSpec.LenErr) in st
    case ProtErr => (w.id, 0) in faults || Stumble(msg, RxSpec.ProtErr) in st
  }

  ghost predicate Explained(
    s: Port, msgs: seq<seq<Frame>>, taken: seq<nat>, posted: seq<RxSpec.Wqe>, st: set<Stumble>, faults: set<(nat, nat)>)
    requires Accounted(s, msgs, taken, posted)
  {
    && (forall i | 0 <= i < |s.cq| :: Explains(s.cq[i], Joined(msgs[taken[i]]), posted[i], taken[i], st, faults))
    && (forall i | 0 <= i < |s.ready| ::
          Known(s.ready[i], taken[|s.cq| + i], |Joined(msgs[taken[|s.cq| + i]])|, st))
  }

  /** Stumbles are over messages that have begun to arrive. */
  ghost predicate Begun(st: set<Stumble>, msg: nat, frame: nat) {
    forall x | x in st :: x.msg < msg || (x.msg == msg && frame > 0)
  }

  ghost predicate OpenKnown(s: Port, msgs: seq<seq<Frame>>, msg: nat, frame: nat, st: set<Stumble>)
    requires Placed(s, msgs, msg, frame)
  {
    s.active.Some? ==> Known(s.active.value, msg, |Joined(msgs[msg][..frame])|, st)
  }

  ghost predicate StatusInv(r: Run, msgs: seq<seq<Frame>>, st: set<Stumble>, faults: set<(nat, nat)>) {
    && Inv(r, msgs)
    && Explained(r.rx, msgs, r.taken, r.posted, st, faults)
    && Begun(st, r.msg, r.frame)
    && OpenKnown(r.rx, msgs, r.msg, r.frame, st)
  }

  // ----- completing and draining -----

  lemma CompleteExplained(m: Msg, w: RxSpec.Wqe, whole: seq<Byte>, msg: nat, st: set<Stumble>, faults: set<(nat, nat)>, f: set<(nat, nat)>)
    requires Intact(m, whole) && Known(m, msg, |whole|, st) && f <= faults
    ensures Explains(Complete(m, w, f), whole, w, msg, st, faults)
  {
  }

  /** A message held intact that fits its receive completes with success and its bytes, when the copy does not fail. */
  lemma IntactSucceeds(m: Msg, w: RxSpec.Wqe, faults: set<(nat, nat)>)
    requires m.status == RxSpec.Success && |m.bytes| <= |w.region| && (w.id, 0) !in faults
    ensures Complete(m, w, faults)
            == Completion(RxSpec.Wqe(w.id, m.bytes + w.region[|m.bytes|..]), RxSpec.Success, |m.bytes|)
  {
    var b := m.bytes;
    assert b[..|b|] == b;
    assert Write(w.region, 0, b) == b + w.region[|b|..];
    assert b == [] ==> b + w.region[|b|..] == w.region;
  }

  lemma {:induction false} DrainExplained(
    s: Port, msgs: seq<seq<Frame>>, taken: seq<nat>, posted: seq<RxSpec.Wqe>, st: set<Stumble>, faults: set<(nat, nat)>, f: set<(nat, nat)>)
    requires Accounted(s, msgs, taken, posted) && Explained(s, msgs, taken, posted, st, faults) && f <= faults
    ensures Accounted(Drain(s, f), msgs, taken, posted) && Explained(Drain(s, f), msgs, taken, posted, st, faults)
    decreases |s.ready|
  {
    hide Delivers, Intact, Joined, Complete, Known, Explains;
    DrainAccounted(s, msgs, taken, posted, f);
    if s.ready != [] && s.recvs != [] {
      var c := Complete(s.ready[0], s.recvs[0], f);
      var next := s.(ready := s.ready[1..], recvs := s.recvs[1..], cq := s.cq + [c]);
      CompleteDelivers(s.ready[0], s.recvs[0], Joined(msgs[taken[|s.cq|]]), f);
      CompleteExplained(s.ready[0], s.recvs[0], Joined(msgs[taken[|s.cq|]]), taken[|s.cq|], st, faults, f);
      assert posted[|s.cq|] == s.recvs[0];
      DrainExplained(next, msgs, taken, posted, st, faults, f);
    }
  }

  // ----- one frame -----

  /** The frame's own trouble is exactly the status that adding its piece ends with. */
  lemma TroubleIsStatus(d: Port, msg: nat, len: nat, env: Env)
    requires 0 < len && !PassesOver(d, env)
    ensures var status := PieceStatus(HeldBytes(d), |Open(d)|, len, env);
            StumbleOver(d, msg, len, env) == if status == RxSpec.Success then {} else {Stumble(msg, status)}
  {
    StoredLength(d.ready);
  }

  lemma PieceKnown(m: Msg, msg: nat, len: nat, st: set<Stumble>, held: nat, data: seq<Byte>, env: Env)
    requires Known(m, msg, len, st)
    ensures var status := PieceStatus(held, |m.bytes|, |data|, env);
            Known(AddPiece(m, held, data, env), msg, len + |data|, st + if status == RxSpec.Success then {} else {Stumble(msg, status)})
  {
    hide PieceStatus;
    var status := PieceStatus(held, |m.bytes|, |data|, env);
    if status != RxSpec.Success { assert Stumble(msg, status) in st + {Stumble(msg, status)}; }
  }

  lemma GotKnown(d: Port, msgs: seq<seq<Frame>>, msg: nat, frame: nat, st: set<Stumble>, env: Env)
    requires msg < |msgs| && frame < |msgs[msg]| && msgs[msg][frame].data != []
    requires Placed(d, msgs, msg, frame) && OpenKnown(d, msgs, msg, frame, st) && Begun(st, msg, frame) && !PassesOver(d, env)
    ensures var data := msgs[msg][frame].data;
            Known(Got(d, data, env), msg, |Joined(msgs[msg][..frame + 1])|, st + StumbleOver(d, msg, |data|, env))
  {
    hide AddPiece, PieceStatus, Intact;
    var data := msgs[msg][frame].data;
    JoinedStep(msgs[msg], frame);
    TroubleIsStatus(d, msg, |data|, env);
    var m := if d.active.Some? then d.active.value else Msg([], RxSpec.Success);
    assert Known(m, msg, |Joined(msgs[msg][..frame])|, st);
    PieceKnown(m, msg, |Joined(msgs[msg][..frame])|, st, HeldBytes(d), data, env);
  }

  /** Trouble with a later message changes nothing for the earlier ones. */
  lemma LaterTrouble(s: Port, msgs: seq<seq<Frame>>, taken: seq<nat>, posted: seq<RxSpec.Wqe>, st: set<Stumble>, more: set<Stumble>,
                     faults: set<(nat, nat)>, f: set<(nat, nat)>, msg: nat)
    requires Accounted(s, msgs, taken, posted) && Explained(s, msgs, taken, posted, st, faults) && TakenOk(taken, msg)
    requires st <= more && faults <= f && forall x | x in more :: x in st || x.msg == msg
    ensures Explained(s, msgs, taken, posted, more, f)
  {
    hide Joined, Delivers, Intact, Explains, Known;
    forall i | 0 <= i < |s.cq| ensures Explains(s.cq[i], Joined(msgs[taken[i]]), posted[i], taken[i], more, f) {
      StillExplained(s.cq[i], Joined(msgs[taken[i]]), posted[i], taken[i], st, more, faults, f);
    }
    forall i | 0 <= i < |s.ready| ensures Known(s.ready[i], taken[|s.cq| + i], |Joined(msgs[taken[|s.cq| + i]])|, more) {
      StillKnown(s.ready[i], taken[|s.cq| + i], |Joined(msgs[taken[|s.cq| + i]])|, st, more);
    }
  }

  lemma StillExplained(c: Completion, whole: seq<Byte>, w: RxSpec.Wqe, msg: nat, st: set<Stumble>, more: set<Stumble>,
                       faults: set<(nat, nat)>, f: set<(nat, nat)>)
    requires Explains(c, whole, w, msg, st, faults) && st <= more && faults <= f && forall x | x in more :: x in st || x.msg != msg
    ensures Explains(c, whole, w, msg, more, f)
  {
  }

  lemma StillKnown(m: Msg, msg: nat, len: nat, st: set<Stumble>, more: set<Stumble>)
    requires Known(m, msg, len, st) && st <= more && forall x | x in more :: x in st || x.msg != msg
    ensures Known(m, msg, len, more)
  {
  }

  lemma EndExplained(d: Port, msgs: seq<seq<Frame>>, taken: seq<nat>, posted: seq<RxSpec.Wqe>, msg: nat, m: Msg,
                     st: set<Stumble>, faults: set<(nat, nat)>)
    requires Accounted(d, msgs, taken, posted) && Explained(d, msgs, taken, posted, st, faults)
    requires msg < |msgs| && Intact(m, Joined(msgs[msg])) && Known(m, msg, |Joined(msgs[msg])|, st)
    ensures var full := d.(active := None, ready := d.ready + [m]);
            Accounted(full, msgs, taken + [msg], posted) && Explained(full, msgs, taken + [msg], posted, st, faults)
  {
    TakeAccounted(d, msgs, taken, posted, m, msg);
    hide Delivers, Intact, Joined, Known, Explains;
  }

  /** The state after one frame, its status bookkeeping included. */
  ghost predicate After(s: Port, msgs: seq<seq<Frame>>, taken: seq<nat>, posted: seq<RxSpec.Wqe>, msg: nat, frame: nat,
                        st: set<Stumble>, faults: set<(nat, nat)>) {
    && Accounted(s, msgs, taken, posted) && Explained(s, msgs, taken, posted, st, faults) && Begun(st, msg, frame)
    && Placed(s, msgs, msg, frame) && OpenKnown(s, msgs, msg, frame, st)
  }

  lemma SkipExplained(d: Port, msgs: seq<seq<Frame>>, taken: seq<nat>, posted: seq<RxSpec.Wqe>, msg: nat, frame: nat, env: Env,
                      st: set<Stumble>, faults: set<(nat, nat)>)
    requires After(d, msgs, taken, posted, msg, frame, st, faults) && msg < |msgs| && frame < |msgs[msg]|
    requires WholeMessage(msgs[msg]) && PassesOver(d, env)
    ensures var f, last := msgs[msg][frame], frame == |msgs[msg]| - 1;
            var s := Sort(d, f.data, f.sof, last, env);
            After(s, msgs, taken, posted, if last then msg + 1 else msg, if last then 0 else frame + 1, st, faults)
            && Finished(s) == Finished(d)
  {
    SkipFrame(d, msgs, taken, posted, msg, frame, env);
    hide Intact, Joined, Delivers, AddPiece, Known, Explains;
  }

  lemma MiddleExplained(d: Port, msgs: seq<seq<Frame>>, taken: seq<nat>, posted: seq<RxSpec.Wqe>, msg: nat, frame: nat, env: Env,
                        st: set<Stumble>, faults: set<(nat, nat)>)
    requires After(d, msgs, taken, posted, msg, frame, st, faults) && msg < |msgs| && frame < |msgs[msg]| - 1
    requires WholeMessage(msgs[msg]) && !PassesOver(d, env) && TakenOk(taken, msg)
    ensures var f := msgs[msg][frame];
            var s := Sort(d, f.data, f.sof, false, env);
            && After(s, msgs, taken, posted, msg, frame + 1, st + StumbleOver(d, msg, |f.data|, env), faults)
            && Finished(s) == Finished(d)
  {
    hide Joined, AddPiece, HeldBytes, Known, Explains, TooMuch;
    var f := msgs[msg][frame];
    var more := st + StumbleOver(d, msg, |f.data|, env);
    MiddleFrame(d, msgs, taken, posted, msg, frame, env);
    GotKnown(d, msgs, msg, frame, st, env);
    LaterTrouble(d, msgs, taken, posted, st, more, faults, faults, msg);
    assert Sort(d, f.data, f.sof, false, env) == d.(active := Some(Got(d, f.data, env)));
  }

  lemma LastExplained(d: Port, msgs: seq<seq<Frame>>, taken: seq<nat>, posted: seq<RxSpec.Wqe>, msg: nat, env: Env,
                      st: set<Stumble>, faults: set<(nat, nat)>)
    requires msg < |msgs| && WholeMessage(msgs[msg]) && After(d, msgs, taken, posted, msg, |msgs[msg]| - 1, st, faults)
    requires !PassesOver(d, env) && TakenOk(taken, msg) && env.faults <= faults
    ensures var f := msgs[msg][|msgs[msg]| - 1];
            var s := Sort(d, f.data, f.sof, true, env);
            && After(s, msgs, taken + [msg], posted, msg + 1, 0, st + StumbleOver(d, msg, |f.data|, env), faults)
            && Finished(s) == Finished(d) + 1
  {
    hide Joined, AddPiece, HeldBytes, Known, Explains, TooMuch, Drain;
    var m := msgs[msg];
    var f := m[|m| - 1];
    var got, more := Got(d, f.data, env), st + StumbleOver(d, msg, |f.data|, env);
    EndFrame(d, msgs, taken, posted, msg, env);
    GotIntact(d, msgs, msg, |m| - 1, env);
    GotKnown(d, msgs, msg, |m| - 1, st, env);
    assert m[..|m|] == m;
    LaterTrouble(d, msgs, taken, posted, st, more, faults, faults, msg);
    EndExplained(d, msgs, taken, posted, msg, got, more, faults);
    DrainExplained(d.(active := None, ready := d.ready + [got]), msgs, taken + [msg], posted, more, faults, env.faults);
  }

  // ----- whole runs -----

  lemma ArriveExplained(r: Run, msgs: seq<seq<Frame>>, capacity: nat, env: Env, st: set<Stumble>, faults: set<(nat, nat)>)
    requires StatusInv(r, msgs, st, faults) && Possible(r, msgs, Arrive(env)) && env.faults <= faults
    ensures StatusInv(Step(r, msgs, capacity, Arrive(env)), msgs, st + StumblesIn(r, msgs, Arrive(env)), faults)
  {
    hide RxFrame, Drain, Sort, Accounted, Explained, TakenOk, Placed, OpenKnown, WholeMessage, Joined, Known, Begun, TooMuch, Finished;
    ArriveInv(r, msgs, capacity, env);
    var m := msgs[r.msg];
    var d := Drain(r.rx, env.faults);
    FirstDrain(r, msgs, env);
    DrainExplained(r.rx, msgs, r.taken, r.posted, st, faults, env.faults);
    SameOpen(r.rx, msgs, r.taken, r.posted, r.msg, r.frame, st, env.faults);
    assert After(d, msgs, r.taken, r.posted, r.msg, r.frame, st, faults);
    if PassesOver(d, env) {
      SkipExplained(d, msgs, r.taken, r.posted, r.msg, r.frame, env, st, faults);
      assert st + {} == st;
    } else if r.frame == |m| - 1 {
      LastExplained(d, msgs, r.taken, r.posted, r.msg, env, st, faults);
    } else {
      MiddleExplained(d, msgs, r.taken, r.posted, r.msg, r.frame, env, st, faults);
    }
  }

  lemma SameOpen(s: Port, msgs: seq<seq<Frame>>, taken: seq<nat>, posted: seq<RxSpec.Wqe>, msg: nat, frame: nat,
                 st: set<Stumble>, f: set<(nat, nat)>)
    requires Accounted(s, msgs, taken, posted) && Placed(s, msgs, msg, frame) && OpenKnown(s, msgs, msg, frame, st)
    ensures var d := Drain(s, f); Placed(d, msgs, msg, frame) && OpenKnown(d, msgs, msg, frame, st)
  {
    hide Accounted, Drain, Known, Intact;
    DrainAccounted(s, msgs, taken, posted, f);
  }

  lemma KickExplained(r: Run, msgs: seq<seq<Frame>>, capacity: nat, f: set<(nat, nat)>, st: set<Stumble>, faults: set<(nat, nat)>)
    requires StatusInv(r, msgs, st, faults) && f <= faults && Inv(Step(r, msgs, capacity, Kick(f)), msgs)
    ensures StatusInv(Step(r, msgs, capacity, Kick(f)), msgs, st, faults)
  {
    hide WholeMessage, Drain, TakenOk, Joined, Known, Explained, Delivers, Intact, Accounted, Placed, OpenKnown;
    DrainExplained(r.rx, msgs, r.taken, r.posted, st, faults, f);
    SameOpen(r.rx, msgs, r.taken, r.posted, r.msg, r.frame, st, f);
  }

  lemma PostExplained(r: Run, msgs: seq<seq<Frame>>, capacity: nat, w: RxSpec.Wqe, st: set<Stumble>, faults: set<(nat, nat)>)
    requires StatusInv(r, msgs, st, faults) && Inv(Step(r, msgs, capacity, PostRecv(w)), msgs)
    ensures StatusInv(Step(r, msgs, capacity, PostRecv(w)), msgs, st, faults)
  {
    hide WholeMessage, TakenOk, Joined, Known, Explains, Delivers, Intact;
  }

  lemma {:induction false} RunExplained(slots: nat, capacity: nat, msgs: seq<seq<Frame>>, events: seq<Event>)
    requires forall i | 0 <= i < |msgs| :: WholeMessage(msgs[i])
    requires RunOf(slots, capacity, msgs, events).Some?
    ensures StatusInv(RunOf(slots, capacity, msgs, events).value, msgs, Stumbles(slots, capacity, msgs, events), Faults(events))
  {
    hide WholeMessage, Step, TakenOk, Joined, Known, Explains, Delivers, Intact, StumbleOver;
    RunInv(slots, capacity, msgs, events);
    if events != [] {
      var init, e := events[..|events| - 1], events[|events| - 1];
      RunExplained(slots, capacity, msgs, init);
      var r, st := RunOf(slots, capacity, msgs, init).value, Stumbles(slots, capacity, msgs, init);
      LaterTrouble(r.rx, msgs, r.taken, r.posted, st, st, Faults(init), Faults(events), r.msg);
      assert st + {} == st;
      match e
      case Arrive(env) => ArriveExplained(r, msgs, capacity, env, st, Faults(events));
      case PostRecv(w) => PostExplained(r, msgs, capacity, w, st, Faults(events));
      case Kick(faults) => KickExplained(r, msgs, capacity, faults, st, Faults(events));
    }
  }

  /**
   * Over any run the n-th completion reports success only when nothing went wrong with its message and it fits the n-th
   * receive, a length error only when it does not fit or a size limit stopped it, and a protection error only when the copy
   * failed or memory ran out. So a message taken without trouble whose receive is never faulted succeeds exactly if it fits.
   */
  lemma StatusHasItsCause(slots: nat, capacity: nat, msgs: seq<seq<Frame>>, events: seq<Event>)
    requires forall i | 0 <= i < |msgs| :: WholeMessage(msgs[i])
    requires RunOf(slots, capacity, msgs, events).Some?
    ensures var r, st := RunOf(slots, capacity, msgs, events).value, Stumbles(slots, capacity, msgs, events);
            && |r.rx.cq| <= |r.taken| && |r.rx.cq| <= |r.posted|
            && forall i | 0 <= i < |r.rx.cq| ::
                 var c, w, msg := r.rx.cq[i], r.posted[i], r.taken[i];
                 && msg < |msgs|
                 && (c.status == RxSpec.Success ==> |Joined(msgs[msg])| <= |w.region| && forall x | x in st :: x.msg != msg)
                 && (c.status == RxSpec.LenErr ==> |Joined(msgs[msg])| > |w.region| || Stumble(msg, RxSpec.LenErr) in st)
                 && (c.status == RxSpec.ProtErr ==> (w.id, 0) in Faults(events) || Stumble(msg, RxSpec.ProtErr) in st)
                 && ((forall x | x in st :: x.msg != msg) && (w.id, 0) !in Faults(events) ==>
                       (c.status == RxSpec.Success <==> |Joined(msgs[msg])| <= |w.region|))
  {
    RunExplained(slots, capacity, msgs, events);
    var r, st := RunOf(slots, capacity, msgs, events).value, Stumbles(slots, capacity, msgs, events);
    forall i | 0 <= i < |r.rx.cq| ensures Explains(r.rx.cq[i], Joined(msgs[r.taken[i]]), r.posted[i], r.taken[i], st, Faults(events)) {
    }
  }

  // ----- what each frame does -----

  /** A frame that is empty or longer than 4096 bytes is not looked at. */
  lemma MisshapenIgnored(s: Port, data: seq<Byte>, sof: bool, last: bool, env: Env)
    requires data == [] || |data| > 4096
    ensures RxFrame(s, data, sof, last, env) == s
  {
  }

  /** With nothing open a frame that neither starts nor ends a message leaves no trace. */
  lemma StrayIgnored(s: Port, data: seq<Byte>, env: Env)
    requires 0 < |data| <= 4096 && s.active.None? && !s.discard && s.recvs == []
    ensures RxFrame(s, data, false, false, env) == s
  {
  }

  /** What a frame that is not passed over does to the open message: nothing but the status when it is refused. */
  lemma TakesExactly(d: Port, data: seq<Byte>, env: Env)
    requires data != [] && !PassesOver(d, env)
    ensures Got(d, data, env)
            == if TooMuch(d, |data|, env) then Msg(Open(d), RxSpec.LenErr)
               else if !env.memOk then Msg(Open(d), RxSpec.ProtErr)
               else Msg(Open(d) + data, if d.active.Some? then d.active.value.status else RxSpec.Success)
  {
    TroubleIsStatus(d, 0, |data|, env);
    assert |Open(d)| == 0 ==> Open(d) == [];
    hide PieceStatus, TooMuch;
    if TooMuch(d, |data|, env) {
      assert Stumble(0, RxSpec.LenErr) in StumbleOver(d, 0, |data|, env);
    } else if !env.memOk {
      assert Stumble(0, RxSpec.ProtErr) in StumbleOver(d, 0, |data|, env);
    } else {
      assert StumbleOver(d, 0, |data|, env) == {};
    }
  }

  /** Frames none of which starts a message, the last of which ends one: what is left of a message whose start was lost. */
  ghost predicate Tail(rest: seq<Frame>) {
    rest != [] && forall k | 0 <= k < |rest| :: !rest[k].sof && 0 < |rest[k].data| <= FRAME_SIZE
  }

  lemma {:induction false} TailPassesUntilItsEnd(s: Port, rest: seq<Frame>, n: nat, env: Env)
    requires Idle(s) && Tail(rest) && n < |rest|
    ensures Feed(s, rest, n, env) == s
  {
    if n > 0 {
      TailPassesUntilItsEnd(s, rest, n - 1, env);
      StrayIgnored(s, rest[n - 1].data, env);
    }
  }

  /**
   * When the start of a message is lost its frames are rejected up to the last one, which the port takes, and completes, as
   * a whole message of its own: an end mark without a start is also how short messages are sent.
   */
  lemma LostStartDeliversTheEnd(s: Port, rest: seq<Frame>, env: Env)
    requires Idle(s) && Tail(rest) && !NoSlot(s, env) && env.totalLimit < U32_MOD && Fits(s, |rest[|rest| - 1].data|, env)
    ensures Feed(s, rest, |rest|, env) == s.(ready := s.ready + [Msg(rest[|rest| - 1].data, RxSpec.Success)])
  {
    hide NoSlot, Fits, RxFrame, Feed, AddPiece;
    var f := rest[|rest| - 1];
    LastOfTail(s, rest, env);
    EndAlone(s, f, env);
  }

  lemma LastOfTail(s: Port, rest: seq<Frame>, env: Env)
    requires Idle(s) && Tail(rest)
    ensures var f := rest[|rest| - 1];
            Feed(s, rest, |rest|, env) == RxFrame(s, f.data, f.sof, true, env) && 0 < |f.data| <= FRAME_SIZE
  {
    hide RxFrame;
    TailPassesUntilItsEnd(s, rest, |rest| - 1, env);
  }

  lemma EndAlone(s: Port, f: Frame, env: Env)
    requires Idle(s) && !NoSlot(s, env) && env.totalLimit < U32_MOD && Fits(s, |f.data|, env) && 0 < |f.data| <= FRAME_SIZE
    ensures RxFrame(s, f.data, f.sof, true, env) == s.(ready := s.ready + [Msg(f.data, RxSpec.Success)])
  {
    FrameTaken(s, f, true, env);
    assert [] + f.data == f.data;
  }

  /** A receive is taken behind the others unless `capacity` of them wait. */
  lemma PostsExactly(r: Run, msgs: seq<seq<Frame>>, capacity: nat, w: RxSpec.Wqe)
    ensures var t := Step(r, msgs, capacity, PostRecv(w));
            if |r.rx.recvs| < capacity then t.rx == r.rx.(recvs := r.rx.recvs + [w]) && t.posted == r.posted + [w]
            else t.rx == r.rx && t.posted == r.posted
  {
  }

  predicate Served(s: Port) { s.ready == [] || s.recvs == [] }

  lemma {:induction false} DrainServes(s: Port, faults: set<(nat, nat)>)
    ensures Served(Drain(s, faults))
    decreases |s.ready|
  {
    hide Complete;
    if s.ready != [] && s.recvs != [] {
      DrainServes(s.(ready := s.ready[1..], recvs := s.recvs[1..], cq := s.cq + [Complete(s.ready[0], s.recvs[0], faults)]), faults);
    }
  }

  /** Over any run, once a frame has come in or the port has been kicked no finished message waits beside a posted receive. */
  lemma NothingWaitsNeedlessly(slots: nat, capacity: nat, msgs: seq<seq<Frame>>, events: seq<Event>)
    requires forall i | 0 <= i < |msgs| :: WholeMessage(msgs[i])
    requires RunOf(slots, capacity, msgs, events).Some? && events != [] && !events[|events| - 1].PostRecv?
    ensures Served(RunOf(slots, capacity, msgs, events).value.rx)
  {
    var init, e := events[..|events| - 1], events[|events| - 1];
    var r := RunOf(slots, capacity, msgs, init).value;
    hide Drain, HeldBytes, AddPiece, NoSlot, RunOf;
    match e
    case Kick(faults) => DrainServes(r.rx, faults);
    case Arrive(env) =>
      var f := msgs[r.msg][r.frame];
      assert WholeMessage(msgs[r.msg]);
      var d := Drain(r.rx, env.faults);
      DrainServes(r.rx, env.faults);
      DrainServes(d.(active := None, ready := d.ready + [Got(d, f.data, env)]), env.faults);
  }
}
