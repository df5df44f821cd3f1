/** What the responder of a READ is told, frame by frame, and which status the read gets. */
module ReadAnswer {
  import opened Basics
  import opened Fragment
  import opened NativeData
  import opened ReadSpec
  import opened ReadProof
  import opened ReadSnapshot

  /** A response frame for a read of `total` bytes as the responder cuts it. */
  predicate WellFormed(total: nat, h: DataHeader) {
    h.remoteAddr == 0 && h.imm == total && h.flags / 4 == 0 && IsCut(total, h.fragOffset, h.length, h.flags % 2 == 1)
  }

  lemma RejectsExactly(r: Read, h: DataHeader)
    requires r.total < U32_MOD
    ensures Rejected(r, h) <==> !WellFormed(r.total, h)
  {
    ShapeInNumbers(r.total, h.fragOffset, h.length, h.Last());
    hide FragmentShape;
  }

  /** Another fragment with other bytes waits at this offset. */
  ghost predicate Contradicts(r: Read, offset: nat, data: seq<Byte>) {
    exists f :: f in r.frags && f.offset == offset && f.data != data
  }

  lemma MismatchExactly(r: Read, offset: nat, data: seq<Byte>, alloc: bool)
    requires Sorted(r.frags)
    ensures StoreResult(r, offset, data, alloc) == Mismatch <==> Contradicts(r, offset, data)
  {
    var k := FindFrag(r.frags, offset);
    if k.Some? { assert r.frags[k.value] in r.frags; }
  }

  /** The payload and whatever waits directly behind it can be copied to the segments. */
  predicate Copies(r: Read, payload: seq<Byte>, faults: set<nat>) {
    var (segs, ok) := Scatter(r.segs, 0, r.received, payload, faults);
    ok && Drain(Advanced(r, segs, r.received + |payload|), faults).1
  }

  datatype Verdict = RemoteFailure | Malformed | Repeat | Early | Contradiction | Faulted | Partial | Last

  /** What a frame is to a queued read. */
  ghost function Judge(r: Read, h: DataHeader, payload: seq<Byte>, env: Env): Verdict {
    if h.rkey != 0 then RemoteFailure
    else if !WellFormed(r.total, h) then Malformed
    else if h.fragOffset < r.received then Repeat
    else if h.fragOffset > r.received then (if Contradicts(r, h.fragOffset, payload) then Contradiction else Early)
    else if !Copies(r, payload, env.faults) then Faulted
    else if Handle(r, true, h, payload, env).0.received < r.total then Partial
    else Last
  }

  /** Whether the answer is an error, a request to repeat, an OK or none, and the status the read is given by it. */
  predicate AnswerIs(v: Verdict, answer: Option<Ack>, status: Option<Status>) {
    match v
    case RemoteFailure => answer == Some(AckError) && status == Some(RemoteError)
    case Malformed => answer == Some(AckError) && status == Some(BadHeader)
    case Contradiction => answer == Some(AckError) && status == Some(RemoteError)
    case Faulted => answer == Some(AckError) && status == Some(CopyFault)
    case Early => answer == Some(AckRetry) && status == None
    case Repeat => answer == None && status == None
    case Partial => answer == None && status == None
    case Last => answer == Some(AckOk) && status == Some(Success)
  }

  /**
   * For every read that a run can reach and every frame: a read that has left the queue answers OK and is unchanged; a
   * queued one answers by what the frame is to it, and gets the corresponding status unless it has one already.
   */
  lemma AnswersExactly(r: Read, queued: bool, h: DataHeader, payload: seq<Byte>, env: Env)
    requires Inv(r) && |payload| == h.length
    ensures var (u, answer) := Handle(r, queued, h, payload, env);
            if !queued then u == r && answer == Some(AckOk)
            else
              exists given ::
                && AnswerIs(Judge(r, h, payload, env), answer, given)
                && u.status == if r.status.Some? then r.status else given
  {
    RejectsExactly(r, h);
    MismatchExactly(r, h.fragOffset, payload, env.alloc);
    var v := Judge(r, h, payload, env);
    if queued && h.rkey == 0 && !Rejected(r, h) {
      AcceptedIsPiece(r, h);
      if h.fragOffset > r.received {
        AlwaysRoom(r, h.fragOffset, payload, env.alloc);
      } else if h.fragOffset == r.received {
        InOrderAnswers(r, payload, env.faults);
      }
    }
    hide Scatter, Drain, Rejected, WellFormed, StoreResult, Insert, Contradicts, Inv, IsPiece;
    var given: Option<Status> := match v
                                 case RemoteFailure => Some(RemoteError)
                                 case Malformed => Some(BadHeader)
                                 case Contradiction => Some(RemoteError)
                                 case Faulted => Some(CopyFault)
                                 case Last => Some(Success)
                                 case _ => None;
    assert queued ==> AnswerIs(v, Handle(r, queued, h, payload, env).1, given);
  }

  lemma InOrderAnswers(r: Read, payload: seq<Byte>, faults: set<nat>)
    requires Inv(r) && IsPiece(r.total, r.received, |payload|)
    ensures var (u, answer) := TakeInOrder(r, r.received, payload, faults);
            && u.received <= u.total == r.total
            && (if !Copies(r, payload, faults) then
                  answer == Some(AckError) && u.status == (if r.status.Some? then r.status else Some(CopyFault))
                else if u.received < r.total then answer == None && u.status == r.status
                else answer == Some(AckOk) && u.status == (if r.status.Some? then r.status else Some(Success)))
  {
    hide Drain, Scatter, Flat, Written, Sorted;
    ScatterWrites(r.segs, 0, r.received, payload, faults);
    var (segs, ok) := Scatter(r.segs, 0, r.received, payload, faults);
    AdvancedCore(r, segs, |payload|);
    var next := Advanced(r, segs, r.received + |payload|);
    DrainCore(next, faults);
  }

  /** Over every run of arbitrary frames. */
  lemma RunsAnswerExactly(segs: seq<seq<Byte>>, events: seq<Event>, e: Event)
    requires |Flat(segs)| < U32_MOD && RunFrom(Begin(segs), events).Some? && Possible(RunFrom(Begin(segs), events).value, e)
    ensures var r := RunFrom(Begin(segs), events).value;
            var (u, answer) := Handle(r, e.queued, e.h, e.payload, e.env);
            && (!e.queued ==> answer == Some(AckOk))
            && (e.queued && r.status.None? ==>
                  && (answer == Some(AckOk) <==> u.status == Some(Success))
                  && (answer == Some(AckError) <==> u.status.Some? && u.status != Some(Success))
                  && (answer == Some(AckRetry) || answer == None ==> u.status == None))
            && (e.queued ==>
                  (answer == Some(AckRetry) <==>
                     && e.h.rkey == 0 && WellFormed(r.total, e.h) && e.h.fragOffset > r.received
                     && !Contradicts(r, e.h.fragOffset, e.payload)))
  {
    RunInv(segs, events);
    var r := RunFrom(Begin(segs), events).value;
    AnswersExactly(r, e.queued, e.h, e.payload, e.env);
    hide RunFrom, Handle, WellFormed, Contradicts, Copies, Inv;
  }

  /** An OK answer given by a read that has not failed before means the segments hold the responder's snapshot. */
  lemma OkMeansSnapshot(segs: seq<seq<Byte>>, events: seq<Event>, snap: seq<Byte>, e: Event)
    requires |Flat(segs)| == |snap| < U32_MOD && RunFrom(Begin(segs), events + [e]).Some? && HonestRun(segs, events + [e], snap)
    requires RunFrom(Begin(segs), events).Some? && Sound(RunFrom(Begin(segs), events).value) && e.queued
    requires Handle(RunFrom(Begin(segs), events).value, true, e.h, e.payload, e.env).1 == Some(AckOk)
    ensures Flat(RunFrom(Begin(segs), events + [e]).value.segs) == snap
  {
    assert (events + [e])[..|events|] == events;
    RunInv(segs, events);
    SuccessMeansSnapshot(segs, events + [e], snap);
    AnswersExactly(RunFrom(Begin(segs), events).value, true, e.h, e.payload, e.env);
    hide Handle, HonestRun, Holds, Inv, Judge;
  }
}
