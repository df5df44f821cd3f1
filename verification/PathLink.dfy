/**
 * One direction of a path as a whole: the port that posts frames, the lossless ring that carries them in
 * order, and the receiver that returns credits. Every run of the port and its peer is a run of the credit
 * protocol of `Credits`, so what is proved there holds of the scheduler itself.
 */
module PathLink {
  import opened Basics
  import opened NativeData
  import opened PathSpec
  import Credits
  import PathTx
  import RawStream

  /** The receiver has taken the first `taken` posted frames; `pending`, `holding` and `wire` as in Credits.Flow. */
  datatype Link = Link(port: Port, taken: nat, pending: nat, holding: seq<nat>, wire: seq<nat>)

  datatype Event =
    | Local(e: RawStream.Event)
    /** The next frame reaches the receiver; `status` when it is a READ status reply, a control frame that consumes a credit. */
    | Receive(status: bool)
    | CreditSent(i: nat)
    | CreditSendFail(i: nat)
    | CreditArrive(i: nat)

  /** Does the receiver return a credit for the frame? Data opcodes consume one, control opcodes only as READ status replies. */
  predicate ReturnsCredit(r: RxRaw, f: Packet, status: bool) {
    PathTx.CreditDue(r, f, PathTx.Parsing(f.Framed? || status, 0))
  }

  function FlowOf(l: Link): Credits.Flow
    requires l.taken <= |l.port.posted|
  {
    Credits.Flow(l.port.credits, l.port.window, PathTx.Groups(l.port.data), None,
                 PathTx.DataPosted(l.port.posted[l.taken..]), l.pending, l.holding, l.wire)
  }

  predicate Possible(l: Link, e: Event) {
    l.taken <= |l.port.posted|
    && match e
       case Local(x) => !x.CreditsIn? && RawStream.Possible(x, l.port)
       case Receive(status) => l.taken < |l.port.posted| && (status ==> l.port.posted[l.taken].Control?)
       case CreditSent(i) => i < |l.holding|
       case CreditSendFail(i) => i < |l.holding|
       case CreditArrive(i) => i < |l.wire|
  }

  function Returned(l: Link): Link
    requires l.taken <= |l.port.posted|
  {
    var s := Credits.ReturnOne(FlowOf(l));
    l.(pending := s.pending, holding := s.holding)
  }

  function Step(l: Link, e: Event): Link
    requires Possible(l, e)
  {
    match e
    case Local(x) => l.(port := RawStream.Step(l.port, x))
    case Receive(status) =>
      var next := l.(taken := l.taken + 1);
      if ReturnsCredit(RxAll(l.port.posted[..l.taken]).0, l.port.posted[l.taken], status) then Returned(next) else next
    case CreditSent(i) => l.(holding := Credits.Drop(l.holding, i), wire := l.wire + [l.holding[i]])
    case CreditSendFail(i) => l.(holding := Credits.Drop(l.holding, i), pending := l.pending + l.holding[i])
    case CreditArrive(i) =>
      l.(wire := Credits.Drop(l.wire, i), port := RawStream.Step(l.port, RawStream.CreditsIn(l.wire[i])))
  }

  /** The peer has announced a ring of `ringSize` entries. */
  function Open(ringSize: nat, frameCount: nat, limit: nat): Link {
    Link(RawStream.Idle(Credits.Window(ringSize), frameCount, limit), 0, 0, [], [])
  }

  function RunOf(l: Link, events: seq<Event>): Option<Link> {
    if events == [] then Some(l)
    else
      match RunOf(l, events[..|events| - 1])
      case None => None
      case Some(m) => if Possible(m, events[|events| - 1]) then Some(Step(m, events[|events| - 1])) else None
  }

  function Fails(events: seq<Event>): nat {
    if events == [] then 0 else Fails(events[..|events| - 1]) + if events[|events| - 1].CreditSendFail? then 1 else 0
  }

  function Statuses(events: seq<Event>): nat {
    if events == [] then 0 else Statuses(events[..|events| - 1]) + if events[|events| - 1] == Receive(true) then 1 else 0
  }

  // ----- the receiver returns what the sender was charged -----

  /** After every prefix the receiver has made of the frames what they mean. */
  ghost predicate Understood(frames: seq<Packet>) {
    forall k | 0 <= k <= |frames| :: RxAll(frames[..k]).1 == RawStream.Meaning(frames[..k])
  }

  lemma UnderstoodSnoc(frames: seq<Packet>, f: Packet)
    requires Understood(frames) && RxAll(frames + [f]).1 == RawStream.Meaning(frames + [f])
    ensures Understood(frames + [f])
  {
    var all := frames + [f];
    forall k | 0 <= k <= |all| ensures RxAll(all[..k]).1 == RawStream.Meaning(all[..k]) {
      assert all[..k] == if k <= |frames| then frames[..k] else all;
    }
  }

  /** Page by page, header by header and frame by frame: one credit comes back for each packet that was charged. */
  lemma ReturnsWhatWasCharged(frames: seq<Packet>, k: nat, status: bool)
    requires Understood(frames) && k < |frames| && (status ==> frames[k].Control?)
    ensures ReturnsCredit(RxAll(frames[..k]).0, frames[k], status) <==> !frames[k].Control? || status
  {
    assert frames[..k + 1] == frames[..k] + [frames[k]];
    RawStream.RxAppend(frames[..k], frames[k]);
    var r, items := RxAll(frames[..k]).0, RxAll(frames[..k]).1;
    SameTail(items, RxFrame(r, frames[k]).1, RawStream.MeaningOf(frames[..k], frames[k]));
  }

  lemma SameTail(a: seq<Item>, b: seq<Item>, c: seq<Item>)
    requires a + b == a + c
    ensures b == c
  {
    assert b == (a + b)[|a|..] && c == (a + c)[|a|..];
  }

  // ----- the invariant -----

  predicate EndsStream(f: Flying) { f.counted && f.packet.Page? && f.packet.end }

  ghost predicate EndInFlight(flying: seq<Flying>) { exists j :: 0 <= j < |flying| && EndsStream(flying[j]) }

  /** A stream whose frames are all posted stays exclusive only while some of them, its end among them, are not completed. */
  ghost predicate RawEnds(p: Port) {
    p.raw.active && !RxAll(p.posted).0.pending ==> p.raw.inflight > 0 && (p.raw.endSeen || EndInFlight(p.flying))
  }

  ghost predicate PortInv(p: Port) {
    RawStream.InStep(p) && RawStream.FramesOk(p) && RawEnds(p) && Understood(p.posted)
  }

  ghost predicate LinkInv(l: Link, ringSize: nat, frameCount: nat) {
    && PortInv(l.port) && l.taken <= |l.port.posted|
    && l.port.window == Credits.Window(ringSize) && l.port.frameCount == frameCount
  }

  lemma {:induction false} NoControlWaits(q: seq<Packet>, owner: nat, rest: nat)
    requires RawStream.Whole(q) || RawStream.Middle(q, owner, rest)
    ensures forall c | c in q :: !c.Control?
    decreases |q|
  {
    if q != [] {
      if RawStream.Whole(q) {
        if q[0].Framed? { NoControlWaits(q[1..], 0, 0); } else { NoControlWaits(q[1..], q[0].owner, q[0].hdr.length); }
      } else if |q[0].bytes| == rest {
        NoControlWaits(q[1..], 0, 0);
      } else {
        NoControlWaits(q[1..], owner, rest - |q[0].bytes|);
      }
    }
  }

  lemma KindsApart(p: Port)
    requires RawStream.InStep(p)
    ensures (forall i | 0 <= i < |p.control| :: p.control[i].Control?) && (forall c | c in p.data :: !c.Control?)
  {
    hide RxAll, RawStream.Meaning, RawStream.FlyingOk, RawStream.Whole, RawStream.Middle;
    NoControlWaits(p.data, p.raw.owner, RxAll(p.posted).0.remaining);
  }

  lemma PostKeepsEnds(p: Port)
    requires RawStream.InStep(p) && RawEnds(p) && CanPost(p)
    ensures RawEnds(PostOne(p))
  {
    hide Gates, RawStream.Meaning, RxAll, RawStream.CountedIn, RawStream.LastHead, RawStream.BytesSince;
    var c := Candidate(p).value;
    var f, counted := c.WithGroup(0), CountRaw(p.raw, c).1;
    RawStream.RxAppend(p.posted, f);
    var q := PostOne(p);
    if q.raw.active && !RxAll(q.posted).0.pending {
      assert q.flying[|p.flying|] == Flying(f, counted);
      assert EndsStream(q.flying[|p.flying|]);
    }
  }

  lemma CompleteKeepsEnds(p: Port, i: nat)
    requires RawStream.InStep(p) && RawEnds(p) && i < |p.flying|
    ensures RawEnds(Complete(p, i))
  {
    hide RawStream.Meaning, RxAll, RawStream.CountedIn, RawStream.LastHead, RawStream.BytesSince, RawStream.Whole, RawStream.Middle;
    var rest := p.flying[..i] + p.flying[i + 1..];
    RawStream.CountedRemove(p.flying, i);
    assert p.flying[i] in p.flying;
    if p.raw.active && !RxAll(p.posted).0.pending && EndInFlight(p.flying) {
      var j :| 0 <= j < |p.flying| && EndsStream(p.flying[j]);
      if j != i {
        var k := if j < i then j else j - 1;
        assert rest[k] == p.flying[j];
        if RawStream.CountedIn(rest) == 0 { RawStream.NoneCounted(rest); }
      }
    }
  }

  lemma PostKeepsInv(p: Port)
    requires PortInv(p) && CanPost(p)
    ensures PortInv(PostOne(p)) && PostOne(p).window == p.window && PostOne(p).frameCount == p.frameCount
  {
    RawStream.PostInStep(p);
    RawStream.PostFrames(p);
    PostKeepsEnds(p);
    hide RawStream.FramesOk, RawEnds, Gates, Understood, RxAll, RawStream.Meaning;
    UnderstoodSnoc(p.posted, Candidate(p).value.WithGroup(0));
  }

  lemma RefusedKeepsInv(p: Port)
    requires PortInv(p) && CanPost(p)
    ensures PortInv(PostRefused(p, true))
  {
    RawStream.RefusedInStep(p);
    RawStream.RefusedFrames(p);
    hide RawStream.InStep, RawStream.FramesOk, Understood, RxAll, Gates;
  }

  // ----- every event is a sequence of credit steps -----

  /** From the announced window the credit protocol reaches what the link shows. */
  ghost predicate Reached(ringSize: nat, l: Link, f: nat, k: nat) {
    l.taken <= |l.port.posted| && Credits.Reaches(Credits.Start(ringSize), FlowOf(l), f, k)
  }

  lemma PostedTail(p: Port, taken: nat)
    requires CanPost(p) && taken <= |p.posted|
    ensures taken <= |PostOne(p).posted|
    ensures PathTx.DataPosted(PostOne(p).posted[taken..])
            == PathTx.DataPosted(p.posted[taken..]) + if Candidate(p).value.Control? then 0 else 1
  {
    var f := Candidate(p).value.WithGroup(0);
    assert PostOne(p).posted[taken..] == p.posted[taken..] + [f];
    hide Gates, PathTx.DataPosted;
    PathTx.DataPostedSnoc(p.posted[taken..], f);
  }

  lemma PostReaches(ringSize: nat, l: Link, f: nat, k: nat)
    requires Reached(ringSize, l, f, k) && RawStream.InStep(l.port) && CanPost(l.port) && l.port.window > 0
    ensures Reached(ringSize, l.(port := PostOne(l.port)), f, k)
    ensures Reached(ringSize, l.(port := PostRefused(l.port, true)), f, k)
  {
    hide Credits.Reaches, Gates, PathTx.DataPosted, RawStream.InStep, Credits.Start, PostOne, PostRefused, PathTx.Groups;
    KindsApart(l.port);
    PostedTail(l.port, l.taken);
    if Candidate(l.port).value.Control? {
      ControlIsFree(l.port);
    } else {
      ChargedReaches(ringSize, l, f, k);
    }
  }

  lemma ChargedReaches(ringSize: nat, l: Link, f: nat, k: nat)
    requires Reached(ringSize, l, f, k) && CanPost(l.port) && !Candidate(l.port).value.Control? && l.port.window > 0
    requires (forall i | 0 <= i < |l.port.control| :: l.port.control[i].Control?) && (forall c | c in l.port.data :: !c.Control?)
    requires l.taken <= |PostOne(l.port).posted|
    requires PathTx.DataPosted(PostOne(l.port).posted[l.taken..]) == PathTx.DataPosted(l.port.posted[l.taken..]) + 1
    ensures Reached(ringSize, l.(port := PostOne(l.port)), f, k)
    ensures Reached(ringSize, l.(port := PostRefused(l.port, true)), f, k)
  {
    var p, s0, s := l.port, Credits.Start(ringSize), FlowOf(l);
    PathTx.SchedulerRefinesFlow(p, s, true);
    var charged := Credits.Apply(s, Credits.Charge);
    assert Credits.Apply(charged, Credits.PostOk) == FlowOf(l.(port := PostOne(p)));
    assert Credits.Apply(charged, Credits.PostFail(true)) == FlowOf(l.(port := PostRefused(p, true)));
    hide Credits.Reaches, Gates, PathTx.DataPosted, Credits.Start, Credits.Apply, PathTx.Sees;
    Credits.Extend(s0, s, f, k, Credits.Charge);
    Credits.Extend(s0, charged, f, k, Credits.PostOk);
    Credits.Extend(s0, charged, f, k, Credits.PostFail(true));
  }

  lemma ControlIsFree(p: Port)
    requires CanPost(p) && Candidate(p).value.Control? && forall c | c in p.data :: !c.Control?
    ensures PostOne(p).credits == p.credits && PostOne(p).data == p.data && PostOne(p).window == p.window
    ensures PostRefused(p, true) == p
  {
    assert forall i | 0 <= i < |p.data| :: p.data[i] in p.data;
    hide Gates;
  }

  lemma {:induction false} PumpReaches(ringSize: nat, l: Link, room: nat, f: nat, k: nat)
    requires Reached(ringSize, l, f, k) && PortInv(l.port) && l.port.window > 0
    ensures var q := Pump(l.port, room, true);
            && Reached(ringSize, l.(port := q), f, k)
            && PortInv(q) && q.window == l.port.window && q.frameCount == l.port.frameCount
    decreases |l.port.control| + |l.port.data|
  {
    hide Reached, PortInv, Gates, PostOne;
    var p := l.port;
    if CanPost(p) {
      assert PortInv(p) ==> RawStream.InStep(p) by { InvInStep(p); }
      PostReaches(ringSize, l, f, k);
      if room > 0 {
        PostKeepsInv(p);
        PathTx.PostedShrinks(p, true);
        PumpReaches(ringSize, l.(port := PostOne(p)), room - 1, f, k);
      } else {
        RefusedKeepsInv(p);
      }
    }
  }

  lemma InvInStep(p: Port)
    ensures PortInv(p) ==> RawStream.InStep(p)
  {
  }

  lemma {:induction false} GroupsOfFramed(ids: seq<nat>, owner: nat, group: nat)
    requires ids != []
    ensures PathTx.Groups(RawStream.FramedList(ids, owner, group)) == [group] + seq(|ids| - 1, _ => 0)
  {
    var q := RawStream.FramedList(ids, owner, group);
    assert q[1..] == RawStream.FramedList(ids[1..], owner, 0);
    if |ids| > 1 {
      GroupsOfFramed(ids[1..], owner, 0);
      GroupsCons(q);
      assert [0] + seq(|ids| - 2, _ => 0) == seq(|ids| - 1, _ => 0);
    }
  }

  lemma GroupsCons(q: seq<Packet>)
    requires q != []
    ensures PathTx.Groups(q) == [q[0].GroupSize()] + PathTx.Groups(q[1..])
  {
  }

  lemma {:induction false} GroupsOfPages(pages: seq<seq<Byte>>, owner: nat)
    ensures PathTx.Groups(RawStream.PagePackets(pages, owner)) == seq(|pages|, _ => 0)
  {
    if pages != [] {
      var q := RawStream.PagePackets(pages, owner);
      assert q[1..] == RawStream.PagePackets(pages[1..], owner);
      GroupsOfPages(pages[1..], owner);
      GroupsCons(q);
      assert [0] + seq(|pages| - 1, _ => 0) == seq(|pages|, _ => 0);
    }
  }

  lemma GroupsOfStream(hdr: DataHeader, pages: seq<seq<Byte>>, owner: nat)
    ensures PathTx.Groups(RawStream.StreamList(hdr, pages, owner)) == Credits.Group(|pages| + 1)
  {
    var q := RawStream.StreamList(hdr, pages, owner);
    assert q[1..] == RawStream.PagePackets(pages, owner);
    GroupsOfPages(pages, owner);
    GroupsCons(q);
  }

  lemma GroupsAppend(a: seq<Packet>, b: seq<Packet>)
    ensures PathTx.Groups(a + b) == PathTx.Groups(a) + PathTx.Groups(b)
  {
    assert forall i | |a| <= i < |a + b| :: (a + b)[i] == b[i - |a|];
  }

  lemma EnqueueReaches(ringSize: nat, l: Link, more: seq<Packet>, f: nat, k: nat)
    requires Reached(ringSize, l, f, k) && more != [] && PathTx.Groups(more) == Credits.Group(|more|)
    ensures Reached(ringSize, l.(port := l.port.(data := l.port.data + more)), f, k)
  {
    GroupsAppend(l.port.data, more);
    hide Credits.Reaches, PathTx.Groups, PathTx.DataPosted, Credits.Group, Credits.Start;
    Credits.Extend(Credits.Start(ringSize), FlowOf(l), f, k, Credits.Enqueue(|more|));
  }

  lemma {:induction false} DataPostedCons(posted: seq<Packet>)
    requires posted != []
    ensures PathTx.DataPosted(posted) == PathTx.DataPosted(posted[1..]) + if posted[0].Control? then 0 else 1
  {
    if |posted| > 1 {
      var init := posted[..|posted| - 1];
      DataPostedCons(init);
      assert init[1..] == posted[1..][..|posted| - 2];
    }
  }

  lemma ReceiveReaches(ringSize: nat, l: Link, status: bool, f: nat, k: nat)
    requires Reached(ringSize, l, f, k) && Understood(l.port.posted) && Possible(l, Receive(status))
    ensures Reached(ringSize, Step(l, Receive(status)), f, k + if status then 1 else 0)
  {
    var frames := l.port.posted;
    ReturnsWhatWasCharged(frames, l.taken, status);
    DataPostedCons(frames[l.taken..]);
    assert frames[l.taken..][1..] == frames[l.taken + 1..];
    hide Credits.Reaches, PathTx.DataPosted, RxAll, ReturnsCredit, Understood, Credits.Start, Credits.ReturnThreshold;
    if !frames[l.taken].Control? {
      Credits.Extend(Credits.Start(ringSize), FlowOf(l), f, k, Credits.Deliver);
    } else if status {
      Credits.Extend(Credits.Start(ringSize), FlowOf(l), f, k, Credits.DeliverStatus);
    }
  }

  lemma CreditReaches(ringSize: nat, l: Link, e: Event, f: nat, k: nat)
    requires Reached(ringSize, l, f, k) && Possible(l, e) && (e.CreditSent? || e.CreditSendFail? || e.CreditArrive?)
    ensures Reached(ringSize, Step(l, e), f + if e.CreditSendFail? then 1 else 0, k)
  {
    var s0, s := Credits.Start(ringSize), FlowOf(l);
    hide Credits.Reaches, PathTx.DataPosted, PathTx.Groups, Credits.Start, Credits.Drop, Credits.AddCredits;
    match e
    case CreditSent(i) => Credits.Extend(s0, s, f, k, Credits.CreditSent(i));
    case CreditSendFail(i) => Credits.Extend(s0, s, f, k, Credits.CreditSendFail(i));
    case CreditArrive(i) => Credits.Extend(s0, s, f, k, Credits.CreditArrive(i));
  }

  lemma LocalReaches(ringSize: nat, l: Link, x: RawStream.Event, f: nat, k: nat)
    requires Reached(ringSize, l, f, k) && PortInv(l.port) && l.port.window > 0 && Possible(l, Local(x))
    ensures Reached(ringSize, Step(l, Local(x)), f, k)
  {
    match x
    case Schedule(room) => PumpReaches(ringSize, l, room, f, k);
    case SendFramed(ids, owner) =>
      if ids == [] {
        assert l.port.data + [] == l.port.data;
      } else {
        GroupsOfFramed(ids, owner, |ids|);
        FramedLength(ids, owner, |ids|);
        EnqueueReaches(ringSize, l, RawStream.FramedList(ids, owner, |ids|), f, k);
      }
    case SendStream(hdr, pages, owner) =>
      GroupsOfStream(hdr, pages, owner);
      PagesLength(pages, owner);
      EnqueueReaches(ringSize, l, RawStream.StreamList(hdr, pages, owner), f, k);
    case SendControl(_) => SameFlow(ringSize, l, Step(l, Local(x)), f, k);
    case TxDone(_) => SameFlow(ringSize, l, Step(l, Local(x)), f, k);
  }

  lemma SameFlow(ringSize: nat, l: Link, m: Link, f: nat, k: nat)
    requires Reached(ringSize, l, f, k) && m.taken <= |m.port.posted| && FlowOf(m) == FlowOf(l)
    ensures Reached(ringSize, m, f, k)
  {
  }

  lemma {:induction false} FramedLength(ids: seq<nat>, owner: nat, group: nat)
    ensures |RawStream.FramedList(ids, owner, group)| == |ids|
  {
    if ids != [] { FramedLength(ids[1..], owner, 0); }
  }

  lemma {:induction false} PagesLength(pages: seq<seq<Byte>>, owner: nat)
    ensures |RawStream.PagePackets(pages, owner)| == |pages|
  {
    if pages != [] { PagesLength(pages[1..], owner); }
  }

  lemma LocalKeepsInv(p: Port, x: RawStream.Event)
    requires PortInv(p) && RawStream.Possible(x, p) && !x.Schedule?
    ensures PortInv(RawStream.Step(p, x)) && RawStream.Step(p, x).window == p.window && RawStream.Step(p, x).frameCount == p.frameCount
  {
    RawStream.StepInStep(p, x);
    match x
    case TxDone(i) =>
      RawStream.CompleteFrames(p, i);
      CompleteKeepsEnds(p, i);
    case _ =>
      hide RawStream.InStep, Understood, RxAll, RawStream.Staged, RawStream.StagedData, ControlReserve;
  }

  lemma {:induction false} RunReaches(ringSize: nat, frameCount: nat, limit: nat, events: seq<Event>)
    requires ringSize > 0 && RunOf(Open(ringSize, frameCount, limit), events).Some?
    ensures var l := RunOf(Open(ringSize, frameCount, limit), events).value;
            LinkInv(l, ringSize, frameCount) && Reached(ringSize, l, Fails(events), Statuses(events))
  {
    if events == [] {
      OpenReached(ringSize, frameCount, limit);
    } else {
      var init, e := events[..|events| - 1], events[|events| - 1];
      RunReaches(ringSize, frameCount, limit, init);
      StepReaches(ringSize, frameCount, RunOf(Open(ringSize, frameCount, limit), init).value, e, Fails(init), Statuses(init));
    }
  }

  lemma OpenReached(ringSize: nat, frameCount: nat, limit: nat)
    ensures var l := Open(ringSize, frameCount, limit); LinkInv(l, ringSize, frameCount) && Reached(ringSize, l, 0, 0)
  {
    var l := Open(ringSize, frameCount, limit);
    assert FlowOf(l) == Credits.Start(ringSize);
    Credits.Begin(Credits.Start(ringSize));
  }

  lemma StepReaches(ringSize: nat, frameCount: nat, l: Link, e: Event, f: nat, k: nat)
    requires ringSize > 0 && LinkInv(l, ringSize, frameCount) && Reached(ringSize, l, f, k) && Possible(l, e)
    ensures LinkInv(Step(l, e), ringSize, frameCount)
    ensures Reached(ringSize, Step(l, e), f + if e.CreditSendFail? then 1 else 0, k + if e == Receive(true) then 1 else 0)
  {
    Credits.WindowSizes(ringSize);
    hide Reached, Credits.Window;
    match e
    case Local(x) =>
      hide PortInv;
      LocalReaches(ringSize, l, x, f, k);
      if x.Schedule? { PumpReaches(ringSize, l, x.room, f, k); } else { LocalKeepsInv(l.port, x); }
      PostedGrows(l.port, x);
    case Receive(status) => ReceiveReaches(ringSize, l, status, f, k);
    case CreditArrive(i) =>
      LocalKeepsInv(l.port, RawStream.CreditsIn(l.wire[i]));
      CreditReaches(ringSize, l, e, f, k);
    case _ => CreditReaches(ringSize, l, e, f, k);
  }

  lemma {:induction false} PostedGrows(p: Port, x: RawStream.Event)
    requires RawStream.Possible(x, p)
    ensures |p.posted| <= |RawStream.Step(p, x).posted|
    decreases |p.control| + |p.data|
  {
    hide Gates;
    if x.Schedule? && CanPost(p) && x.room > 0 {
      PathTx.PostedShrinks(p, true);
      PostedGrows(PostOne(p), RawStream.Schedule(x.room - 1));
    }
  }

  // ----- what holds of every run -----

  /**
   * Refinement: whatever is enqueued, scheduled, refused and completed, and whatever becomes of the returned
   * credits, the port and its peer show a state that the credit protocol reaches with as many failed credit
   * sends and status replies.
   */
  lemma PortRunsRefineFlow(ringSize: nat, frameCount: nat, limit: nat, events: seq<Event>)
    requires ringSize > 0 && RunOf(Open(ringSize, frameCount, limit), events).Some?
    ensures var l := RunOf(Open(ringSize, frameCount, limit), events).value;
            && l.taken <= |l.port.posted|
            && exists steps :: && Credits.RunFrom(Credits.Start(ringSize), steps) == Some(FlowOf(l))
                               && Credits.Fails(steps) == Fails(events) && Credits.Statuses(steps) == Statuses(events)
  {
    RunReaches(ringSize, frameCount, limit, events);
    hide RunOf, FlowOf;
  }

  /**
   * Conservation for the port: its credits, the data frames the peer has not taken, and the credits on their way
   * back make up the window, and one more for each status reply at most.
   */
  lemma PortConserves(ringSize: nat, frameCount: nat, limit: nat, events: seq<Event>)
    requires ringSize > 0 && RunOf(Open(ringSize, frameCount, limit), events).Some?
    ensures var l := RunOf(Open(ringSize, frameCount, limit), events).value;
            && l.taken <= |l.port.posted|
            && var total := l.port.credits + PathTx.DataPosted(l.port.posted[l.taken..]) + l.pending
                            + Credits.Sum(l.holding) + Credits.Sum(l.wire);
               Credits.Window(ringSize) <= total <= Credits.Window(ringSize) + Statuses(events)
  {
    RunReaches(ringSize, frameCount, limit, events);
    hide RunOf, Credits.Window, Credits.Start;
    var l := RunOf(Open(ringSize, frameCount, limit), events).value;
    var steps := Credits.RunTo(Credits.Start(ringSize), FlowOf(l), Fails(events), Statuses(events));
    Credits.CreditsBounded(ringSize, steps);
  }

  /** Nothing is in flight: every post is completed and received, and every returned credit has arrived. */
  predicate AtRest(l: Link) {
    l.port.flying == [] && l.taken == |l.port.posted| && l.holding == [] && l.wire == []
  }

  lemma RestingLinkPosts(ringSize: nat, frameCount: nat, l: Link, f: nat, k: nat)
    requires LinkInv(l, ringSize, frameCount) && Reached(ringSize, l, f, k) && frameCount > 0
    requires Credits.Withstands(Credits.Window(ringSize), f) && AtRest(l)
    ensures CanPost(l.port) || (l.port.control == [] && l.port.data == [])
  {
    hide Credits.Window, Credits.Start, Credits.RunFrom;
    var steps := Credits.RunTo(Credits.Start(ringSize), FlowOf(l), f, k);
    Credits.NoStallInRun(ringSize, steps);
    assert !Credits.Stalled(FlowOf(l));
    if l.port.data != [] { HeadMayStart(l); }
    RestingPortPosts(l.port);
  }

  /**
   * Once every returned credit has come back, and while the failed credit sends are within what the window withstands,
   * a port with nothing in flight either may post, in the middle of a stream just as between streams, or has nothing
   * left to post. Credits that wait in the peer's control queue have not come back: `PathDuplex` says when they do.
   */
  lemma AtRestNothingWaits(ringSize: nat, frameCount: nat, limit: nat, events: seq<Event>)
    requires ringSize > 0 && frameCount > 0 && Credits.Withstands(Credits.Window(ringSize), Fails(events))
    requires RunOf(Open(ringSize, frameCount, limit), events).Some?
    requires AtRest(RunOf(Open(ringSize, frameCount, limit), events).value)
    ensures var p := RunOf(Open(ringSize, frameCount, limit), events).value.port;
            CanPost(p) || (p.control == [] && p.data == [])
  {
    RunReaches(ringSize, frameCount, limit, events);
    hide RunOf, Credits.Window;
    RestingLinkPosts(ringSize, frameCount, RunOf(Open(ringSize, frameCount, limit), events).value, Fails(events), Statuses(events));
  }

  lemma HeadMayStart(l: Link)
    requires AtRest(l) && !Credits.Stalled(FlowOf(l)) && l.port.data != []
    ensures CreditGate(l.port, l.port.data[0])
  {
    assert l.port.posted[l.taken..] == [];
  }

  lemma RestingPortPosts(p: Port)
    requires PortInv(p) && p.flying == [] && p.frameCount > 0
    requires p.data != [] ==> CreditGate(p, p.data[0])
    ensures CanPost(p) || (p.control == [] && p.data == [])
  {
    hide CreditGate, RxAll, RawStream.Meaning, RawStream.LastHead, RawStream.BytesSince, Understood;
    assert p.control != [] ==> p.control[0] in p.control;
    if p.control != [] && !p.raw.active { ControlPasses(p); }
  }

  lemma ControlPasses(p: Port)
    requires p.control != [] && p.control[0].Control?
    ensures CreditGate(p, p.control[0])
  {
  }
}
