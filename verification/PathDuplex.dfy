/**
 * Both directions of a path: the credits a receiver returns travel in PATH_CREDIT frames through its own control
 * queue, and that queue waits while the port is inside a raw stream of its own.
 */
module PathDuplex {
  import opened Basics
  import opened NativeData
  import opened PathSpec
  import Credits
  import PathLink
  import PathTx
  import RawStream

  /**
   * One end: its port, how many of its posted frames the other end has taken, and the credits it owes the other end,
   * `pending` and in batches not yet queued. `Control(n)` with n > 0 is a PATH_CREDIT frame of n credits and
   * `Control(0)` any other control frame.
   */
  datatype End = End(port: Port, taken: nat, pending: nat, holding: seq<nat>)

  datatype Act =
    | Local(x: RawStream.Event)
    /** The next frame of this end reaches the other; `status` when it is a READ status reply. */
    | Deliver(status: bool)
    | QueueCredits(i: nat)
    | LoseCredits(i: nat)

  /** The credits in the PATH_CREDIT frames among `frames`. */
  function CreditFrames(frames: seq<Packet>): seq<nat> {
    if frames == [] then []
    else
      var f := frames[|frames| - 1];
      CreditFrames(frames[..|frames| - 1]) + if f.Control? && f.id > 0 then [f.id] else []
  }

  predicate Sane(e: End) { e.taken <= |e.port.posted| }

  /** Queued or posted, but not received. */
  function OnTheirWay(e: End): seq<nat>
    requires Sane(e)
  {
    CreditFrames(e.port.posted[e.taken..]) + CreditFrames(e.port.control)
  }

  /** The direction from `me` to `peer`. */
  function LinkOf(me: End, peer: End): PathLink.Link
    requires Sane(me) && Sane(peer)
  {
    PathLink.Link(me.port, me.taken, peer.pending, peer.holding, OnTheirWay(peer))
  }

  predicate PossibleAct(me: End, peer: End, act: Act) {
    Sane(me) && Sane(peer)
    && match act
       case Local(x) => !x.CreditsIn? && RawStream.Possible(x, me.port) && (x.SendControl? ==> x.id == 0)
       case Deliver(status) => me.taken < |me.port.posted| && (status ==> me.port.posted[me.taken] == Control(0))
       case QueueCredits(i) => i < |me.holding|
       case LoseCredits(i) => i < |me.holding|
  }

  function Apply(me: End, peer: End, act: Act): (End, End)
    requires PossibleAct(me, peer, act)
  {
    match act
    case Local(x) => (me.(port := RawStream.Step(me.port, x)), peer)
    case Deliver(status) =>
      var f, r := me.port.posted[me.taken], RxAll(me.port.posted[..me.taken]).0;
      var me' := me.(taken := me.taken + 1);
      if PathLink.ReturnsCredit(r, f, status) then
        var l := PathLink.Returned(LinkOf(me', peer));
        (me', peer.(pending := l.pending, holding := l.holding))
      else if f.Control? && f.id > 0 then (me', peer.(port := RawStream.Step(peer.port, RawStream.CreditsIn(f.id))))
      else (me', peer)
    case QueueCredits(i) =>
      (me.(holding := Credits.Drop(me.holding, i), port := RawStream.Step(me.port, RawStream.SendControl(me.holding[i]))), peer)
    case LoseCredits(i) => (me.(holding := Credits.Drop(me.holding, i), pending := me.pending + me.holding[i]), peer)
  }

  datatype Duplex = Duplex(left: End, right: End)

  datatype Event = Event(byLeft: bool, act: Act)

  predicate Possible(d: Duplex, e: Event) {
    if e.byLeft then PossibleAct(d.left, d.right, e.act) else PossibleAct(d.right, d.left, e.act)
  }

  function Step(d: Duplex, e: Event): Duplex
    requires Possible(d, e)
  {
    if e.byLeft then var (l, r) := Apply(d.left, d.right, e.act); Duplex(l, r)
    else var (r, l) := Apply(d.right, d.left, e.act); Duplex(l, r)
  }

  function RunOf(d: Duplex, events: seq<Event>): Option<Duplex> {
    if events == [] then Some(d)
    else
      match RunOf(d, events[..|events| - 1])
      case None => None
      case Some(t) => if Possible(t, events[|events| - 1]) then Some(Step(t, events[|events| - 1])) else None
  }

  /** What one end knows when the path comes up: the ring its peer announced, its own staging frames and in-flight limit. */
  datatype Config = Config(ring: nat, frames: nat, limit: nat)
  {
    predicate Usable() { ring > 0 && frames > 0 }
    function Window(): nat { Credits.Window(ring) }
  }

  function Opened(c: Config): End { End(RawStream.Idle(c.Window(), c.frames, c.limit), 0, 0, []) }

  function Open(l: Config, r: Config): Duplex { Duplex(Opened(l), Opened(r)) }

  /** How many PATH_CREDIT frames one end could not queue. */
  function Losses(events: seq<Event>, byLeft: bool): nat {
    if events == [] then 0
    else
      var e := events[|events| - 1];
      Losses(events[..|events| - 1], byLeft) + if e.byLeft == byLeft && e.act.LoseCredits? then 1 else 0
  }

  /** Every stream this end sends is of at most `n` frames, header and pages. */
  predicate StreamWithin(e: Event, byLeft: bool, n: nat) {
    e.byLeft == byLeft && e.act.Local? && e.act.x.SendStream? ==> |e.act.x.pages| + 1 <= n
  }

  ghost predicate StreamsWithin(events: seq<Event>, byLeft: bool, n: nat) {
    forall i | 0 <= i < |events| :: StreamWithin(events[i], byLeft, n)
  }

  // ----- PATH_CREDIT frames keep their order -----

  lemma CreditFramesSnoc(frames: seq<Packet>, f: Packet)
    ensures CreditFrames(frames + [f]) == CreditFrames(frames) + if f.Control? && f.id > 0 then [f.id] else []
  {
    assert (frames + [f])[..|frames|] == frames;
  }

  lemma {:induction false} CreditFramesCons(frames: seq<Packet>)
    requires frames != []
    ensures CreditFrames(frames) == (if frames[0].Control? && frames[0].id > 0 then [frames[0].id] else []) + CreditFrames(frames[1..])
  {
    if |frames| > 1 {
      CreditFramesCons(frames[..|frames| - 1]);
      assert frames[..|frames| - 1][1..] == frames[1..][..|frames| - 2];
    } else {
      assert frames[..0] == [] && frames[1..] == [];
    }
  }

  function Way(p: Port, taken: nat): seq<nat>
    requires taken <= |p.posted|
  {
    CreditFrames(p.posted[taken..]) + CreditFrames(p.control)
  }

  lemma PostKeepsWay(p: Port, taken: nat)
    requires CanPost(p) && taken <= |p.posted| && forall i | 0 <= i < |p.data| :: !p.data[i].Control?
    ensures taken <= |PostOne(p).posted| && Way(PostOne(p), taken) == Way(p, taken)
    ensures forall i | 0 <= i < |PostOne(p).data| :: !PostOne(p).data[i].Control?
  {
    var c := Candidate(p).value.WithGroup(0);
    assert PostOne(p).posted[taken..] == p.posted[taken..] + [c];
    hide Gates, CreditFrames;
    CreditFramesSnoc(p.posted[taken..], c);
    if FromControl(p) { CreditFramesCons(p.control); }
  }

  lemma {:induction false} PumpKeepsWay(p: Port, room: nat, taken: nat)
    requires taken <= |p.posted| && forall i | 0 <= i < |p.data| :: !p.data[i].Control?
    ensures taken <= |Pump(p, room, true).posted| && Way(Pump(p, room, true), taken) == Way(p, taken)
    decreases |p.control| + |p.data|
  {
    hide Gates, PostOne, Way;
    if CanPost(p) {
      if room > 0 {
        PathTx.PostedShrinks(p, true);
        PostKeepsWay(p, taken);
        PumpKeepsWay(PostOne(p), room - 1, taken);
      } else {
        RefusedKeepsWay(p, taken);
      }
    }
  }

  lemma RefusedKeepsWay(p: Port, taken: nat)
    requires CanPost(p) && taken <= |p.posted|
    ensures taken <= |PostRefused(p, true).posted| && Way(PostRefused(p, true), taken) == Way(p, taken)
  {
  }

  lemma LocalKeepsWay(e: End, x: RawStream.Event)
    requires Sane(e) && RawStream.Possible(x, e.port) && !x.CreditsIn? && (x.SendControl? ==> x.id == 0)
    requires forall c | c in e.port.data :: !c.Control?
    ensures var e' := e.(port := RawStream.Step(e.port, x)); Sane(e') && OnTheirWay(e') == OnTheirWay(e)
  {
    match x
    case Schedule(room) =>
      assert forall i | 0 <= i < |e.port.data| :: e.port.data[i] in e.port.data;
      PumpKeepsWay(e.port, room, e.taken);
    case SendControl(id) => CreditFramesSnoc(e.port.control, Control(id));
    case _ =>
  }

  // ----- each direction is a link -----

  /** The direction from `me` to `peer` is a link that has been opened with `c` and has seen `f` failed credit sends. */
  ghost predicate Linked(me: End, peer: End, c: Config, f: nat) {
    && Sane(me) && Sane(peer)
    && PathLink.LinkInv(LinkOf(me, peer), c.ring, c.frames)
    && (forall i | 0 <= i < |peer.holding| :: peer.holding[i] > 0)
    && exists k :: PathLink.Reached(c.ring, LinkOf(me, peer), f, k)
  }

  /** A link event takes the direction from one pair of ends to another. */
  lemma LinkSteps(me: End, peer: End, me': End, peer': End, c: Config, f: nat, e: PathLink.Event)
    requires Linked(me, peer, c, f) && c.ring > 0 && PathLink.Possible(LinkOf(me, peer), e)
    requires Sane(me') && Sane(peer') && LinkOf(me', peer') == PathLink.Step(LinkOf(me, peer), e)
    requires forall i | 0 <= i < |peer'.holding| :: peer'.holding[i] > 0
    ensures Linked(me', peer', c, f + if e.CreditSendFail? then 1 else 0)
  {
    var k :| PathLink.Reached(c.ring, LinkOf(me, peer), f, k);
    hide LinkOf, PathLink.LinkInv, PathLink.Reached, PathLink.Step, PathLink.Possible;
    PathLink.StepReaches(c.ring, c.frames, LinkOf(me, peer), e, f, k);
  }

  lemma LinkStays(me: End, peer: End, me': End, peer': End, c: Config, f: nat)
    requires Linked(me, peer, c, f) && Sane(me') && Sane(peer') && LinkOf(me', peer') == LinkOf(me, peer)
    ensures Linked(me', peer', c, f)
  {
  }

  lemma DroppedPositive(s: seq<nat>, i: nat)
    requires i < |s| && forall j | 0 <= j < |s| :: s[j] > 0
    ensures forall j | 0 <= j < |Credits.Drop(s, i)| :: Credits.Drop(s, i)[j] > 0
  {
  }

  lemma LocalLinks(me: End, peer: End, x: RawStream.Event, c1: Config, f1: nat, c2: Config, f2: nat)
    requires Linked(me, peer, c1, f1) && Linked(peer, me, c2, f2) && c1.ring > 0 && PossibleAct(me, peer, Local(x))
    ensures var (me', peer') := Apply(me, peer, Local(x)); Linked(me', peer', c1, f1) && Linked(peer', me', c2, f2)
  {
    var me' := me.(port := RawStream.Step(me.port, x));
    KindsOf(me, peer, c1, f1);
    LocalKeepsWay(me, x);
    hide Linked, RawStream.Step, OnTheirWay;
    PathSide(me, peer, c1, f1);
    LinkSteps(me, peer, me', peer, c1, f1, PathLink.Local(x));
    LinkStays(peer, me, peer, me', c2, f2);
  }

  /** What `Linked` says of the sender's port and of the batches. */
  lemma PathSide(me: End, peer: End, c: Config, f: nat)
    requires Linked(me, peer, c, f)
    ensures Sane(me) && Sane(peer) && PathLink.PortInv(me.port) && me.port.window == c.Window() && me.port.frameCount == c.frames
    ensures forall i | 0 <= i < |peer.holding| :: peer.holding[i] > 0
  {
  }

  lemma KindsOf(me: End, peer: End, c: Config, f: nat)
    requires Linked(me, peer, c, f)
    ensures forall x | x in me.port.data :: !x.Control?
  {
    PathSide(me, peer, c, f);
    PathLink.InvInStep(me.port);
    PathLink.KindsApart(me.port);
  }

  /** Queueing a batch is a control frame in one direction and a sent batch in the other. */
  lemma QueueIsStep(me: End, peer: End, i: nat)
    requires PossibleAct(me, peer, QueueCredits(i)) && me.holding[i] > 0
    ensures var n, me' := me.holding[i], Apply(me, peer, QueueCredits(i)).0;
            && Apply(me, peer, QueueCredits(i)).1 == peer && Sane(me') && me'.holding == Credits.Drop(me.holding, i)
            && PathLink.Possible(LinkOf(me, peer), PathLink.Local(RawStream.SendControl(n)))
            && LinkOf(me', peer) == PathLink.Step(LinkOf(me, peer), PathLink.Local(RawStream.SendControl(n)))
            && PathLink.Possible(LinkOf(peer, me), PathLink.CreditSent(i))
            && LinkOf(peer, me') == PathLink.Step(LinkOf(peer, me), PathLink.CreditSent(i))
  {
    CreditFramesSnoc(me.port.control, Control(me.holding[i]));
    hide CreditFrames, Credits.Drop;
  }

  lemma QueueLinks(me: End, peer: End, i: nat, c1: Config, f1: nat, c2: Config, f2: nat)
    requires Linked(me, peer, c1, f1) && Linked(peer, me, c2, f2) && c1.ring > 0 && c2.ring > 0
    requires PossibleAct(me, peer, QueueCredits(i))
    ensures var (me', peer') := Apply(me, peer, QueueCredits(i)); Linked(me', peer', c1, f1) && Linked(peer', me', c2, f2)
  {
    hide Linked, CreditFrames, Credits.Drop, LinkOf, PathLink.Step, PathLink.Possible, Apply, PathLink.PortInv;
    var n, me' := me.holding[i], Apply(me, peer, QueueCredits(i)).0;
    PathSide(peer, me, c2, f2);
    PathSide(me, peer, c1, f1);
    DroppedPositive(me.holding, i);
    QueueIsStep(me, peer, i);
    LinkSteps(me, peer, me', peer, c1, f1, PathLink.Local(RawStream.SendControl(n)));
    LinkSteps(peer, me, peer, me', c2, f2, PathLink.CreditSent(i));
  }

  lemma LoseIsStep(me: End, peer: End, i: nat)
    requires PossibleAct(me, peer, LoseCredits(i))
    ensures var me' := Apply(me, peer, LoseCredits(i)).0;
            && Apply(me, peer, LoseCredits(i)).1 == peer && Sane(me') && me'.holding == Credits.Drop(me.holding, i)
            && LinkOf(me', peer) == LinkOf(me, peer)
            && PathLink.Possible(LinkOf(peer, me), PathLink.CreditSendFail(i))
            && LinkOf(peer, me') == PathLink.Step(LinkOf(peer, me), PathLink.CreditSendFail(i))
  {
  }

  lemma LoseLinks(me: End, peer: End, i: nat, c1: Config, f1: nat, c2: Config, f2: nat)
    requires Linked(me, peer, c1, f1) && Linked(peer, me, c2, f2) && c1.ring > 0 && c2.ring > 0
    requires PossibleAct(me, peer, LoseCredits(i))
    ensures var (me', peer') := Apply(me, peer, LoseCredits(i)); Linked(me', peer', c1, f1) && Linked(peer', me', c2, f2 + 1)
  {
    hide Linked, CreditFrames, Credits.Drop, LinkOf, PathLink.Step, PathLink.Possible, Apply, PathLink.PortInv;
    var me' := Apply(me, peer, LoseCredits(i)).0;
    PathSide(peer, me, c2, f2);
    DroppedPositive(me.holding, i);
    LoseIsStep(me, peer, i);
    LinkStays(me, peer, me', peer, c1, f1);
    LinkSteps(peer, me, peer, me', c2, f2, PathLink.CreditSendFail(i));
  }

  /** A received frame is received on its own direction... */
  lemma DeliverIsReceive(me: End, peer: End, status: bool)
    requires PossibleAct(me, peer, Deliver(status)) && PathLink.Understood(me.port.posted)
    ensures var (me', peer') := Apply(me, peer, Deliver(status));
            && Sane(me') && Sane(peer')
            && PathLink.Possible(LinkOf(me, peer), PathLink.Receive(status))
            && LinkOf(me', peer') == PathLink.Step(LinkOf(me, peer), PathLink.Receive(status))
  {
    hide CreditFrames, RxAll, PathLink.ReturnsCredit, Credits.AddCredits, PathLink.Understood, PathTx.DataPosted, PathTx.Groups, Credits.ReturnOne;
  }

  /** ... and a PATH_CREDIT frame arrives for the other. */
  lemma DeliverIsArrival(me: End, peer: End, status: bool)
    requires PossibleAct(me, peer, Deliver(status)) && PathLink.Understood(me.port.posted)
    ensures var (me', peer') := Apply(me, peer, Deliver(status));
            var f := me.port.posted[me.taken];
            && Sane(me') && Sane(peer')
            && if f.Control? && f.id > 0 then
                 && PathLink.Possible(LinkOf(peer, me), PathLink.CreditArrive(0))
                 && LinkOf(peer', me') == PathLink.Step(LinkOf(peer, me), PathLink.CreditArrive(0))
               else LinkOf(peer', me') == LinkOf(peer, me)
  {
    PathLink.ReturnsWhatWasCharged(me.port.posted, me.taken, status);
    WayTaken(me);
    hide CreditFrames, RxAll, PathLink.ReturnsCredit, Credits.AddCredits, PathLink.Understood, PathTx.DataPosted, PathTx.Groups, Credits.ReturnOne;
    hide OnTheirWay, Credits.Drop;
  }

  lemma WayTaken(me: End)
    requires me.taken < |me.port.posted|
    ensures var f, rest := me.port.posted[me.taken], OnTheirWay(me.(taken := me.taken + 1));
            && OnTheirWay(me) == (if f.Control? && f.id > 0 then [f.id] else []) + rest
            && (f.Control? && f.id > 0 ==> Credits.Drop(OnTheirWay(me), 0) == rest)
            && (!(f.Control? && f.id > 0) ==> OnTheirWay(me) == rest)
  {
    var f, rest := me.port.posted[me.taken], OnTheirWay(me.(taken := me.taken + 1));
    CreditFramesCons(me.port.posted[me.taken..]);
    assert me.port.posted[me.taken..][1..] == me.port.posted[me.taken + 1..];
    hide CreditFrames;
    assert OnTheirWay(me) == (if f.Control? && f.id > 0 then [f.id] else []) + rest;
  }

  /** A batch falls due with at least one credit. */
  lemma ReturnedPositive(me: End, peer: End, status: bool)
    requires PossibleAct(me, peer, Deliver(status)) && forall i | 0 <= i < |peer.holding| :: peer.holding[i] > 0
    ensures var peer' := Apply(me, peer, Deliver(status)).1; forall i | 0 <= i < |peer'.holding| :: peer'.holding[i] > 0
    ensures Apply(me, peer, Deliver(status)).0.holding == me.holding
  {
    hide CreditFrames, RxAll, PathLink.ReturnsCredit, Credits.AddCredits, PathTx.DataPosted, PathTx.Groups;
  }

  lemma DeliverLinks(me: End, peer: End, status: bool, c1: Config, f1: nat, c2: Config, f2: nat)
    requires Linked(me, peer, c1, f1) && Linked(peer, me, c2, f2) && c1.ring > 0 && c2.ring > 0
    requires PossibleAct(me, peer, Deliver(status))
    ensures var (me', peer') := Apply(me, peer, Deliver(status)); Linked(me', peer', c1, f1) && Linked(peer', me', c2, f2)
  {
    hide Linked, CreditFrames, LinkOf, PathLink.Step, PathLink.Possible, Apply, PathLink.Understood, Sane;
    var (me', peer') := Apply(me, peer, Deliver(status));
    PathSide(me, peer, c1, f1);
    PathSide(peer, me, c2, f2);
    DeliverIsReceive(me, peer, status);
    DeliverIsArrival(me, peer, status);
    ReturnedPositive(me, peer, status);
    LinkSteps(me, peer, me', peer', c1, f1, PathLink.Receive(status));
    var f := me.port.posted[me.taken];
    if f.Control? && f.id > 0 {
      LinkSteps(peer, me, peer', me', c2, f2, PathLink.CreditArrive(0));
    } else {
      LinkStays(peer, me, peer', me', c2, f2);
    }
  }

  lemma ActLinks(me: End, peer: End, act: Act, c1: Config, f1: nat, c2: Config, f2: nat)
    requires Linked(me, peer, c1, f1) && Linked(peer, me, c2, f2) && c1.ring > 0 && c2.ring > 0 && PossibleAct(me, peer, act)
    ensures var (me', peer') := Apply(me, peer, act);
            Linked(me', peer', c1, f1) && Linked(peer', me', c2, f2 + if act.LoseCredits? then 1 else 0)
  {
    hide Linked, Apply, PossibleAct;
    match act
    case Local(x) => LocalLinks(me, peer, x, c1, f1, c2, f2);
    case Deliver(status) => DeliverLinks(me, peer, status, c1, f1, c2, f2);
    case QueueCredits(i) => QueueLinks(me, peer, i, c1, f1, c2, f2);
    case LoseCredits(i) => LoseLinks(me, peer, i, c1, f1, c2, f2);
  }

  lemma OpenLinked(c: Config, o: Config)
    ensures Linked(Opened(c), Opened(o), c, 0)
  {
    assert LinkOf(Opened(c), Opened(o)) == PathLink.Open(c.ring, c.frames, c.limit);
    PathLink.OpenReached(c.ring, c.frames, c.limit);
  }

  /** Over every run both directions are runs of a link, the failed sends of one end counting against the other. */
  lemma {:induction false} BothLinked(l: Config, r: Config, events: seq<Event>)
    requires l.ring > 0 && r.ring > 0 && RunOf(Open(l, r), events).Some?
    ensures var d := RunOf(Open(l, r), events).value;
            Linked(d.left, d.right, l, Losses(events, false)) && Linked(d.right, d.left, r, Losses(events, true))
  {
    hide Linked, Apply, PossibleAct, Opened;
    if events == [] {
      OpenLinked(l, r);
      OpenLinked(r, l);
    } else {
      var init, e := events[..|events| - 1], events[|events| - 1];
      BothLinked(l, r, init);
      var d := RunOf(Open(l, r), init).value;
      if e.byLeft {
        ActLinks(d.left, d.right, e.act, l, Losses(init, false), r, Losses(init, true));
      } else {
        ActLinks(d.right, d.left, e.act, r, Losses(init, true), l, Losses(init, false));
      }
    }
  }

  // ----- when nothing moves any more -----

  predicate Still(e: End) { e.port.flying == [] && e.taken == |e.port.posted| && e.holding == [] }

  predicate Waits(p: Port) { p.control != [] || p.data != [] }

  /** Nothing is in flight either way, something waits, and neither scheduler may post. */
  predicate Stuck(d: Duplex) {
    && Still(d.left) && Still(d.right) && !CanPost(d.left.port) && !CanPost(d.right.port)
    && (Waits(d.left.port) || Waits(d.right.port))
  }

  /** In the middle of a stream with its next page waiting, no credit left, and the peer's credits behind the stream. */
  ghost predicate HeldUp(e: End) {
    && e.port.raw.active && RxAll(e.port.posted).0.pending
    && e.port.data != [] && e.port.data[0].Page? && e.port.data[0].owner == e.port.raw.owner
    && e.port.credits == 0 && CreditFrames(e.port.control) != []
  }

  lemma OneSideMoves(me: End, peer: End, c: Config, f: nat)
    requires Linked(me, peer, c, f) && c.Usable() && Credits.Withstands(c.Window(), f)
    requires Still(me) && Still(peer) && CreditFrames(peer.port.control) == []
    ensures CanPost(me.port) || !Waits(me.port)
  {
    var k :| PathLink.Reached(c.ring, LinkOf(me, peer), f, k);
    assert peer.port.posted[peer.taken..] == [];
    hide PathLink.LinkInv, PathLink.Reached, Credits.Window;
    PathLink.RestingLinkPosts(c.ring, c.frames, LinkOf(me, peer), f, k);
  }

  lemma StreamHoldsUp(me: End, peer: End, c: Config, f: nat)
    requires Linked(me, peer, c, f) && c.Usable() && Still(me) && !CanPost(me.port) && CreditFrames(me.port.control) != []
    ensures HeldUp(me)
  {
    PathSide(me, peer, c, f);
    Credits.WindowSizes(c.ring);
    var p := me.port;
    hide RxAll, RawStream.Meaning, RawStream.LastHead, RawStream.BytesSince, PathLink.Understood, CreditFrames, Linked, Credits.Window;
    assert p.control != [] by { NoFrames(p.control); }
    assert p.control[0] in p.control;
  }

  lemma NoFrames(frames: seq<Packet>)
    ensures CreditFrames(frames) != [] ==> frames != []
  {
  }

  /**
   * When the two schedulers block each other, both ends are in the middle of a stream, out of credits, and each has
   * the credits of the other behind its own stream. Framed traffic, and streams one way only, thus never block.
   */
  lemma StuckMeansBothStream(l: Config, r: Config, events: seq<Event>)
    requires l.Usable() && r.Usable() && RunOf(Open(l, r), events).Some?
    requires Credits.Withstands(l.Window(), Losses(events, false)) && Credits.Withstands(r.Window(), Losses(events, true))
    requires Stuck(RunOf(Open(l, r), events).value)
    ensures var d := RunOf(Open(l, r), events).value; HeldUp(d.left) && HeldUp(d.right)
  {
    BothLinked(l, r, events);
    var d := RunOf(Open(l, r), events).value;
    hide Linked, RunOf, Credits.Withstands, CanPost, HeldUp;
    if CreditFrames(d.right.port.control) == [] { OneSideMoves(d.left, d.right, l, Losses(events, false)); }
    if CreditFrames(d.left.port.control) == [] { OneSideMoves(d.right, d.left, r, Losses(events, true)); }
    NoFrames(d.left.port.control);
    NoFrames(d.right.port.control);
    StreamHoldsUp(d.left, d.right, l, Losses(events, false));
    StreamHoldsUp(d.right, d.left, r, Losses(events, true));
  }

  /** Such a state is final: senders can only queue more behind it. */
  lemma StuckIsFinal(d: Duplex, e: Event)
    requires Stuck(d) && HeldUp(d.left) && HeldUp(d.right) && Possible(d, e)
    ensures Stuck(Step(d, e)) && HeldUp(Step(d, e).left) && HeldUp(Step(d, e).right)
  {
    if e.byLeft { ActStaysHeld(d.left, d.right, e.act); } else { ActStaysHeld(d.right, d.left, e.act); }
  }

  lemma ActStaysHeld(me: End, peer: End, act: Act)
    requires Still(me) && HeldUp(me) && !CanPost(me.port) && PossibleAct(me, peer, act)
    ensures var (me', peer') := Apply(me, peer, act);
            Still(me') && HeldUp(me') && !CanPost(me'.port) && peer' == peer
  {
    hide RxAll, CreditFrames;
    if act.Local? && act.x.SendControl? { CreditFramesSnoc(me.port.control, Control(act.x.id)); }
  }
}
