/**
 * Exactly when two schedulers can block each other: when both ends may send streams longer than one return
 * batch of credits. A stream that fits a batch has all its credits before its header is posted.
 */
module PathDeadlock {
  import opened Basics
  import opened NativeData
  import opened PathSpec
  import opened PathDuplex
  import Credits
  import PathLink
  import PathTx
  import RawStream

  // ----- short streams are paid for when they start -----

  /** The pages at the head of the queue, to the end of their stream. */
  function PagesLeft(q: seq<Packet>): nat
    decreases |q|
  {
    if q == [] || !q[0].Page? then 0 else if q[0].end then 1 else 1 + PagesLeft(q[1..])
  }

  /** Every stream that waits asks for all its frames, at most `t` of them, before it starts. */
  predicate StreamsFit(q: seq<Packet>, t: nat)
    decreases |q|
  {
    q == [] || ((q[0].StreamHead? ==> q[0].group == 1 + PagesLeft(q[1..]) <= t) && StreamsFit(q[1..], t))
  }

  /** The stream being posted has a credit for each of its pages. */
  ghost predicate Paid(p: Port, t: nat) {
    && p.credits <= p.window && StreamsFit(p.data, t)
    && (RxAll(p.posted).0.pending ==> PagesLeft(p.data) <= p.credits)
  }

  lemma {:induction false} FitAppend(q: seq<Packet>, more: seq<Packet>, owner: nat, rest: nat, t: nat)
    requires RawStream.Whole(q) || RawStream.Middle(q, owner, rest)
    requires StreamsFit(q, t) && StreamsFit(more, t)
    ensures StreamsFit(q + more, t)
    ensures RawStream.Middle(q, owner, rest) ==> PagesLeft(q + more) == PagesLeft(q)
    decreases |q|
  {
    if q == [] {
      assert q + more == more;
    } else {
      assert (q + more)[1..] == q[1..] + more;
      if q[0].StreamHead? { FitAppend(q[1..], more, q[0].owner, q[0].hdr.length, t); }
      else if q[0].Framed? || |q[0].bytes| == rest { FitAppend(q[1..], more, owner, rest, t); }
      else { FitAppend(q[1..], more, owner, rest - |q[0].bytes|, t); }
    }
  }

  lemma {:induction false} FramedFit(ids: seq<nat>, owner: nat, group: nat, t: nat)
    ensures StreamsFit(RawStream.FramedList(ids, owner, group), t)
  {
    if ids != [] {
      FramedFit(ids[1..], owner, 0, t);
      assert RawStream.FramedList(ids, owner, group)[1..] == RawStream.FramedList(ids[1..], owner, 0);
    }
  }

  lemma {:induction false} PagesFit(pages: seq<seq<Byte>>, owner: nat, t: nat)
    ensures var q := RawStream.PagePackets(pages, owner); StreamsFit(q, t) && PagesLeft(q) == |pages|
  {
    if pages != [] {
      PagesFit(pages[1..], owner, t);
      assert RawStream.PagePackets(pages, owner)[1..] == RawStream.PagePackets(pages[1..], owner);
    }
  }

  lemma StreamFits(hdr: DataHeader, pages: seq<seq<Byte>>, owner: nat, t: nat)
    requires |pages| + 1 <= t
    ensures StreamsFit(RawStream.StreamList(hdr, pages, owner), t)
  {
    PagesFit(pages, owner, t);
    assert RawStream.StreamList(hdr, pages, owner)[1..] == RawStream.PagePackets(pages, owner);
  }

  lemma QueuePaid(p: Port, more: seq<Packet>, t: nat)
    requires RawStream.InStep(p) && Paid(p, t) && StreamsFit(more, t)
    ensures Paid(p.(data := p.data + more), t)
  {
    hide RxAll, RawStream.Meaning, RawStream.FlyingOk, RawStream.Whole, RawStream.Middle, StreamsFit, PagesLeft, RawStream.LastHead, RawStream.BytesSince;
    FitAppend(p.data, more, p.raw.owner, RxAll(p.posted).0.remaining, t);
  }

  lemma PostPaid(p: Port, t: nat)
    requires RawStream.InStep(p) && Paid(p, t) && CanPost(p) && p.window > 0 && t <= Credits.ReturnThreshold(p.window)
    ensures Paid(PostOne(p), t)
  {
    hide RxAll, RawStream.Meaning, ControlReserve, RawStream.LastHead, RawStream.BytesSince, RawStream.CountedIn;
    RawStream.RxAppend(p.posted, Candidate(p).value.WithGroup(0));
  }

  lemma RefusedSame(p: Port)
    requires CanPost(p) && p.credits <= p.window
    ensures PostRefused(p, true) == p
  {
  }

  lemma {:induction false} PumpPaid(p: Port, room: nat, t: nat)
    requires PathLink.PortInv(p) && Paid(p, t) && p.window > 0 && t <= Credits.ReturnThreshold(p.window)
    ensures Paid(Pump(p, room, true), t)
    decreases |p.control| + |p.data|
  {
    hide PathLink.PortInv, Gates, PostOne, RxAll, StreamsFit, PagesLeft;
    if CanPost(p) {
      if room > 0 {
        PathLink.InvInStep(p);
        PostPaid(p, t);
        PathLink.PostKeepsInv(p);
        PathTx.PostedShrinks(p, true);
        PumpPaid(PostOne(p), room - 1, t);
      } else {
        RefusedSame(p);
      }
    }
  }

  lemma LocalPaid(p: Port, x: RawStream.Event, t: nat)
    requires PathLink.PortInv(p) && Paid(p, t) && p.window > 0 && t <= Credits.ReturnThreshold(p.window)
    requires RawStream.Possible(x, p) && (x.SendStream? ==> |x.pages| + 1 <= t)
    ensures Paid(RawStream.Step(p, x), t)
  {
    PathLink.InvInStep(p);
    hide PathLink.PortInv, Pump, RxAll, StreamsFit, PagesLeft, RawStream.InStep;
    match x
    case Schedule(room) => PumpPaid(p, room, t);
    case SendFramed(ids, owner) =>
      FramedFit(ids, owner, |ids|, t);
      QueuePaid(p, RawStream.FramedList(ids, owner, |ids|), t);
    case SendStream(hdr, pages, owner) =>
      StreamFits(hdr, pages, owner, t);
      QueuePaid(p, RawStream.StreamList(hdr, pages, owner), t);
    case _ =>
  }

  lemma MyActPaid(me: End, peer: End, act: Act, c: Config, f: nat, t: nat)
    requires Linked(me, peer, c, f) && c.ring > 0 && PossibleAct(me, peer, act)
    requires Paid(me.port, t) && t <= Credits.ReturnThreshold(c.Window())
    requires act.Local? && act.x.SendStream? ==> |act.x.pages| + 1 <= t
    ensures Paid(Apply(me, peer, act).0.port, t)
  {
    PathSide(me, peer, c, f);
    Credits.WindowSizes(c.ring);
    hide Linked, PathLink.PortInv, Paid, Credits.Window, Credits.ReturnThreshold, PathLink.ReturnsCredit, RxAll, OnTheirWay, RawStream.Step;
    match act
    case Local(x) => LocalPaid(me.port, x, t);
    case QueueCredits(i) => LocalPaid(me.port, RawStream.SendControl(me.holding[i]), t);
    case _ =>
  }

  lemma TheirActPaid(me: End, peer: End, act: Act, c: Config, f: nat, t: nat)
    requires Linked(me, peer, c, f) && c.ring > 0 && PossibleAct(peer, me, act)
    requires Paid(me.port, t) && t <= Credits.ReturnThreshold(c.Window())
    ensures Paid(Apply(peer, me, act).1.port, t)
  {
    PathSide(me, peer, c, f);
    Credits.WindowSizes(c.ring);
    hide Linked, PathLink.PortInv, Paid, Credits.Window, Credits.ReturnThreshold, PathLink.ReturnsCredit, RxAll, OnTheirWay, RawStream.Step;
    if act.Deliver? {
      var f := peer.port.posted[peer.taken];
      if f.Control? { LocalPaid(me.port, RawStream.CreditsIn(f.id), t); }
    }
  }

  lemma OpenedPaid(c: Config, t: nat)
    ensures Paid(Opened(c).port, t)
  {
  }

  /** An end whose streams all fit a batch has, at every moment, a credit for each page of the stream it is posting. */
  lemma {:induction false} ShortStreamsPaid(l: Config, r: Config, events: seq<Event>, left: bool, t: nat)
    requires l.ring > 0 && r.ring > 0 && RunOf(Open(l, r), events).Some?
    requires t <= Credits.ReturnThreshold(if left then l.Window() else r.Window()) && StreamsWithin(events, left, t)
    ensures var d := RunOf(Open(l, r), events).value; Paid((if left then d.left else d.right).port, t)
  {
    hide Linked, Apply, PossibleAct, Opened, Paid, Credits.ReturnThreshold, Credits.Window;
    if events == [] {
      OpenedPaid(l, t);
      OpenedPaid(r, t);
    } else {
      var init, e := events[..|events| - 1], events[|events| - 1];
      assert forall i | 0 <= i < |init| :: init[i] == events[i];
      assert StreamWithin(e, left, t);
      ShortStreamsPaid(l, r, init, left, t);
      BothLinked(l, r, init);
      var d := RunOf(Open(l, r), init).value;
      var (me, peer) := if left then (d.left, d.right) else (d.right, d.left);
      var c := if left then l else r;
      if e.byLeft == left {
        MyActPaid(me, peer, e.act, c, Losses(init, !left), t);
      } else {
        TheirActPaid(me, peer, e.act, c, Losses(init, !left), t);
      }
    }
  }

  /** With streams that fit a batch on one side at least, the schedulers never block each other. */
  lemma ShortStreamsNeverStuck(l: Config, r: Config, events: seq<Event>, left: bool, t: nat)
    requires l.Usable() && r.Usable() && RunOf(Open(l, r), events).Some?
    requires Credits.Withstands(l.Window(), Losses(events, false)) && Credits.Withstands(r.Window(), Losses(events, true))
    requires t <= Credits.ReturnThreshold(if left then l.Window() else r.Window()) && StreamsWithin(events, left, t)
    ensures !Stuck(RunOf(Open(l, r), events).value)
  {
    var d := RunOf(Open(l, r), events).value;
    ShortStreamsPaid(l, r, events, left, t);
    hide RunOf, Credits.Withstands, Credits.Window, Stuck, Credits.ReturnThreshold, RxAll, CreditFrames;
    if Stuck(d) { StuckMeansBothStream(l, r, events); }
  }

  // ----- long streams both ways do block -----

  /** A run without losses, with streams of at most `m` frames by the left end and `n` by the right, ends in `d`. */
  ghost predicate Gets(l: Config, r: Config, m: nat, n: nat, d: Duplex) {
    exists events :: && RunOf(Open(l, r), events) == Some(d) && StreamsWithin(events, true, m) && StreamsWithin(events, false, n)
                     && Losses(events, true) == 0 && Losses(events, false) == 0
  }

  function Pair(left: bool, me: End, peer: End): Duplex { if left then Duplex(me, peer) else Duplex(peer, me) }

  lemma Begin(l: Config, r: Config, m: nat, n: nat)
    ensures Gets(l, r, m, n, Open(l, r))
  {
    assert RunOf(Open(l, r), []) == Some(Open(l, r));
  }

  lemma Extend(l: Config, r: Config, m: nat, n: nat, left: bool, me: End, peer: End, act: Act)
    requires Gets(l, r, m, n, Pair(left, me, peer)) && PossibleAct(me, peer, act) && !act.LoseCredits?
    requires StreamWithin(Event(left, act), left, if left then m else n)
    ensures Gets(l, r, m, n, Pair(left, Apply(me, peer, act).0, Apply(me, peer, act).1))
  {
    hide Apply, PossibleAct;
    var d, e := Pair(left, me, peer), Event(left, act);
    var events :| && RunOf(Open(l, r), events) == Some(d) && StreamsWithin(events, true, m) && StreamsWithin(events, false, n)
                  && Losses(events, true) == 0 && Losses(events, false) == 0;
    var more := events + [e];
    assert more[..|events|] == events;
    assert forall i | 0 <= i < |more| :: more[i] == if i < |events| then events[i] else e;
    assert RunOf(Open(l, r), more) == Some(Step(d, e));
  }

  /** With its window `w` this end has posted `|posted|` data frames, all completed, and has `c` credits left. */
  function Port(w: nat, c: nat, data: seq<Packet>, g: Config, raw: Raw, posted: seq<Packet>): PathSpec.Port {
    PathSpec.Port(c, w, [], data, g.frames, g.frames, g.limit, raw, [], posted)
  }

  /** With one place in the ring the head of the data queue is posted and its completion taken. */
  lemma OnePosted(p: PathSpec.Port)
    requires p.flying == [] && p.control == [] && p.data != [] && CanPost(p) && p.credits <= p.window
    ensures var q := Pump(p, 1, true); q == PostOne(p) && |q.flying| == 1
  {
    var q := PostOne(p);
    hide Gates;
    if CanPost(q) { RefusedSame(q); }
  }

  lemma PostFrame(l: Config, r: Config, m: nat, n: nat, left: bool, me: End, peer: End) returns (me': End)
    requires Gets(l, r, m, n, Pair(left, me, peer)) && Sane(me) && Sane(peer)
    requires me.port.flying == [] && me.port.control == [] && me.port.data != [] && CanPost(me.port) && me.port.credits <= me.port.window
    ensures me'.port == Complete(PostOne(me.port), 0) && me' == me.(port := me'.port)
    ensures Sane(me') && Gets(l, r, m, n, Pair(left, me', peer))
  {
    OnePosted(me.port);
    hide Gets, Gates, Pump, PostOne, Complete;
    var q := me.(port := Pump(me.port, 1, true));
    Extend(l, r, m, n, left, me, peer, Local(RawStream.Schedule(1)));
    PostedMore(me.port);
    me' := q.(port := Complete(q.port, 0));
    Extend(l, r, m, n, left, q, peer, Local(RawStream.TxDone(0)));
    CompleteKeepsPosted(q.port);
  }

  lemma PostedMore(p: PathSpec.Port)
    requires CanPost(p)
    ensures |PostOne(p).posted| == |p.posted| + 1
  {
  }

  lemma CompleteKeepsPosted(p: PathSpec.Port)
    requires p.flying != []
    ensures Complete(p, 0).posted == p.posted
  {
  }

  ghost predicate AllData(frames: seq<Packet>) { forall i | 0 <= i < |frames| :: !frames[i].Control? }

  /** Framed packets are posted one at a time until `k` credits are used. */
  lemma {:induction false} FramesPosted(l: Config, r: Config, m: nat, n: nat, left: bool, me: End, peer: End, g: Config, k: nat)
    returns (me': End)
    requires Gets(l, r, m, n, Pair(left, me, peer)) && Sane(peer)
    requires me == Opened(g) && g.Usable() && k <= g.Window()
    ensures me' == me.(port := me'.port) && Sane(me') && Gets(l, r, m, n, Pair(left, me', peer))
    ensures me'.port == Port(g.Window(), g.Window() - k, [], g, NO_RAW, me'.port.posted)
    ensures |me'.port.posted| == k && AllData(me'.port.posted)
  {
    hide Gets, Credits.Window;
    if k == 0 {
      me' := me;
    } else {
      var b := FramesPosted(l, r, m, n, left, me, peer, g, k - 1);
      var x := RawStream.SendFramed([0], 0);
      var b' := b.(port := b.port.(data := [Framed(0, 0, 1)]));
      assert RawStream.Step(b.port, x) == b'.port by { assert RawStream.FramedList([0], 0, 1) == [Framed(0, 0, 1)]; }
      Extend(l, r, m, n, left, b, peer, Local(x));
      FrameFits(b'.port, g);
      me' := PostFrame(l, r, m, n, left, b', peer);
    }
  }

  /** A port with nothing in flight posts a framed packet as long as it has a credit. */
  lemma FrameFits(p: PathSpec.Port, g: Config)
    requires g.frames > 0 && p.credits <= p.window && p.credits > 0
    requires p == Port(p.window, p.credits, [Framed(0, 0, 1)], g, NO_RAW, p.posted)
    ensures CanPost(p)
    ensures Complete(PostOne(p), 0) == Port(p.window, p.credits - 1, [], g, NO_RAW, p.posted + [Framed(0, 0, 0)])
  {
  }

  /** A stream of `k` one-byte pages. */
  function Pages(k: nat): seq<seq<Byte>> { seq(k, _ => [0]) }

  const STREAM_FLAGS: nat := 5

  function Header(k: nat): DataHeader { DataHeader(OP_SEND, STREAM_FLAGS, 0, 0, 0, k, 0, 0, 0, 0) }

  lemma {:induction false} PagesAddUp(k: nat)
    ensures RawStream.PagesLen(Pages(k)) == k
  {
    if k > 0 {
      PagesAddUp(k - 1);
      assert Pages(k)[1..] == Pages(k - 1);
    }
  }

  const STREAMING := Raw(true, 0, 0, false)

  /** The header goes out with a batch of credits at hand. */
  lemma HeaderFits(p: PathSpec.Port, g: Config, t: nat)
    requires g.frames > 0 && 0 < t == Credits.ReturnThreshold(p.window) <= p.window
    requires p == Port(p.window, t, RawStream.StreamList(Header(t), Pages(t), 0), g, NO_RAW, p.posted)
    ensures CanPost(p)
    ensures Complete(PostOne(p), 0)
            == Port(p.window, t - 1, RawStream.PagePackets(Pages(t), 0), g, STREAMING, p.posted + [StreamHead(Header(t), 0, 0)])
  {
    assert RawStream.StreamList(Header(t), Pages(t), 0)[1..] == RawStream.PagePackets(Pages(t), 0);
    hide RawStream.PagePackets;
  }

  lemma PageFits(p: PathSpec.Port, g: Config, k: nat)
    requires k >= 2 && 0 < p.credits <= p.window
    requires p == Port(p.window, p.credits, RawStream.PagePackets(Pages(k), 0), g, STREAMING, p.posted)
    ensures CanPost(p)
    ensures Complete(PostOne(p), 0)
            == Port(p.window, p.credits - 1, RawStream.PagePackets(Pages(k - 1), 0), g, STREAMING, p.posted + [Page([0], 0, 0, false)])
  {
    assert Pages(k)[1..] == Pages(k - 1);
    assert RawStream.PagePackets(Pages(k), 0)[1..] == RawStream.PagePackets(Pages(k - 1), 0);
    assert RawStream.PagePackets(Pages(k), 0)[0] == Page([0], 0, 0, false);
    hide RawStream.PagePackets;
  }

  /** Pages go out until the credits are used up and one page is left. */
  lemma {:induction false} PagesPosted(l: Config, r: Config, m: nat, n: nat, left: bool, me: End, peer: End, g: Config, k: nat)
    returns (me': End)
    requires Gets(l, r, m, n, Pair(left, me, peer)) && Sane(me) && Sane(peer) && AllData(me.port.posted) && k < g.Window()
    requires me.port == Port(g.Window(), k, RawStream.PagePackets(Pages(k + 1), 0), g, STREAMING, me.port.posted)
    ensures me' == me.(port := me'.port) && Sane(me') && Gets(l, r, m, n, Pair(left, me', peer))
    ensures me'.port == Port(g.Window(), 0, RawStream.PagePackets(Pages(1), 0), g, STREAMING, me'.port.posted)
    ensures |me'.port.posted| == |me.port.posted| + k && AllData(me'.port.posted)
    decreases k
  {
    hide Gets, Credits.Window, Complete, PostOne, CanPost, RawStream.PagePackets;
    if k == 0 {
      me' := me;
    } else {
      PageFits(me.port, g, k + 1);
      assert me.port.data != [] by { SomePages(k + 1); }
      var b := PostFrame(l, r, m, n, left, me, peer);
      me' := PagesPosted(l, r, m, n, left, b, peer, g, k - 1);
    }
  }

  lemma SomePages(k: nat)
    ensures k > 0 ==> RawStream.PagePackets(Pages(k), 0) != []
  {
  }

  /** One end uses up its window, the last batch of it inside a stream that needs one credit more. */
  lemma WindowUsedUp(l: Config, r: Config, m: nat, n: nat, left: bool, me: End, peer: End, g: Config, t: nat) returns (me': End)
    requires Gets(l, r, m, n, Pair(left, me, peer)) && Sane(peer)
    requires me == Opened(g) && g.Usable() && 0 < t == Credits.ReturnThreshold(g.Window()) <= g.Window()
    requires t < if left then m else n
    ensures me' == me.(port := me'.port) && Sane(me') && Gets(l, r, m, n, Pair(left, me', peer))
    ensures me'.port == Port(g.Window(), 0, RawStream.PagePackets(Pages(1), 0), g, STREAMING, me'.port.posted)
    ensures |me'.port.posted| == g.Window() && AllData(me'.port.posted)
  {
    hide Gets, Credits.Window, Complete, PostOne, CanPost;
    var b := FramesPosted(l, r, m, n, left, me, peer, g, g.Window() - t);
    var x := RawStream.SendStream(Header(t), Pages(t), 0);
    PagesAddUp(t);
    assert t <= Credits.BATCH;
    assert [] + RawStream.StreamList(Header(t), Pages(t), 0) == RawStream.StreamList(Header(t), Pages(t), 0);
    var b' := b.(port := b.port.(data := RawStream.StreamList(Header(t), Pages(t), 0)));
    assert RawStream.Possible(x, b.port) && RawStream.Step(b.port, x) == b'.port;
    Extend(l, r, m, n, left, b, peer, Local(x));
    HeaderFits(b'.port, g, t);
    var h := PostFrame(l, r, m, n, left, b', peer);
    me' := PagesPosted(l, r, m, n, left, h, peer, g, t - 1);
  }

  // ----- the credits come back behind the streams -----

  lemma GetsUnderstood(l: Config, r: Config, m: nat, n: nat, left: bool, me: End, peer: End)
    requires l.ring > 0 && r.ring > 0 && Gets(l, r, m, n, Pair(left, me, peer))
    ensures PathLink.Understood(me.port.posted)
  {
    hide Linked, RunOf, PathLink.Understood;
    var events :| RunOf(Open(l, r), events) == Some(Pair(left, me, peer));
    BothLinked(l, r, events);
    PathSide(me, peer, if left then l else r, Losses(events, !left));
  }

  /** A data frame is worth one credit to its sender. */
  lemma DataReturns(me: End, peer: End)
    requires PossibleAct(me, peer, Deliver(false)) && PathLink.Understood(me.port.posted) && !me.port.posted[me.taken].Control?
    ensures var due := peer.pending + 1 >= Credits.ReturnThreshold(me.port.window);
            Apply(me, peer, Deliver(false))
            == (me.(taken := me.taken + 1),
                peer.(pending := if due then 0 else peer.pending + 1,
                      holding := if due then peer.holding + [peer.pending + 1] else peer.holding))
  {
    PathLink.ReturnsWhatWasCharged(me.port.posted, me.taken, false);
    hide RxAll, PathLink.ReturnsCredit, PathLink.Understood, PathTx.DataPosted, PathTx.Groups, CreditFrames, Credits.ReturnThreshold;
  }

  /** One of my data frames is received. */
  lemma OneReceived(l: Config, r: Config, m: nat, n: nat, left: bool, me: End, peer: End) returns (peer': End)
    requires l.ring > 0 && r.ring > 0 && Gets(l, r, m, n, Pair(left, me, peer)) && Sane(me) && Sane(peer)
    requires AllData(me.port.posted) && me.taken < |me.port.posted|
    ensures Gets(l, r, m, n, Pair(left, me.(taken := me.taken + 1), peer'))
    ensures var due := peer.pending + 1 >= Credits.ReturnThreshold(me.port.window);
            peer' == peer.(pending := if due then 0 else peer.pending + 1,
                           holding := if due then peer.holding + [peer.pending + 1] else peer.holding)
  {
    hide Gets, Apply, PathLink.Understood, Credits.ReturnThreshold;
    GetsUnderstood(l, r, m, n, left, me, peer);
    DataReturns(me, peer);
    Extend(l, r, m, n, left, me, peer, Deliver(false));
    peer' := Apply(me, peer, Deliver(false)).1;
  }

  /** Frames of a batch are received one by one. */
  lemma {:induction false} SomeReceived(l: Config, r: Config, m: nat, n: nat, left: bool, me: End, peer: End, k: nat)
    returns (peer': End)
    requires l.ring > 0 && r.ring > 0 && Gets(l, r, m, n, Pair(left, me, peer)) && Sane(me) && Sane(peer)
    requires AllData(me.port.posted) && me.taken + k <= |me.port.posted|
    requires peer.pending + k < Credits.ReturnThreshold(me.port.window)
    ensures Gets(l, r, m, n, Pair(left, me.(taken := me.taken + k), peer')) && peer' == peer.(pending := peer.pending + k)
    decreases k
  {
    hide Gets, Credits.ReturnThreshold;
    if k == 0 {
      peer' := peer;
    } else {
      var b := OneReceived(l, r, m, n, left, me, peer);
      peer' := SomeReceived(l, r, m, n, left, me.(taken := me.taken + 1), b, k - 1);
    }
  }

  /** A whole batch is received, and its credits wait in the control queue. */
  lemma BatchReceived(l: Config, r: Config, m: nat, n: nat, left: bool, me: End, peer: End, t: nat) returns (peer': End)
    requires l.ring > 0 && r.ring > 0 && Gets(l, r, m, n, Pair(left, me, peer)) && Sane(me) && Sane(peer)
    requires AllData(me.port.posted) && me.taken + t <= |me.port.posted| && 0 < t == Credits.ReturnThreshold(me.port.window)
    requires peer.pending == 0 && peer.holding == []
    ensures Gets(l, r, m, n, Pair(left, me.(taken := me.taken + t), peer'))
    ensures peer' == peer.(port := peer.port.(control := peer.port.control + [Control(t)]))
  {
    hide Gets, Credits.ReturnThreshold;
    var b := SomeReceived(l, r, m, n, left, me, peer, t - 1);
    var me1, me' := me.(taken := me.taken + (t - 1)), me.(taken := me.taken + t);
    var b' := OneReceived(l, r, m, n, left, me1, b);
    assert b'.holding == [t] by { assert [] + [t] == [t]; }
    assert Credits.Drop([t], 0) == [];
    assert Pair(left, me', b') == Pair(!left, b', me');
    Extend(l, r, m, n, !left, b', me', QueueCredits(0));
    peer' := Apply(b', me', QueueCredits(0)).0;
  }

  lemma {:induction false} AllReceived(l: Config, r: Config, m: nat, n: nat, left: bool, me: End, peer: End, t: nat, k: nat)
    returns (peer': End)
    requires l.ring > 0 && r.ring > 0 && Gets(l, r, m, n, Pair(left, me, peer)) && Sane(me) && Sane(peer)
    requires AllData(me.port.posted) && 0 < t == Credits.ReturnThreshold(me.port.window)
    requires |me.port.posted| == me.taken + t * k && peer.pending == 0 && peer.holding == []
    ensures Gets(l, r, m, n, Pair(left, me.(taken := |me.port.posted|), peer'))
    ensures peer' == peer.(port := peer.port.(control := peer'.port.control))
    ensures |peer'.port.control| == |peer.port.control| + k
    decreases k
  {
    hide Gets, Credits.ReturnThreshold;
    if k == 0 {
      peer' := peer;
    } else {
      assert t * k == t * (k - 1) + t;
      var b := BatchReceived(l, r, m, n, left, me, peer, t);
      peer' := AllReceived(l, r, m, n, left, me.(taken := me.taken + t), b, t, k - 1);
    }
  }

  lemma WholeBatches(c: Config) returns (t: nat, k: nat)
    requires c.Usable() && Credits.Withstands(c.Window(), 0)
    ensures 0 < t == Credits.ReturnThreshold(c.Window()) <= c.Window() && c.Window() == t * k
  {
    Credits.WindowSizes(c.ring);
    hide Credits.Window;
    t := Credits.ReturnThreshold(c.Window());
    k := c.Window() / t;
  }

  lemma BothHeldUp(a: End, b: End, l: Config, r: Config)
    requires a.port.(control := []) == Port(l.Window(), 0, RawStream.PagePackets(Pages(1), 0), l, STREAMING, a.port.posted)
    requires b.port.(control := []) == Port(r.Window(), 0, RawStream.PagePackets(Pages(1), 0), r, STREAMING, b.port.posted)
    requires a.taken == |a.port.posted| && b.taken == |b.port.posted| && a.holding == [] && b.holding == []
    requires l.Window() > 0 && r.Window() > 0
    ensures Stuck(Duplex(a, b))
  {
    hide Credits.Window;
    assert RawStream.PagePackets(Pages(1), 0)[0] == Page([0], 0, 0, true);
  }

  /**
   * Each end posts framed packets until one batch of credits is left and spends that on the head of a stream one frame
   * too long for it. Only then are the frames received, and every credit waits behind a stream.
   */
  lemma LongStreamsBlock(l: Config, r: Config, m: nat, n: nat) returns (d: Duplex)
    requires l.Usable() && r.Usable() && Credits.Withstands(l.Window(), 0) && Credits.Withstands(r.Window(), 0)
    requires Credits.ReturnThreshold(l.Window()) < m && Credits.ReturnThreshold(r.Window()) < n
    ensures Gets(l, r, m, n, d) && Stuck(d)
  {
    hide Gets, Credits.Window, Credits.Withstands, Credits.ReturnThreshold, Stuck;
    var t, j := WholeBatches(l);
    var u, k := WholeBatches(r);
    Begin(l, r, m, n);
    var a := WindowUsedUp(l, r, m, n, true, Opened(l), Opened(r), l, t);
    assert Pair(true, a, Opened(r)) == Pair(false, Opened(r), a);
    var b := WindowUsedUp(l, r, m, n, false, Opened(r), a, r, u);
    assert Pair(false, b, a) == Pair(true, a, b);
    var b1 := AllReceived(l, r, m, n, true, a, b, t, j);
    var a1 := a.(taken := |a.port.posted|);
    assert Pair(true, a1, b1) == Pair(false, b1, a1);
    var a2 := AllReceived(l, r, m, n, false, b1, a1, u, k);
    var b2 := b1.(taken := |b1.port.posted|);
    d := Pair(false, b2, a2);
    BothHeldUp(a2, b2, l, r);
  }

  /**
   * No run with streams of at most `m` frames by the left end and `n` by the right, and with no more lost batches than
   * the windows withstand, ends with the two schedulers blocking each other.
   */
  ghost predicate NeverStuck(l: Config, r: Config, m: nat, n: nat) {
    forall events ::
      && RunOf(Open(l, r), events).Some? && StreamsWithin(events, true, m) && StreamsWithin(events, false, n)
      && Credits.Withstands(l.Window(), Losses(events, false)) && Credits.Withstands(r.Window(), Losses(events, true))
      ==> !Stuck(RunOf(Open(l, r), events).value)
  }

  /**
   * Between rings whose windows never stall framed traffic, the schedulers can block each other exactly when both ends
   * may send streams of more frames, header included, than one return batch has credits. Framed traffic is the case
   * m <= 1 or n <= 1.
   */
  lemma NoDeadlockExactly(l: Config, r: Config, m: nat, n: nat)
    requires l.Usable() && r.Usable() && Credits.Withstands(l.Window(), 0) && Credits.Withstands(r.Window(), 0)
    ensures NeverStuck(l, r, m, n) <==> m <= Credits.ReturnThreshold(l.Window()) || n <= Credits.ReturnThreshold(r.Window())
  {
    hide RunOf, Credits.Window, Credits.Withstands, Credits.ReturnThreshold, Stuck, StreamsWithin;
    if m <= Credits.ReturnThreshold(l.Window()) || n <= Credits.ReturnThreshold(r.Window()) {
      forall events | && RunOf(Open(l, r), events).Some? && StreamsWithin(events, true, m) && StreamsWithin(events, false, n)
                      && Credits.Withstands(l.Window(), Losses(events, false)) && Credits.Withstands(r.Window(), Losses(events, true))
        ensures !Stuck(RunOf(Open(l, r), events).value)
      {
        if m <= Credits.ReturnThreshold(l.Window()) {
          ShortStreamsNeverStuck(l, r, events, true, m);
        } else {
          ShortStreamsNeverStuck(l, r, events, false, n);
        }
      }
    } else {
      var d := LongStreamsBlock(l, r, m, n);
    }
  }
}
