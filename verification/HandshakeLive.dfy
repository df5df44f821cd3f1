/**
 * What the handshake of `Handshake` leads to: from every state it can reach, whatever was lost or given up before, both
 * rails can still become ready and published; and a node counts a READY as sent, or as received, only when one was.
 */
module HandshakeLive {
  import opened Basics
  import opened Handshake

  // ----- every READY counts -----

  /** The rail with some of its flags raised; it is published when that leaves it with all of the last three. */
  predicate Raised(before: Rail, after: Rail, readySent: bool, remoteReady: bool) {
    && after.negotiated == before.negotiated && after.tunnel == before.tunnel
    && after.readySent == (before.readySent || readySent) && after.remoteReady == (before.remoteReady || remoteReady)
    && after.published == (before.published || (after.tunnel && after.readySent && after.remoteReady))
  }

  lemma FlagsRaised(r: Rail)
    ensures Raised(r, MarkRemoteReady(r), false, true) && Raised(r, MarkLocalReadySent(r), true, false)
  {
  }

  /**
   * A handled READY: the other's READY counts at once; it is answered only when the tunnel was up, and only an answer that
   * was sent counts as the node's own READY.
   */
  ghost predicate Heeded(x: Node, y: Node, h: Handler, replied: bool) {
    && y.worker == x.worker
    && match h
       case SawNoTunnel => Raised(x.rail, y.rail, false, true) && y.handlers == x.handlers - multiset{h}
       case SawTunnel => Raised(x.rail, y.rail, false, true) && y.handlers == x.handlers - multiset{h} + multiset{Replying}
       case Replying =>
         y.rail == x.rail && y.handlers == x.handlers - multiset{h} + (if replied then multiset{Replied} else multiset{})
       case Replied => Raised(x.rail, y.rail, true, false) && y.handlers == x.handlers - multiset{h}
  }

  lemma HandlerHeeds(x: Node, h: Handler, replied: bool)
    requires h in x.handlers
    ensures Heeded(x, HandlerNext(x, h, replied), h, replied)
  {
    hide Raised, MarkRemoteReady, MarkLocalReadySent;
    FlagsRaised(x.rail);
  }

  lemma ReadyIsHeeded(s: Sys, n: bool, h: Handler, replied: bool)
    requires Enabled(s, n, HandlerStep(h, replied))
    ensures var t := Next(s, n, HandlerStep(h, replied));
            && Heeded(s.At(n), t.At(n), h, replied) && t.At(!n) == s.At(!n)
            && t.net == s.net + if h == Replying && replied then {Packet(ReadyAck, n)} else {}
  {
    hide Heeded, HandlerNext;
    HandlerHeeds(s.At(n), h, replied);
  }

  // ----- nothing is ever lost for good -----

  /** Node `n` has moved on to `t`; the other node stands where it stood. */
  ghost predicate Moved(s: Sys, t: Sys, n: bool) {
    t.At(!n) == s.At(!n) && Grows(s.At(n).rail, t.At(n).rail) && s.net <= t.net
  }

  lemma Go(events: seq<Event>, s: Sys, n: bool, e: Step) returns (more: seq<Event>, t: Sys)
    requires RunOf(events) == Some(s) && Enabled(s, n, e)
    ensures RunOf(more) == Some(t) && t == Next(s, n, e) && events <= more && Moved(s, t, n)
  {
    hide Next, Enabled, NodeOk, NetOk;
    RunInv(events);
    more, t := Extend(events, s, n, e);
    StepOk(s, n, e);
    SendsOnly(s, n, e);
    more := events + [Event(n, e)];
    assert more[..|events|] == events;
  }

  lemma SendsOnly(s: Sys, n: bool, e: Step)
    requires Enabled(s, n, e)
    ensures s.net <= Next(s, n, e).net
  {
  }

  /** The step with which a worker leaves its place without waiting for anyone. */
  function StepOut(w: Worker): Step {
    match w
    case Resting => WorkBegin
    case AwaitHelloAck => WorkGiveUp
    case AtTunnel => WorkTunnel(false)
    case TunnelUp => WorkCheckTunnel
    case AtReady => WorkReady
    case AwaitReadyAck => WorkGiveUp
    case Exchanged => WorkSetSent
    case ReadySet => WorkCheckSent
  }

  function StepsToRest(w: Worker): nat {
    match w
    case Resting => 0
    case AwaitHelloAck => 1
    case ReadySet => 1
    case Exchanged => 2
    case AwaitReadyAck => 3
    case AtReady => 4
    case TunnelUp => 5
    case AtTunnel => 5
  }

  lemma OneStepOut(s: Sys, n: bool)
    requires s.At(n).worker != Resting
    ensures Enabled(s, n, StepOut(s.At(n).worker))
    ensures StepsToRest(Next(s, n, StepOut(s.At(n).worker)).At(n).worker) < StepsToRest(s.At(n).worker)
  {
  }

  /** A worker can always come to rest. */
  lemma {:induction false} ComesToRest(events: seq<Event>, s: Sys, n: bool) returns (more: seq<Event>, t: Sys)
    requires RunOf(events) == Some(s)
    ensures RunOf(more) == Some(t) && events <= more && Moved(s, t, n) && t.At(n).worker == Resting
    decreases StepsToRest(s.At(n).worker)
  {
    hide RunOf, Next, Enabled;
    if s.At(n).worker == Resting {
      more, t := events, s;
    } else {
      OneStepOut(s, n);
      more, t := Go(events, s, n, StepOut(s.At(n).worker));
      more, t := ComesToRest(more, t, n);
    }
  }

  /** Rails have only gained flags, and the worker of the other node has not moved. */
  ghost predicate Gained(s: Sys, t: Sys, n: bool) {
    && Grows(s.a.rail, t.a.rail) && Grows(s.b.rail, t.b.rail) && s.net <= t.net && t.At(!n).worker == s.At(!n).worker
  }

  lemma Negotiates(events: seq<Event>, s: Sys, n: bool) returns (more: seq<Event>, t: Sys)
    requires RunOf(events) == Some(s) && s.At(n).worker == Resting
    ensures RunOf(more) == Some(t) && events <= more && Gained(s, t, n)
    ensures t.At(n).worker == AtTunnel && t.At(n).rail.negotiated
  {
    hide RunOf;
    more, t := Go(events, s, n, WorkBegin);
    if !s.At(n).rail.negotiated {
      more, t := Go(more, t, !n, GetHello(true));
      more, t := Go(more, t, n, WorkHelloAck);
    }
  }

  /** A resting node can bring its tunnel up, and rest again. */
  lemma RaisesTunnel(events: seq<Event>, s: Sys, n: bool) returns (more: seq<Event>, t: Sys)
    requires RunOf(events) == Some(s) && s.At(n).worker == Resting
    ensures RunOf(more) == Some(t) && events <= more && Gained(s, t, n)
    ensures t.At(n).worker == Resting && t.At(n).rail.tunnel
  {
    hide RunOf;
    more, t := Negotiates(events, s, n);
    if !t.At(n).rail.tunnel { more, t := Go(more, t, n, WorkTunnel(true)); }
    hide Next, Enabled;
    more, t := ComesToRest(more, t, n);
  }

  /** With its tunnel up a node that has not yet sent READY does so. */
  lemma AsksReady(events: seq<Event>, s: Sys, n: bool) returns (more: seq<Event>, t: Sys)
    requires RunOf(events) == Some(s) && s.At(n).worker == Resting && s.At(n).rail.tunnel && !s.At(n).rail.readySent
    ensures RunOf(more) == Some(t) && events <= more && t.At(!n) == s.At(!n) && t.At(n).rail == s.At(n).rail
    ensures t.At(n).worker == AwaitReadyAck && Packet(Ready, n) in t.net
  {
    RunInv(events);
    hide RunOf;
    more, t := Go(events, s, n, WorkBegin);
    more, t := Go(more, t, n, WorkTunnel(false));
    more, t := Go(more, t, n, WorkReady);
  }

  /** A READY that comes in while the tunnel is up counts, and is about to be answered. */
  lemma TakesReady(events: seq<Event>, s: Sys, n: bool) returns (more: seq<Event>, t: Sys)
    requires RunOf(events) == Some(s) && s.At(n).rail.tunnel && Packet(Ready, !n) in s.net
    ensures RunOf(more) == Some(t) && events <= more && t.At(!n) == s.At(!n)
    ensures t.At(n).rail.tunnel && t.At(n).rail.remoteReady && Replying in t.At(n).handlers
  {
    hide RunOf;
    more, t := Go(events, s, n, GetReady);
    ReadyIsHeeded(t, n, SawTunnel, false);
    more, t := Go(more, t, n, HandlerStep(SawTunnel, false));
  }

  /** The answer is sent and counts as the node's own READY. */
  lemma SendsAnswer(events: seq<Event>, s: Sys, n: bool) returns (more: seq<Event>, t: Sys)
    requires RunOf(events) == Some(s) && s.At(n).rail.tunnel && s.At(n).rail.remoteReady && Replying in s.At(n).handlers
    ensures RunOf(more) == Some(t) && events <= more && t.At(!n) == s.At(!n)
    ensures t.At(n).rail.published && Packet(ReadyAck, n) in t.net
  {
    hide RunOf, Next;
    ReadyIsHeeded(s, n, Replying, true);
    more, t := Go(events, s, n, HandlerStep(Replying, true));
    ReadyIsHeeded(t, n, Replied, false);
    more, t := Go(more, t, n, HandlerStep(Replied, false));
  }

  lemma TakesAnswer(events: seq<Event>, s: Sys, n: bool) returns (more: seq<Event>, t: Sys)
    requires RunOf(events) == Some(s) && s.At(n).rail.tunnel && s.At(n).worker == AwaitReadyAck && Packet(ReadyAck, !n) in s.net
    ensures RunOf(more) == Some(t) && events <= more && t.At(!n) == s.At(!n) && t.At(n).rail.published
  {
    hide RunOf;
    more, t := Go(events, s, n, WorkReadyAck);
    more, t := Go(more, t, n, WorkSetSent);
    more, t := Go(more, t, n, WorkCheckSent);
  }

  /** With both tunnels up one READY exchange makes both rails ready and published. */
  lemma ExchangesReady(events: seq<Event>, s: Sys, n: bool) returns (more: seq<Event>, t: Sys)
    requires RunOf(events) == Some(s) && s.At(n).worker == Resting && s.a.rail.tunnel && s.b.rail.tunnel && !s.At(n).rail.readySent
    ensures RunOf(more) == Some(t) && events <= more && t.a.rail.published && t.b.rail.published
  {
    hide RunOf, Next, Enabled;
    more, t := AsksReady(events, s, n);
    more, t := TakesReady(more, t, !n);
    more, t := SendsAnswer(more, t, !n);
    more, t := TakesAnswer(more, t, n);
  }

  /**
   * Whatever has happened, packets lost, exchanges given up, handlers stuck between two lock regions: the run can go on
   * to a state in which both rails are data-ready and published.
   */
  lemma AlwaysCanGetReady(events: seq<Event>) returns (more: seq<Event>)
    requires RunOf(events).Some?
    ensures events <= more && RunOf(more).Some?
    ensures var t := RunOf(more).value;
            t.a.rail == Rail(true, true, true, true, true) && t.b.rail == Rail(true, true, true, true, true)
  {
    hide RunOf, Next, Enabled;
    var s := RunOf(events).value;
    var t;
    more, t := ComesToRest(events, s, true);
    more, t := ComesToRest(more, t, false);
    more, t := RaisesTunnel(more, t, true);
    more, t := RaisesTunnel(more, t, false);
    RunInv(more);
    if !t.a.rail.readySent {
      more, t := ExchangesReady(more, t, true);
    } else if !t.b.rail.readySent {
      more, t := ExchangesReady(more, t, false);
    }
    RunInv(more);
    AllFlags(t);
  }

  lemma AllFlags(t: Sys)
    requires Inv(t) && t.a.rail.published && t.b.rail.published
    ensures t.a.rail == Rail(true, true, true, true, true) && t.b.rail == Rail(true, true, true, true, true)
  {
  }

  // ----- a READY that counts was sent -----

  /** The node has told the other that it is ready, by itself or in answer. */
  predicate Said(net: set<Packet>, n: bool) { Packet(Ready, n) in net || Packet(ReadyAck, n) in net }

  /** What node `n` and its threads take for said was said. */
  ghost predicate Truthful(x: Node, n: bool, net: set<Packet>) {
    && (x.rail.readySent ==> Said(net, n))
    && (x.rail.remoteReady ==> Said(net, !n))
    && (x.worker == AwaitReadyAck || x.worker == Exchanged || x.worker == ReadySet ==> Packet(Ready, n) in net)
    && (x.handlers[Replied] > 0 ==> Packet(ReadyAck, n) in net)
    && (x.handlers[SawTunnel] > 0 || x.handlers[SawNoTunnel] > 0 ==> Packet(Ready, !n) in net)
  }

  lemma StepTruthful(s: Sys, n: bool, e: Step)
    requires Enabled(s, n, e) && Truthful(s.At(n), n, s.net)
    ensures Truthful(Next(s, n, e).At(n), n, Next(s, n, e).net)
  {
    if e.HandlerStep? {
      HandlerTruthful(s, n, e.h, e.replied);
    } else {
      ThreadTruthful(s, n, e);
    }
    hide Next, Enabled, Truthful;
  }

  /** Only an answer that was sent adds a handler about to count the node's own READY. */
  lemma HandlersLeft(x: Node, y: Node, h: Handler, replied: bool)
    requires h in x.handlers && Heeded(x, y, h, replied)
    ensures y.handlers[Replied] <= x.handlers[Replied] + if h == Replying && replied then 1 else 0
    ensures y.handlers[SawTunnel] <= x.handlers[SawTunnel] && y.handlers[SawNoTunnel] <= x.handlers[SawNoTunnel]
  {
    hide Raised;
  }

  lemma HandlerTruthful(s: Sys, n: bool, h: Handler, replied: bool)
    requires Enabled(s, n, HandlerStep(h, replied)) && Truthful(s.At(n), n, s.net)
    ensures var t := Next(s, n, HandlerStep(h, replied)); Truthful(t.At(n), n, t.net)
  {
    hide Next;
    var x, y := s.At(n), Next(s, n, HandlerStep(h, replied)).At(n);
    assert x.handlers[h] > 0;
    ReadyIsHeeded(s, n, h, replied);
    HandlersLeft(x, y, h, replied);
    assert y.worker == x.worker && y.rail.readySent == (x.rail.readySent || h == Replied)
           && y.rail.remoteReady == (x.rail.remoteReady || h == SawTunnel || h == SawNoTunnel);
    hide Heeded;
  }

  lemma ThreadTruthful(s: Sys, n: bool, e: Step)
    requires Enabled(s, n, e) && Truthful(s.At(n), n, s.net) && !e.HandlerStep?
    ensures Truthful(Next(s, n, e).At(n), n, Next(s, n, e).net)
  {
    hide HandlerNext;
  }

  lemma StillTruthful(x: Node, n: bool, net: set<Packet>, net': set<Packet>)
    requires Truthful(x, n, net) && net <= net'
    ensures Truthful(x, n, net')
  {
  }

  lemma {:induction false} RunTruthful(events: seq<Event>)
    requires RunOf(events).Some?
    ensures var s := RunOf(events).value; Truthful(s.a, true, s.net) && Truthful(s.b, false, s.net)
  {
    hide Next, Enabled, Truthful;
    if events == [] {
      InitialTruthful();
    } else {
      var init, e := events[..|events| - 1], events[|events| - 1];
      RunTruthful(init);
      RunInv(init);
      var s := RunOf(init).value;
      StepTruthful(s, e.node, e.step);
      StepOk(s, e.node, e.step);
      SendsOnly(s, e.node, e.step);
      StillTruthful(s.At(!e.node), !e.node, s.net, Next(s, e.node, e.step).net);
    }
  }

  lemma InitialTruthful()
    ensures Truthful(INITIAL.a, true, INITIAL.net) && Truthful(INITIAL.b, false, INITIAL.net)
  {
  }

  /** Over any run a node that counts its own READY as sent has sent it, and one that counts the other's as in was sent it. */
  lemma ReadyMeansSaid(events: seq<Event>, n: bool)
    requires RunOf(events).Some?
    ensures var s := RunOf(events).value;
            && (s.At(n).rail.readySent ==> Packet(Ready, n) in s.net || Packet(ReadyAck, n) in s.net)
            && (s.At(n).rail.remoteReady ==> Packet(Ready, !n) in s.net || Packet(ReadyAck, !n) in s.net)
  {
    hide RunOf;
    RunTruthful(events);
  }

  // ----- what a worker does about READY -----

  /** A HELLO and a late HELLO_ACK negotiate the rail, and only a HELLO is answered. */
  lemma HelloIsHeeded(s: Sys, n: bool, e: Step)
    requires Enabled(s, n, e) && (e.GetHello? || e.GetHelloAck?)
    ensures var t, x := Next(s, n, e), s.At(n);
            && t.At(n) == Node(Rail(true, x.rail.tunnel, x.rail.readySent, x.rail.remoteReady, x.rail.published), x.worker, x.handlers)
            && t.At(!n) == s.At(!n) && t.net == s.net + if e == GetHello(true) then {Packet(HelloAck, n)} else {}
  {
  }

  /** A worker sends READY exactly when its tunnel is up and its READY does not count yet. */
  lemma AsksOnlyWhenNeeded(s: Sys, n: bool)
    requires Enabled(s, n, WorkReady)
    ensures var t, r := Next(s, n, WorkReady), s.At(n).rail;
            if r.tunnel && !r.readySent then t.At(n).worker == AwaitReadyAck && t.net == s.net + {Packet(Ready, n)}
            else t.At(n).worker == Resting && t.net == s.net
  {
  }

  /** Both of the worker's checks, after the tunnel and after its READY, publish the rail when all three edges are in. */
  lemma ChecksPublish(s: Sys, n: bool)
    ensures s.At(n).worker == TunnelUp ==> Raised(s.At(n).rail, Next(s, n, WorkCheckTunnel).At(n).rail, false, false)
    ensures s.At(n).worker == ReadySet ==> Raised(s.At(n).rail, Next(s, n, WorkCheckSent).At(n).rail, false, false)
  {
  }

  /** An exchange given up on counts all the same when the rail became ready meanwhile. */
  lemma GivenUpButReady(s: Sys, n: bool)
    requires Enabled(s, n, WorkGiveUp)
    ensures var t, x := Next(s, n, WorkGiveUp), s.At(n);
            && t.At(n).rail == x.rail && t.net == s.net
            && (t.At(n).worker == Exchanged <==> x.worker == AwaitReadyAck && x.rail.tunnel && x.rail.readySent && x.rail.remoteReady)
            && (t.At(n).worker == Exchanged || t.At(n).worker == Resting)
  {
  }
}
