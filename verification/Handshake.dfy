/**
 * The HELLO/READY handshake of one native rail between two nodes (kernel/native_control.c): each node runs one
 * worker and any number of packet handlers, interleaved at their lock regions, over a control channel that
 * loses, duplicates and delays packets. Teardown is excluded.
 */
module Handshake {
  import opened Basics

  // ----- one rail -----

  /** The flags of a rail that the handshake reads and writes; `published` once a publish event was issued. */
  datatype Rail = Rail(negotiated: bool, tunnel: bool, readySent: bool, remoteReady: bool, published: bool)
  {
    /** tbv_rail_data_ready for a native rail. */
    predicate DataReady() { tunnel && readySent && remoteReady }
  }

  const NEW_RAIL := Rail(false, false, false, false, false)

  /** The lock region "publish if data-ready". */
  function Check(r: Rail): Rail { if r.DataReady() then r.(published := true) else r }

  /** tbv_native_control_apply_remote */
  function ApplyRemote(r: Rail): Rail { r.(negotiated := true) }

  /** tbv_native_control_mark_remote_ready */
  function MarkRemoteReady(r: Rail): Rail { Check(r.(remoteReady := true)) }

  /** tbv_native_control_mark_local_ready_sent */
  function MarkLocalReadySent(r: Rail): Rail { Check(r.(readySent := true)) }

  // ----- nodes and their threads -----

  datatype Op = Hello | HelloAck | Ready | ReadyAck

  /** A control packet; `from` names the node that sent it. */
  datatype Packet = Packet(op: Op, from: bool)

  /** Where the worker stands between two of its lock regions. */
  datatype Worker =
    | Resting
    | AwaitHelloAck
    | AtTunnel
    /** The tunnel is up, the check that follows is still to come. */
    | TunnelUp
    | AtReady
    | AwaitReadyAck
    /** The READY exchange counts as done; ready_sent is set next, without the lock. */
    | Exchanged
    /** ready_sent is set, the check that follows is still to come. */
    | ReadySet

  /** Where a handler of a READY packet stands. */
  datatype Handler = SawNoTunnel | SawTunnel | Replying | Replied

  datatype Node = Node(rail: Rail, worker: Worker, handlers: multiset<Handler>)

  /** `net` only grows: a packet in it may arrive any number of times, or never. */
  datatype Sys = Sys(a: Node, b: Node, net: set<Packet>)
  {
    function At(n: bool): Node { if n then a else b }
    function Put(n: bool, x: Node): Sys { if n then this.(a := x) else this.(b := x) }
    function Send(p: Packet): Sys { this.(net := net + {p}) }
  }

  datatype Step =
    // packets other than READY are handled in one lock region
    | GetHello(replied: bool)
    | GetHelloAck
    | GetReady
    | HandlerStep(h: Handler, replied: bool)
    | WorkBegin
    | WorkHelloAck
    | WorkTunnel(up: bool)
    | WorkCheckTunnel
    | WorkReady
    | WorkReadyAck
    | WorkGiveUp
    | WorkSetSent
    | WorkCheckSent

  /** A step `e` of node `n` can happen now. */
  predicate Enabled(s: Sys, n: bool, e: Step) {
    var x := s.At(n);
    match e
    case GetHello(_) => Packet(Hello, !n) in s.net
    case GetHelloAck => Packet(HelloAck, !n) in s.net
    case GetReady => Packet(Ready, !n) in s.net
    case HandlerStep(h, _) => h in x.handlers
    case WorkBegin => x.worker == Resting
    case WorkHelloAck => x.worker == AwaitHelloAck && Packet(HelloAck, !n) in s.net
    case WorkTunnel(up) => x.worker == AtTunnel && (up ==> !x.rail.tunnel && x.rail.negotiated)
    case WorkCheckTunnel => x.worker == TunnelUp
    case WorkReady => x.worker == AtReady
    case WorkReadyAck => x.worker == AwaitReadyAck && Packet(ReadyAck, !n) in s.net
    case WorkGiveUp => x.worker == AwaitHelloAck || x.worker == AwaitReadyAck
    case WorkSetSent => x.worker == Exchanged
    case WorkCheckSent => x.worker == ReadySet
  }

  function HandlerNext(x: Node, h: Handler, replied: bool): Node
    requires h in x.handlers
  {
    var rest := x.handlers - multiset{h};
    match h
    case SawNoTunnel => x.(rail := MarkRemoteReady(x.rail), handlers := rest)
    case SawTunnel => x.(rail := MarkRemoteReady(x.rail), handlers := rest + multiset{Replying})
    case Replying => x.(handlers := if replied then rest + multiset{Replied} else rest)
    case Replied => x.(rail := MarkLocalReadySent(x.rail), handlers := rest)
  }

  function Next(s: Sys, n: bool, e: Step): Sys
    requires Enabled(s, n, e)
  {
    var x := s.At(n);
    match e
    case GetHello(replied) =>
      var t := s.Put(n, x.(rail := ApplyRemote(x.rail)));
      if replied then t.Send(Packet(HelloAck, n)) else t
    case GetHelloAck => s.Put(n, x.(rail := ApplyRemote(x.rail)))
    case GetReady => s.Put(n, x.(handlers := x.handlers + multiset{if x.rail.tunnel then SawTunnel else SawNoTunnel}))
    case HandlerStep(h, replied) =>
      var t := s.Put(n, HandlerNext(x, h, replied));
      if h == Replying && replied then t.Send(Packet(ReadyAck, n)) else t
    case WorkBegin =>
      if x.rail.negotiated then s.Put(n, x.(worker := AtTunnel))
      else s.Put(n, x.(worker := AwaitHelloAck)).Send(Packet(Hello, n))
    case WorkHelloAck => s.Put(n, x.(rail := ApplyRemote(x.rail), worker := AtTunnel))
    case WorkTunnel(up) =>
      s.Put(n, if up then x.(rail := x.rail.(tunnel := true), worker := TunnelUp)
               else x.(worker := if x.rail.tunnel then AtReady else Resting))
    case WorkCheckTunnel => s.Put(n, x.(rail := Check(x.rail), worker := AtReady))
    case WorkReady =>
      if x.rail.tunnel && !x.rail.readySent then s.Put(n, x.(worker := AwaitReadyAck)).Send(Packet(Ready, n))
      else s.Put(n, x.(worker := Resting))
    case WorkReadyAck => s.Put(n, x.(rail := MarkRemoteReady(x.rail), worker := Exchanged))
    case WorkGiveUp =>
      s.Put(n, x.(worker := if x.worker == AwaitReadyAck && x.rail.DataReady() then Exchanged else Resting))
    case WorkSetSent => s.Put(n, x.(rail := x.rail.(readySent := true), worker := ReadySet))
    case WorkCheckSent => s.Put(n, x.(rail := Check(x.rail), worker := Resting))
  }

  datatype Event = Event(node: bool, step: Step)

  const INITIAL := Sys(Node(NEW_RAIL, Resting, multiset{}), Node(NEW_RAIL, Resting, multiset{}), {})

  function RunOf(events: seq<Event>): Option<Sys> {
    if events == [] then Some(INITIAL)
    else
      var prev := RunOf(events[..|events| - 1]);
      var e := events[|events| - 1];
      if prev.Some? && Enabled(prev.value, e.node, e.step) then Some(Next(prev.value, e.node, e.step)) else None
  }

  // ----- the invariant -----

  /** What the threads of a node may still do has already been earned. */
  ghost predicate NodeOk(x: Node, other: Rail) {
    var r := x.rail;
    && (r.tunnel ==> r.negotiated)
    && (r.remoteReady ==> other.tunnel)
    && (r.readySent ==> r.tunnel && r.remoteReady)
    && (x.worker == TunnelUp || x.worker == AwaitReadyAck ==> r.tunnel)
    && (x.worker == Exchanged || x.worker == ReadySet ==> r.tunnel && r.remoteReady)
    && (x.worker == ReadySet ==> r.readySent)
    && (x.handlers[SawTunnel] > 0 ==> r.tunnel && other.tunnel)
    && (x.handlers[SawNoTunnel] > 0 ==> other.tunnel)
    && (x.handlers[Replying] > 0 || x.handlers[Replied] > 0 ==> r.tunnel && r.remoteReady)
    && (r.DataReady() ==> r.published || x.worker == ReadySet)
    && (r.published ==> r.DataReady())
  }

  ghost predicate NetOk(net: set<Packet>, n: bool, x: Node) {
    && (Packet(Ready, n) in net ==> x.rail.tunnel)
    && (Packet(ReadyAck, n) in net ==> x.rail.tunnel && x.rail.remoteReady)
  }

  ghost predicate Inv(s: Sys) {
    && NodeOk(s.a, s.b.rail) && NodeOk(s.b, s.a.rail)
    && NetOk(s.net, true, s.a) && NetOk(s.net, false, s.b)
  }

  /** Flags are only ever raised. */
  predicate Grows(before: Rail, after: Rail) {
    && (before.negotiated ==> after.negotiated) && (before.tunnel ==> after.tunnel)
    && (before.readySent ==> after.readySent) && (before.remoteReady ==> after.remoteReady)
    && (before.published ==> after.published)
  }

  lemma HandlerOk(x: Node, h: Handler, replied: bool, other: Rail)
    requires NodeOk(x, other) && h in x.handlers
    ensures NodeOk(HandlerNext(x, h, replied), other) && Grows(x.rail, HandlerNext(x, h, replied).rail)
    ensures h == Replying ==> x.rail.tunnel && x.rail.remoteReady
  {
    assert x.handlers[h] > 0;
  }

  /** Another node's progress never takes anything away. */
  lemma OtherGrows(x: Node, before: Rail, after: Rail)
    requires NodeOk(x, before) && Grows(before, after)
    ensures NodeOk(x, after)
  {
  }

  lemma StepOk(s: Sys, n: bool, e: Step)
    requires Inv(s) && Enabled(s, n, e)
    ensures var t := Next(s, n, e);
            && NodeOk(t.At(n), s.At(!n).rail) && Grows(s.At(n).rail, t.At(n).rail) && t.At(!n) == s.At(!n)
            && NetOk(t.net, n, t.At(n)) && (forall p | p in t.net && p.from == !n :: p in s.net)
  {
    if e.HandlerStep? {
      HandlerStepOk(s, n, e);
    } else {
      ThreadStepOk(s, n, e);
    }
    hide Inv, Next, Enabled, NodeOk, NetOk, Grows;
  }

  lemma HandlerStepOk(s: Sys, n: bool, e: Step)
    requires Inv(s) && Enabled(s, n, e) && e.HandlerStep?
    ensures var t := Next(s, n, e);
            && NodeOk(t.At(n), s.At(!n).rail) && Grows(s.At(n).rail, t.At(n).rail) && t.At(!n) == s.At(!n)
            && NetOk(t.net, n, t.At(n)) && (forall p | p in t.net && p.from == !n :: p in s.net)
  {
    hide NodeOk, HandlerNext;
    HandlerOk(s.At(n), e.h, e.replied, s.At(!n).rail);
  }

  lemma ThreadStepOk(s: Sys, n: bool, e: Step)
    requires Inv(s) && Enabled(s, n, e) && !e.HandlerStep?
    ensures var t := Next(s, n, e);
            && NodeOk(t.At(n), s.At(!n).rail) && Grows(s.At(n).rail, t.At(n).rail) && t.At(!n) == s.At(!n)
            && NetOk(t.net, n, t.At(n)) && (forall p | p in t.net && p.from == !n :: p in s.net)
  {
    hide Inv, Next, NodeOk, NetOk, Grows;
    if e.GetHello? || e.GetHelloAck? || e.GetReady? {
      ArrivalOk(s, n, e);
    } else {
      WorkerStepOk(s, n, e);
    }
  }

  lemma ArrivalOk(s: Sys, n: bool, e: Step)
    requires Inv(s) && Enabled(s, n, e) && (e.GetHello? || e.GetHelloAck? || e.GetReady?)
    ensures var t := Next(s, n, e);
            && NodeOk(t.At(n), s.At(!n).rail) && Grows(s.At(n).rail, t.At(n).rail) && t.At(!n) == s.At(!n)
            && NetOk(t.net, n, t.At(n)) && (forall p | p in t.net && p.from == !n :: p in s.net)
  {
  }

  lemma WorkerStepOk(s: Sys, n: bool, e: Step)
    requires Inv(s) && Enabled(s, n, e) && !e.GetHello? && !e.GetHelloAck? && !e.GetReady? && !e.HandlerStep?
    ensures var t := Next(s, n, e);
            && NodeOk(t.At(n), s.At(!n).rail) && Grows(s.At(n).rail, t.At(n).rail) && t.At(!n) == s.At(!n)
            && NetOk(t.net, n, t.At(n)) && (forall p | p in t.net && p.from == !n :: p in s.net)
  {
  }

  lemma StepInv(s: Sys, n: bool, e: Step)
    requires Inv(s) && Enabled(s, n, e)
    ensures Inv(Next(s, n, e))
  {
    hide NodeOk, Grows, Next, Enabled;
    StepOk(s, n, e);
    OtherGrows(s.At(!n), s.At(n).rail, Next(s, n, e).At(n).rail);
  }

  lemma {:induction false} RunInv(events: seq<Event>)
    requires RunOf(events).Some?
    ensures Inv(RunOf(events).value)
  {
    hide Next, Enabled;
    if events != [] {
      RunInv(events[..|events| - 1]);
      var e := events[|events| - 1];
      StepInv(RunOf(events[..|events| - 1]).value, e.node, e.step);
    }
  }

  // ----- what it guarantees -----

  /**
   * Safety: under any interleaving, loss, duplication or delay, a rail that is data-ready on one node has been
   * negotiated on both, and both tunnels are up.
   */
  lemma DataReadyMeansBothEnabled(events: seq<Event>, n: bool)
    requires RunOf(events).Some? && RunOf(events).value.At(n).rail.DataReady()
    ensures var s := RunOf(events).value;
            s.a.rail.negotiated && s.b.rail.negotiated && s.a.rail.tunnel && s.b.rail.tunnel
  {
    RunInv(events);
    hide RunOf;
  }

  /**
   * The local READY is always the last of the three readiness edges: once it is set the tunnel is up and the
   * remote READY is in. So neither the tunnel check nor a remote READY ever finds the rail newly ready.
   */
  lemma ReadySentIsTheLastEdge(events: seq<Event>, n: bool)
    requires RunOf(events).Some?
    ensures var r := RunOf(events).value.At(n).rail; r.DataReady() <==> r.readySent
  {
    RunInv(events);
    hide RunOf;
  }

  /**
   * No rail is left unpublished: a data-ready rail has been published or its worker is just about to check,
   * and a rail is published only when data-ready.
   */
  lemma ReadyRailsArePublished(events: seq<Event>, n: bool)
    requires RunOf(events).Some?
    ensures var x := RunOf(events).value.At(n);
            && (x.rail.published ==> x.rail.DataReady())
            && (x.rail.DataReady() && x.worker != ReadySet ==> x.rail.published)
            && (x.worker == ReadySet ==> Enabled(RunOf(events).value, n, WorkCheckSent)
                                         && Next(RunOf(events).value, n, WorkCheckSent).At(n).rail.published)
  {
    hide RunOf, Next, Enabled;
    RunInv(events);
    if RunOf(events).value.At(n).worker == ReadySet { PendingCheckPublishes(RunOf(events).value, n); }
  }

  lemma PendingCheckPublishes(s: Sys, n: bool)
    requires s.At(n).worker == ReadySet
    ensures Enabled(s, n, WorkCheckSent)
    ensures s.At(n).rail.DataReady() ==> Next(s, n, WorkCheckSent).At(n).rail.published
  {
  }

  /** The edge that makes a rail data-ready is a local READY: a handler's, which publishes at once, or the worker's. */
  lemma WhoCompletes(s: Sys, n: bool, e: Step)
    requires Inv(s) && Enabled(s, n, e) && !s.At(n).rail.DataReady() && Next(s, n, e).At(n).rail.DataReady()
    ensures (e.HandlerStep? && e.h == Replied && Next(s, n, e).At(n).rail.published)
            || (e == WorkSetSent && Next(s, n, e).At(n).worker == ReadySet)
  {
    if e.HandlerStep? {
      HandlerCompletes(s, n, e.h, e.replied);
    } else {
      hide HandlerNext;
    }
  }

  lemma HandlerCompletes(s: Sys, n: bool, h: Handler, replied: bool)
    requires Inv(s) && Enabled(s, n, HandlerStep(h, replied)) && !s.At(n).rail.DataReady()
    ensures var t := Next(s, n, HandlerStep(h, replied));
            t.At(n).rail.DataReady() ==> h == Replied && t.At(n).rail.published
  {
    assert s.At(n).handlers[h] > 0;
    hide NetOk;
  }

  // ----- it can succeed -----

  lemma Extend(events: seq<Event>, s: Sys, n: bool, e: Step) returns (more: seq<Event>, t: Sys)
    requires RunOf(events) == Some(s) && Enabled(s, n, e)
    ensures RunOf(more) == Some(t) && t == Next(s, n, e)
  {
    more, t := events + [Event(n, e)], Next(s, n, e);
    assert more[..|events|] == events;
  }

  /** Node a negotiates with the answering node b, brings its tunnel up and sends READY. */
  lemma FirstSideSendsReady() returns (events: seq<Event>, s: Sys)
    ensures RunOf(events) == Some(s) && Packet(Ready, true) in s.net
    ensures s.a == Node(Rail(true, true, false, false, false), AwaitReadyAck, multiset{})
    ensures s.b == Node(Rail(true, false, false, false, false), Resting, multiset{})
  {
    events := [];
    assert RunOf(events) == Some(INITIAL);
    hide RunOf;
    events, s := Extend(events, INITIAL, true, WorkBegin);
    events, s := Extend(events, s, false, GetHello(true));
    events, s := Extend(events, s, true, WorkHelloAck);
    events, s := Extend(events, s, true, WorkTunnel(true));
    events, s := Extend(events, s, true, WorkCheckTunnel);
    events, s := Extend(events, s, true, WorkReady);
  }

  /** Node b brings its tunnel up too, and takes the READY. */
  lemma SecondSideGetsReady() returns (events: seq<Event>, s: Sys)
    ensures RunOf(events) == Some(s)
    ensures s.a == Node(Rail(true, true, false, false, false), AwaitReadyAck, multiset{})
    ensures s.b == Node(Rail(true, true, false, true, false), AtReady, multiset{Replying})
  {
    hide RunOf;
    events, s := FirstSideSendsReady();
    events, s := Extend(events, s, false, WorkBegin);
    events, s := Extend(events, s, false, WorkTunnel(true));
    events, s := Extend(events, s, false, WorkCheckTunnel);
    events, s := Extend(events, s, false, GetReady);
    events, s := Extend(events, s, false, HandlerStep(SawTunnel, false));
  }

  /** One side's worker drives the exchange, the other side answers: both rails end data-ready and published. */
  lemma BothCanGetReady() returns (events: seq<Event>)
    ensures RunOf(events).Some?
    ensures var s := RunOf(events).value;
            s.a.rail == Rail(true, true, true, true, true) && s.b.rail == Rail(true, true, true, true, true)
  {
    hide RunOf;
    var s;
    events, s := SecondSideGetsReady();
    events, s := Extend(events, s, false, HandlerStep(Replying, true));
    events, s := Extend(events, s, false, HandlerStep(Replied, false));
    events, s := Extend(events, s, true, WorkReadyAck);
    events, s := Extend(events, s, true, WorkSetSent);
    events, s := Extend(events, s, true, WorkCheckSent);
  }
}
