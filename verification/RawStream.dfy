/**
 * Raw streams stay in step: once a stream header is posted, only that stream's pages follow it on the
 * ring until the stream has completed, so the receiver never takes payload bytes for a header.
 *
 * The link is lossless and in order, the ring may be full at any time, transmit completions arrive in any
 * order; packets are neither cancelled nor dropped by a hard transmit error.
 */
module RawStream {
  import opened Basics
  import opened NativeData
  import opened PathSpec
  import Credits

  // ----- what the senders enqueue -----

  /** The header frame of a stream: tbv_path_send_page_stream sets LAST and RAW_STREAM and the total length. */
  predicate StreamHeader(hdr: DataHeader) {
    0 < hdr.length <= MAX_STREAM && hdr.RawStream() && hdr.Last() && hdr.flags / 8 == 0
  }

  function PagesLen(pages: seq<seq<Byte>>): nat {
    if pages == [] then 0 else |pages[0]| + PagesLen(pages[1..])
  }

  function PagePackets(pages: seq<seq<Byte>>, owner: nat): seq<Packet> {
    if pages == [] then [] else [Page(pages[0], owner, 0, |pages| == 1)] + PagePackets(pages[1..], owner)
  }

  datatype Event =
    | SendControl(id: nat)
    | SendFramed(ids: seq<nat>, owner: nat)
    | SendStream(hdr: DataHeader, pages: seq<seq<Byte>>, owner: nat)
    | Schedule(room: nat)
    | TxDone(i: nat)
    | CreditsIn(n: nat)

  function FramedList(ids: seq<nat>, owner: nat, group: nat): seq<Packet> {
    if ids == [] then [] else [Framed(ids[0], owner, group)] + FramedList(ids[1..], owner, 0)
  }

  function StreamList(hdr: DataHeader, pages: seq<seq<Byte>>, owner: nat): seq<Packet> {
    [StreamHead(hdr, owner, |pages| + 1)] + PagePackets(pages, owner)
  }

  predicate Possible(e: Event, p: Port) {
    match e
    case SendStream(hdr, pages, _) =>
      && StreamHeader(hdr) && pages != [] && PagesLen(pages) == hdr.length
      && forall i | 0 <= i < |pages| :: pages[i] != []
    case TxDone(i) => i < |p.flying|
    case _ => true
  }

  function Step(p: Port, e: Event): Port
    requires Possible(e, p)
  {
    match e
    case SendControl(id) => p.(control := p.control + [Control(id)])
    case SendFramed(ids, owner) => p.(data := p.data + FramedList(ids, owner, |ids|))
    case SendStream(hdr, pages, owner) => p.(data := p.data + StreamList(hdr, pages, owner))
    case Schedule(room) => Pump(p, room, true)
    case TxDone(i) => Complete(p, i)
    case CreditsIn(n) => p.(credits := Credits.AddCredits(p.credits, p.window, n))
  }

  function Idle(window: nat, frameCount: nat, limit: nat): Port {
    Port(window, window, [], [], frameCount, frameCount, limit, NO_RAW, [], [])
  }

  function RunOf(p: Port, events: seq<Event>): Option<Port> {
    if events == [] then Some(p)
    else
      match RunOf(p, events[..|events| - 1])
      case None => None
      case Some(q) => if Possible(events[|events| - 1], q) then Some(Step(q, events[|events| - 1])) else None
  }

  // ----- what the wire means -----

  /** The header of the last stream begun in `frames`, and how many of its bytes have followed. */
  function LastHead(frames: seq<Packet>): DataHeader {
    if frames == [] then NO_HEADER
    else if frames[|frames| - 1].StreamHead? then frames[|frames| - 1].hdr
    else LastHead(frames[..|frames| - 1])
  }

  function BytesSince(frames: seq<Packet>): nat {
    if frames == [] || frames[|frames| - 1].StreamHead? then 0
    else BytesSince(frames[..|frames| - 1]) + if frames[|frames| - 1].Page? then |frames[|frames| - 1].bytes| else 0
  }

  /** A stream's header made into the header of the piece at `offset`; LAST and SOLICITED go with the final piece. */
  function PieceHeader(stream: DataHeader, offset: nat, len: nat, final: bool): DataHeader {
    stream.(flags := stream.flags / 8 * 8 + (if final then stream.flags % 4 else 0), length := len, fragOffset := offset)
  }

  function MeaningOf(init: seq<Packet>, f: Packet): seq<Item> {
    if f.Page? then [Payload(PieceHeader(LastHead(init), BytesSince(init), |f.bytes|, f.end), f.bytes)]
    else if f.StreamHead? then []
    else [Parsed(f)]
  }

  /** What the receiver should make of the frames, judged by what the sender put into them. */
  function Meaning(frames: seq<Packet>): seq<Item> {
    if frames == [] then []
    else
      var init, f := frames[..|frames| - 1], frames[|frames| - 1];
      Meaning(init) + MeaningOf(init, f)
  }

  // ----- the invariant -----

  /** A queue of whole units: framed packets, and stream headers with all their pages behind them. */
  predicate Whole(q: seq<Packet>)
    decreases |q|
  {
    q == []
    || (q[0].Framed? && Whole(q[1..]))
    || (q[0].StreamHead? && StreamHeader(q[0].hdr) && Middle(q[1..], q[0].owner, q[0].hdr.length))
  }

  /** A queue that begins with the last `rest` bytes of a stream of `owner`. */
  predicate Middle(q: seq<Packet>, owner: nat, rest: nat)
    decreases |q|
  {
    && q != [] && q[0].Page? && q[0].owner == owner && q[0].group == 0
    && 0 < |q[0].bytes| <= rest
    && (q[0].end <==> |q[0].bytes| == rest)
    && if |q[0].bytes| == rest then Whole(q[1..]) else Middle(q[1..], owner, rest - |q[0].bytes|)
  }

  lemma {:induction false} WholeAppend(a: seq<Packet>, b: seq<Packet>)
    requires Whole(a) && Whole(b)
    ensures Whole(a + b)
    decreases |a|
  {
    if a == [] {
      assert a + b == b;
    } else {
      assert (a + b)[1..] == a[1..] + b;
      if a[0].Framed? { WholeAppend(a[1..], b); } else { MiddleAppend(a[1..], a[0].owner, a[0].hdr.length, b); }
    }
  }

  lemma {:induction false} MiddleAppend(a: seq<Packet>, owner: nat, rest: nat, b: seq<Packet>)
    requires Middle(a, owner, rest) && Whole(b)
    ensures Middle(a + b, owner, rest)
    decreases |a|
  {
    assert (a + b)[1..] == a[1..] + b;
    if |a[0].bytes| == rest { WholeAppend(a[1..], b); } else { MiddleAppend(a[1..], owner, rest - |a[0].bytes|, b); }
  }

  lemma {:induction false} FramedWhole(ids: seq<nat>, owner: nat, group: nat)
    ensures Whole(FramedList(ids, owner, group))
  {
    if ids != [] {
      FramedWhole(ids[1..], owner, 0);
      assert FramedList(ids, owner, group)[1..] == FramedList(ids[1..], owner, 0);
    }
  }

  lemma {:induction false} PagesMiddle(pages: seq<seq<Byte>>, owner: nat)
    requires pages != [] && forall i | 0 <= i < |pages| :: pages[i] != []
    ensures Middle(PagePackets(pages, owner), owner, PagesLen(pages))
  {
    var q := PagePackets(pages, owner);
    assert q[1..] == PagePackets(pages[1..], owner);
    if |pages| > 1 {
      PagesMiddle(pages[1..], owner);
      assert PagesLen(pages[1..]) > 0;
    } else {
      assert PagesLen(pages[1..]) == 0;
    }
  }

  lemma StreamWhole(hdr: DataHeader, pages: seq<seq<Byte>>, owner: nat)
    requires StreamHeader(hdr) && pages != [] && PagesLen(pages) == hdr.length
    requires forall i | 0 <= i < |pages| :: pages[i] != []
    ensures Whole(StreamList(hdr, pages, owner))
  {
    PagesMiddle(pages, owner);
    assert StreamList(hdr, pages, owner)[1..] == PagePackets(pages, owner);
  }

  function CountedIn(flying: seq<Flying>): nat {
    if flying == [] then 0
    else CountedIn(flying[..|flying| - 1]) + if flying[|flying| - 1].counted then 1 else 0
  }

  lemma {:induction false} CountedRemove(flying: seq<Flying>, i: nat)
    requires i < |flying|
    ensures CountedIn(flying[..i] + flying[i + 1..]) == CountedIn(flying) - if flying[i].counted then 1 else 0
    decreases |flying|
  {
    var n := |flying| - 1;
    var rest := flying[..i] + flying[i + 1..];
    if i < n {
      CountedRemove(flying[..n], i);
      assert rest[..n - 1] == flying[..n][..i] + flying[..n][i + 1..];
    } else {
      assert rest == flying[..n];
    }
  }

  lemma {:induction false} NoneCounted(flying: seq<Flying>)
    requires CountedIn(flying) == 0
    ensures forall f | f in flying :: !f.counted
  {
    if flying != [] { NoneCounted(flying[..|flying| - 1]); }
  }

  /** In flight: the stream counter is exact, and nothing that ends the current stream is out while its pages are still queued. */
  ghost predicate FlyingOk(p: Port, pending: bool) {
    && p.raw.inflight == CountedIn(p.flying)
    && (!p.raw.active ==> p.raw == NO_RAW)
    && (forall f | f in p.flying && f.counted :: f.packet.Owner() == p.raw.owner)
    && (pending ==> p.raw.active && !p.raw.endSeen
                    && forall f | f in p.flying && f.counted :: !(f.packet.Page? && f.packet.end))
  }

  /** The receiver, having received everything posted, is in the middle of a stream exactly when the sender is. */
  ghost predicate InStep(p: Port) {
    var (r, items) := RxAll(p.posted);
    && FlyingOk(p, r.pending)
    && (forall c | c in p.control :: c.Control?)
    && items == Meaning(p.posted)
    && if r.pending then
         && Middle(p.data, p.raw.owner, r.remaining)
         && r.hdr == LastHead(p.posted) && r.done == BytesSince(p.posted) && StreamHeader(r.hdr)
       else Whole(p.data)
  }

  lemma RxAppend(frames: seq<Packet>, f: Packet)
    ensures var (r, items) := RxAll(frames);
            var (r', more) := RxFrame(r, f);
            RxAll(frames + [f]) == (r', items + more)
    ensures LastHead(frames + [f]) == if f.StreamHead? then f.hdr else LastHead(frames)
    ensures BytesSince(frames + [f]) == if f.StreamHead? then 0 else BytesSince(frames) + if f.Page? then |f.bytes| else 0
    ensures Meaning(frames + [f]) == Meaning(frames) + MeaningOf(frames, f)
  {
    assert (frames + [f])[..|frames|] == frames;
  }

  lemma CountedAppend(flying: seq<Flying>, f: Flying)
    ensures CountedIn(flying + [f]) == CountedIn(flying) + if f.counted then 1 else 0
  {
    assert (flying + [f])[..|flying|] == flying;
  }

  lemma PostInStep(p: Port)
    requires InStep(p) && CanPost(p)
    ensures InStep(PostOne(p))
  {
    hide Gates, Meaning, RxAll, LastHead, BytesSince, CountedIn;
    var c := Candidate(p).value;
    var f := c.WithGroup(0);
    var (raw, counted) := CountRaw(p.raw, c);
    RxAppend(p.posted, f);
    CountedAppend(p.flying, Flying(f, counted));
    if !p.raw.active { NoneCounted(p.flying); }
  }

  lemma CompleteInStep(p: Port, i: nat)
    requires InStep(p) && i < |p.flying|
    ensures InStep(Complete(p, i))
  {
    hide Gates, Meaning, RxAll, LastHead, BytesSince, CountedIn, Whole, Middle;
    CountedRemove(p.flying, i);
    var rest := p.flying[..i] + p.flying[i + 1..];
    assert forall f | f in rest :: f in p.flying;
    assert p.flying[i] in p.flying;
    if p.raw.inflight == 0 { NoneCounted(p.flying); }
    if CountedIn(rest) == 0 { NoneCounted(rest); }
  }

  lemma {:induction false} PumpInStep(p: Port, room: nat)
    requires InStep(p)
    ensures InStep(Pump(p, room, true))
    decreases |p.control| + |p.data|
  {
    hide InStep, Gates, RxAll;
    if CanPost(p) {
      if room > 0 {
        PostInStep(p);
        PumpInStep(PostOne(p), room - 1);
      } else {
        assert Pump(p, room, true) == PostRefused(p, true);
        RefusedInStep(p);
      }
    }
  }

  lemma RefusedInStep(p: Port)
    requires InStep(p) && CanPost(p)
    ensures InStep(PostRefused(p, true))
  {
    hide RxAll, Meaning, Whole, Middle, CountedIn, LastHead, BytesSince;
  }

  lemma StepInStep(p: Port, e: Event)
    requires InStep(p) && Possible(e, p)
    ensures InStep(Step(p, e))
  {
    match e
    case SendControl(_) =>
    case CreditsIn(_) =>
    case SendFramed(ids, owner) =>
      FramedWhole(ids, owner, |ids|);
      QueueMore(p, FramedList(ids, owner, |ids|));
    case SendStream(hdr, pages, owner) =>
      StreamWhole(hdr, pages, owner);
      QueueMore(p, StreamList(hdr, pages, owner));
    case Schedule(room) => PumpInStep(p, room);
    case TxDone(i) => CompleteInStep(p, i);
  }

  lemma QueueMore(p: Port, more: seq<Packet>)
    requires InStep(p) && Whole(more)
    ensures InStep(p.(data := p.data + more))
  {
    var (r, _) := RxAll(p.posted);
    if r.pending { MiddleAppend(p.data, p.raw.owner, r.remaining, more); } else { WholeAppend(p.data, more); }
  }

  /**
   * Framing sync over every run: what the receiver makes of the posted frames is exactly what the sender
   * meant by them. No payload is parsed as a header and no frame is rejected; each page of a stream comes
   * out under the stream's header with the offset of the bytes before it, and LAST on the final page only.
   */
  lemma {:induction false} ReceiverStaysInStep(window: nat, frameCount: nat, limit: nat, events: seq<Event>)
    requires RunOf(Idle(window, frameCount, limit), events).Some?
    ensures var p := RunOf(Idle(window, frameCount, limit), events).value;
            var items := RxAll(p.posted).1;
            && items == Meaning(p.posted)
            && BadFrame !in items && Misparsed !in items
  {
    RunInStep(window, frameCount, limit, events);
    MeaningIsClean(RunOf(Idle(window, frameCount, limit), events).value.posted);
  }

  /**
   * While the receiver is inside a stream, the one packet the scheduler may post is that stream's next page:
   * control frames and other operations wait, and the page that exhausts the stream is the one marked as its end.
   */
  lemma OnlyItsPagesFollow(window: nat, frameCount: nat, limit: nat, events: seq<Event>)
    requires RunOf(Idle(window, frameCount, limit), events).Some?
    requires RxAll(RunOf(Idle(window, frameCount, limit), events).value.posted).0.pending
    ensures var p := RunOf(Idle(window, frameCount, limit), events).value;
            var r := RxAll(p.posted).0;
            && Candidate(p).Some? && Candidate(p).value.Page? && Candidate(p).value.owner == p.raw.owner
            && |Candidate(p).value.bytes| <= r.remaining
            && (Candidate(p).value.end <==> |Candidate(p).value.bytes| == r.remaining)
            && r.hdr == LastHead(p.posted) && r.done == BytesSince(p.posted)
  {
    RunInStep(window, frameCount, limit, events);
    hide RxAll, RunOf, Meaning, LastHead, BytesSince, CountedIn;
  }

  lemma {:induction false} RunInStep(window: nat, frameCount: nat, limit: nat, events: seq<Event>)
    requires RunOf(Idle(window, frameCount, limit), events).Some?
    ensures InStep(RunOf(Idle(window, frameCount, limit), events).value)
  {
    if events != [] {
      RunInStep(window, frameCount, limit, events[..|events| - 1]);
      StepInStep(RunOf(Idle(window, frameCount, limit), events[..|events| - 1]).value, events[|events| - 1]);
    }
  }

  lemma {:induction false} MeaningIsClean(frames: seq<Packet>)
    ensures BadFrame !in Meaning(frames) && Misparsed !in Meaning(frames)
  {
    if frames != [] { MeaningIsClean(frames[..|frames| - 1]); }
  }

  // ----- one stream -----

  /** The pieces of a stream: consecutive offsets from `done` on, LAST only on the final one. */
  function Pieces(hdr: DataHeader, done: nat, pages: seq<seq<Byte>>): seq<Item>
    decreases |pages|
  {
    if pages == [] then []
    else [Payload(PieceHeader(hdr, done, |pages[0]|, |pages| == 1), pages[0])] + Pieces(hdr, done + |pages[0]|, pages[1..])
  }

  function RxFrom(r: RxRaw, frames: seq<Packet>): (RxRaw, seq<Item>)
    decreases |frames|
  {
    if frames == [] then (r, [])
    else
      var (r1, items) := RxFrame(r, frames[0]);
      var (r2, more) := RxFrom(r1, frames[1..]);
      (r2, items + more)
  }

  lemma {:induction false} RxPages(r: RxRaw, pages: seq<seq<Byte>>, owner: nat)
    requires r.pending && r.hdr.RawStream() && pages != [] && r.remaining == PagesLen(pages)
    requires forall i | 0 <= i < |pages| :: pages[i] != []
    ensures var (r', items) := RxFrom(r, PagePackets(pages, owner));
            !r'.pending && r'.done == r.done + PagesLen(pages) && items == Pieces(r.hdr, r.done, pages)
    decreases |pages|
  {
    var q := PagePackets(pages, owner);
    assert q[1..] == PagePackets(pages[1..], owner);
    if |pages| > 1 {
      assert PagesLen(pages[1..]) > 0;
      RxPages(RxFrame(r, q[0]).0, pages[1..], owner);
    } else {
      assert pages[1..] == [] && PagesLen(pages[1..]) == 0;
    }
  }

  /** A stream received from idle comes out as pieces that partition its bytes, and the receiver is idle again. */
  lemma StreamPartitions(r: RxRaw, hdr: DataHeader, pages: seq<seq<Byte>>, owner: nat)
    requires !r.pending && Possible(SendStream(hdr, pages, owner), Idle(0, 0, 0))
    ensures var (r', items) := RxFrom(r, StreamList(hdr, pages, owner));
            && !r'.pending && items == Pieces(hdr, 0, pages) && |items| == |pages|
    ensures forall j | 0 <= j < |pages| :: var it := Pieces(hdr, 0, pages)[j];
              && it.Payload? && it.bytes == pages[j]
              && it.hdr.fragOffset == PagesLen(pages[..j]) && it.hdr.length == |pages[j]|
              && it.hdr.Last() == (j == |pages| - 1) && !it.hdr.RawStream()
  {
    var q := StreamList(hdr, pages, owner);
    assert q[1..] == PagePackets(pages, owner);
    RxPages(RxFrame(r, q[0]).0, pages, owner);
    forall j | 0 <= j < |pages|
      ensures |Pieces(hdr, 0, pages)| == |pages|
      ensures var it := Pieces(hdr, 0, pages)[j];
              && it.Payload? && it.bytes == pages[j]
              && it.hdr.fragOffset == PagesLen(pages[..j]) && it.hdr.length == |pages[j]|
              && it.hdr.Last() == (j == |pages| - 1) && !it.hdr.RawStream()
    {
      PieceAt(hdr, 0, pages, j);
    }
  }

  lemma {:induction false} PieceAt(hdr: DataHeader, done: nat, pages: seq<seq<Byte>>, j: nat)
    requires j < |pages| && StreamHeader(hdr)
    ensures |Pieces(hdr, done, pages)| == |pages|
    ensures Pieces(hdr, done, pages)[j]
            == Payload(PieceHeader(hdr, done + PagesLen(pages[..j]), |pages[j]|, j == |pages| - 1), pages[j])
    decreases |pages|
  {
    if j == 0 {
      if |pages| > 1 { PieceAt(hdr, done + |pages[0]|, pages[1..], 0); }
    } else {
      PieceAt(hdr, done + |pages[0]|, pages[1..], j - 1);
      assert pages[..j][1..] == pages[1..][..j - 1];
    }
  }

  // ----- order -----

  function Zeroed(q: seq<Packet>): seq<Packet> {
    seq(|q|, i requires 0 <= i < |q| => q[i].WithGroup(0))
  }

  /** The control or the data packets among `frames`. */
  function Only(control: bool, frames: seq<Packet>): seq<Packet> {
    if frames == [] then []
    else Only(control, frames[..|frames| - 1])
         + if frames[|frames| - 1].Control? == control then [frames[|frames| - 1]] else []
  }

  /** Everything handed to the data queue so far, and everything handed to the control queue. */
  function EnqueuedData(events: seq<Event>): seq<Packet> {
    if events == [] then []
    else
      var init, e := EnqueuedData(events[..|events| - 1]), events[|events| - 1];
      if e.SendFramed? then init + FramedList(e.ids, e.owner, |e.ids|)
      else if e.SendStream? then init + StreamList(e.hdr, e.pages, e.owner)
      else init
  }

  function EnqueuedControl(events: seq<Event>): seq<Packet> {
    if events == [] then []
    else
      var init, e := EnqueuedControl(events[..|events| - 1]), events[|events| - 1];
      if e.SendControl? then init + [Control(e.id)] else init
  }

  /** Each queue keeps its own kind, and with what was posted from it is exactly what was put into it. */
  ghost predicate Accounted(p: Port, data: seq<Packet>, control: seq<Packet>) {
    && Only(false, p.posted) + Zeroed(p.data) == Zeroed(data)
    && Only(true, p.posted) + p.control == control
    && (forall c | c in p.control :: c.Control?) && (forall c | c in p.data :: !c.Control?)
  }

  lemma OnlyAppend(control: bool, frames: seq<Packet>, f: Packet)
    ensures Only(control, frames + [f]) == Only(control, frames) + if f.Control? == control then [f] else []
  {
    assert (frames + [f])[..|frames|] == frames;
  }

  lemma ZeroedAppend(a: seq<Packet>, b: seq<Packet>)
    ensures Zeroed(a + b) == Zeroed(a) + Zeroed(b)
  {
    assert forall i | |a| <= i < |a + b| :: (a + b)[i] == b[i - |a|];
  }

  lemma PostAccounted(p: Port, data: seq<Packet>, control: seq<Packet>)
    requires Accounted(p, data, control) && CanPost(p)
    ensures Accounted(PostOne(p), data, control)
  {
    hide Gates, Only;
    var c := Candidate(p).value;
    OnlyAppend(true, p.posted, c.WithGroup(0));
    OnlyAppend(false, p.posted, c.WithGroup(0));
    if FromControl(p) {
      assert c in p.control;
      assert p.control == [c] + p.control[1..];
    } else {
      assert c in p.data;
      assert Zeroed(p.data) == [c.WithGroup(0)] + Zeroed(p.data[1..]);
    }
  }

  lemma {:induction false} PumpAccounted(p: Port, room: nat, data: seq<Packet>, control: seq<Packet>)
    requires Accounted(p, data, control)
    ensures Accounted(Pump(p, room, true), data, control)
    decreases |p.control| + |p.data|
  {
    hide Accounted, Gates;
    if CanPost(p) {
      if room > 0 {
        PostAccounted(p, data, control);
        PumpAccounted(PostOne(p), room - 1, data, control);
      } else {
        assert Pump(p, room, true) == PostRefused(p, true);
        RefusedAccounted(p, data, control);
      }
    }
  }

  lemma RefusedAccounted(p: Port, data: seq<Packet>, control: seq<Packet>)
    requires Accounted(p, data, control) && CanPost(p)
    ensures Accounted(PostRefused(p, true), data, control)
  {
  }

  lemma {:induction false} NoControlIn(ids: seq<nat>, pages: seq<seq<Byte>>, owner: nat, group: nat)
    ensures forall c | c in FramedList(ids, owner, group) :: !c.Control?
    ensures forall c | c in PagePackets(pages, owner) :: !c.Control?
    decreases |ids| + |pages|
  {
    if ids != [] { NoControlIn(ids[1..], pages, owner, 0); }
    else if pages != [] { NoControlIn(ids, pages[1..], owner, group); }
  }

  /**
   * The scheduler neither loses, repeats nor reorders: after any run, what was posted of each kind followed
   * by what still waits is what was enqueued, in order.
   */
  lemma {:induction false} PostedInOrder(window: nat, frameCount: nat, limit: nat, events: seq<Event>)
    requires RunOf(Idle(window, frameCount, limit), events).Some?
    ensures var p := RunOf(Idle(window, frameCount, limit), events).value;
            && Only(false, p.posted) + Zeroed(p.data) == Zeroed(EnqueuedData(events))
            && Only(true, p.posted) + p.control == EnqueuedControl(events)
    ensures Accounted(RunOf(Idle(window, frameCount, limit), events).value, EnqueuedData(events), EnqueuedControl(events))
  {
    if events != [] {
      var init, e := events[..|events| - 1], events[|events| - 1];
      PostedInOrder(window, frameCount, limit, init);
      StepAccounted(RunOf(Idle(window, frameCount, limit), init).value, e, EnqueuedData(init), EnqueuedControl(init));
    }
  }

  lemma StepAccounted(p: Port, e: Event, data: seq<Packet>, control: seq<Packet>)
    requires Possible(e, p) && Accounted(p, data, control)
    ensures Accounted(Step(p, e),
                      if e.SendFramed? then data + FramedList(e.ids, e.owner, |e.ids|)
                      else if e.SendStream? then data + StreamList(e.hdr, e.pages, e.owner) else data,
                      if e.SendControl? then control + [Control(e.id)] else control)
  {
    hide Only, Zeroed, Pump, Credits.AddCredits;
    match e
    case SendControl(id) => assert Only(true, p.posted) + (p.control + [Control(id)]) == control + [Control(id)];
    case SendFramed(ids, owner) =>
      NoControlIn(ids, [], owner, |ids|);
      MoreAccounted(p, data, control, FramedList(ids, owner, |ids|));
    case SendStream(hdr, pages, owner) =>
      NoControlIn([], pages, owner, 0);
      MoreAccounted(p, data, control, StreamList(hdr, pages, owner));
    case Schedule(room) => PumpAccounted(p, room, data, control);
    case TxDone(_) =>
    case CreditsIn(_) =>
  }

  lemma MoreAccounted(p: Port, data: seq<Packet>, control: seq<Packet>, more: seq<Packet>)
    requires Accounted(p, data, control) && forall c | c in more :: !c.Control?
    ensures Accounted(p.(data := p.data + more), data + more, control)
  {
    hide Only, Zeroed;
    ZeroedAppend(p.data, more);
    ZeroedAppend(data, more);
    assert Only(false, p.posted) + (Zeroed(p.data) + Zeroed(more)) == Zeroed(data) + Zeroed(more);
  }

  // ----- transmit frames -----

  /** Outstanding packets that hold a staging frame, and those of them that are data. */
  function Staged(flying: seq<Flying>): nat {
    if flying == [] then 0 else Staged(flying[..|flying| - 1]) + if flying[|flying| - 1].packet.Page? then 0 else 1
  }

  function StagedData(flying: seq<Flying>): nat {
    if flying == [] then 0
    else
      var f := flying[|flying| - 1].packet;
      StagedData(flying[..|flying| - 1]) + if f.Page? || f.Control? then 0 else 1
  }

  lemma StagedSnoc(flying: seq<Flying>, f: Flying)
    ensures Staged(flying + [f]) == Staged(flying) + if f.packet.Page? then 0 else 1
    ensures StagedData(flying + [f]) == StagedData(flying) + if f.packet.Page? || f.packet.Control? then 0 else 1
  {
    assert (flying + [f])[..|flying|] == flying;
  }

  lemma {:induction false} StagedWithout(flying: seq<Flying>, i: nat)
    requires i < |flying|
    ensures var rest := flying[..i] + flying[i + 1..];
            && Staged(rest) == Staged(flying) - (if flying[i].packet.Page? then 0 else 1)
            && StagedData(rest) == StagedData(flying) - if flying[i].packet.Page? || flying[i].packet.Control? then 0 else 1
    decreases |flying|
  {
    var n := |flying| - 1;
    var rest := flying[..i] + flying[i + 1..];
    if i < n {
      StagedWithout(flying[..n], i);
      assert rest[..n - 1] == flying[..n][..i] + flying[..n][i + 1..];
    } else {
      assert rest == flying[..n];
    }
  }

  lemma {:induction false} DataWithinFlying(flying: seq<Flying>)
    ensures StagedData(flying) <= |flying|
  {
    if flying != [] { DataWithinFlying(flying[..|flying| - 1]); }
  }

  /** Free and outstanding staging frames make up the allocation, and data leaves the control reserve alone. */
  ghost predicate FramesOk(p: Port) {
    && p.free + Staged(p.flying) == p.frameCount
    && (StagedData(p.flying) == 0 || StagedData(p.flying) + ControlReserve(p.frameCount) <= p.frameCount)
    && forall c | c in p.control :: c.Control?
  }

  lemma PostFrames(p: Port)
    requires FramesOk(p) && CanPost(p)
    ensures FramesOk(PostOne(p)) && PostOne(p).frameCount == p.frameCount
  {
    hide Staged, StagedData, ControlReserve, CreditGate, CountRaw;
    var c := Candidate(p).value;
    StagedSnoc(p.flying, Flying(c.WithGroup(0), CountRaw(p.raw, c).1));
    DataWithinFlying(p.flying);
  }

  lemma {:induction false} PumpFrames(p: Port, room: nat)
    requires FramesOk(p)
    ensures FramesOk(Pump(p, room, true)) && Pump(p, room, true).frameCount == p.frameCount
    decreases |p.control| + |p.data|
  {
    hide FramesOk, Gates;
    if CanPost(p) {
      if room > 0 {
        PostFrames(p);
        PumpFrames(PostOne(p), room - 1);
      } else {
        assert Pump(p, room, true) == PostRefused(p, true);
        RefusedFrames(p);
      }
    }
  }

  lemma RefusedFrames(p: Port)
    requires FramesOk(p) && CanPost(p)
    ensures FramesOk(PostRefused(p, true)) && PostRefused(p, true).frameCount == p.frameCount
  {
  }

  lemma CompleteFrames(p: Port, i: nat)
    requires FramesOk(p) && i < |p.flying|
    ensures FramesOk(Complete(p, i)) && Complete(p, i).frameCount == p.frameCount
  {
    hide Staged, StagedData, ControlReserve, FinishRaw;
    StagedWithout(p.flying, i);
  }

  /**
   * Over every run each staging frame is free or holds exactly one outstanding packet, and data packets never
   * hold the frames reserved for control.
   */
  lemma {:induction false} FramesAreConserved(window: nat, frameCount: nat, limit: nat, events: seq<Event>)
    requires RunOf(Idle(window, frameCount, limit), events).Some?
    ensures var p := RunOf(Idle(window, frameCount, limit), events).value;
            && p.frameCount == frameCount && p.free + Staged(p.flying) == frameCount
            && (StagedData(p.flying) == 0 || StagedData(p.flying) + ControlReserve(frameCount) <= frameCount)
    ensures FramesOk(RunOf(Idle(window, frameCount, limit), events).value)
  {
    if events != [] {
      FramesAreConserved(window, frameCount, limit, events[..|events| - 1]);
      var p, e := RunOf(Idle(window, frameCount, limit), events[..|events| - 1]).value, events[|events| - 1];
      hide Staged, StagedData, ControlReserve, Pump, Complete, FramedList, StreamList;
      match e
      case Schedule(room) => PumpFrames(p, room);
      case TxDone(i) => CompleteFrames(p, i);
      case _ =>
    }
  }

  // ----- what the receiver does with any frame at all -----

  /**
   * A header that announces a stream (flag bit 2) of at most 16 MiB opens it, or is refused when the stream is empty or an
   * unknown flag is set; any other header is passed on.
   */
  lemma HeaderOpensExactly(r: RxRaw, f: Packet)
    requires !r.pending && f.StreamHead?
    ensures var (u, items), h := RxFrame(r, f), f.hdr;
            && (u.pending <==> h.flags / 4 % 2 == 1 && h.flags < 8 && 1 <= h.length <= 16777216)
            && (u.pending ==> u == RxRaw(true, h, 0, h.length) && items == [])
            && (!u.pending ==> u == r)
            && (items == [BadFrame] <==> h.flags / 4 % 2 == 1 && h.length <= 16777216 && (h.length == 0 || h.flags >= 8))
            && (items == [Parsed(f)] <==> h.flags / 4 % 2 == 0 || h.length > 16777216)
  {
  }

  /**
   * Inside a stream a frame of more bytes than are left, or of none, is refused and ends the stream: the next frame is read
   * as a header again. Any other frame is payload: it carries the bytes that follow those before it, and the flags below 4
   * only when it is the last.
   */
  lemma PayloadTakenExactly(r: RxRaw, f: Packet, next: Packet)
    requires r.pending && r.hdr.flags / 4 % 2 == 1 && r.hdr.flags < 8
    ensures var (u, items), len := RxFrame(r, f), if f.Page? then |f.bytes| else 48;
            if 0 < len <= r.remaining then
              && u == RxRaw(len < r.remaining, r.hdr, r.done + len, r.remaining - len)
              && items == [Payload(r.hdr.(flags := if len == r.remaining then r.hdr.flags % 4 else 0, length := len, fragOffset := r.done),
                                   if f.Page? then f.bytes else [])]
            else
              && !u.pending && items == [BadFrame]
              && (next.Control? || next.Framed? ==> RxFrame(u, next) == (u, [Parsed(next)]))
  {
  }

  /** A stream is over, and leaves nothing behind, with the completion that leaves none of it in flight once its end was seen. */
  lemma StreamIsOver(raw: Raw, f: Flying)
    requires raw.active && f.counted && f.packet.Owner() == raw.owner && raw.inflight > 0
    ensures var u := FinishRaw(raw, f);
            if raw.inflight == 1 && (raw.endSeen || (f.packet.Page? && f.packet.end)) then u == Raw(false, 0, 0, false)
            else u == Raw(true, raw.owner, raw.inflight - 1, raw.endSeen || (f.packet.Page? && f.packet.end))
  {
  }

  /** Completing a frame that was counted into no stream, or with none being posted, leaves the fields at rest. */
  lemma NoStreamToEnd(raw: Raw, f: Flying)
    ensures !f.counted ==> FinishRaw(raw, f) == raw
    ensures f.counted && !raw.active ==> FinishRaw(raw, f) == Raw(false, 0, 0, false)
  {
  }
}
