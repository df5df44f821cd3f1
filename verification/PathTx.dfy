/**
 * The path port as the driver keeps it (kernel/path.c): fields updated in place, a scheduler loop that
 * saves and restores them around a refused post, and the receive side. Every method is proved to compute
 * the function of the same role in `PathSpec` or `Credits`.
 */
module PathTx {
  import opened Basics
  import opened NativeData
  import opened PathSpec
  import Credits
  import RawStream

  const U32_MAX: nat := U32_MOD - 1

  // ----- what one scheduling pass achieves -----

  /** With enough room in the ring the pass ends only when nothing more may be posted. */
  lemma {:induction false} PumpRunsDry(p: Port, room: nat, busy: bool)
    requires room >= |p.control| + |p.data|
    ensures !CanPost(Pump(p, room, busy))
    decreases |p.control| + |p.data|
  {
    hide Gates;
    if CanPost(p) { PumpRunsDry(PostOne(p), room - 1, busy); }
  }

  function DataPosted(posted: seq<Packet>): nat {
    if posted == [] then 0
    else DataPosted(posted[..|posted| - 1]) + if posted[|posted| - 1].Control? then 0 else 1
  }

  lemma DataPostedSnoc(posted: seq<Packet>, f: Packet)
    ensures DataPosted(posted + [f]) == DataPosted(posted) + if f.Control? then 0 else 1
  {
    assert (posted + [f])[..|posted|] == posted;
  }

  lemma PostSpends(p: Port)
    requires CanPost(p) && p.window > 0
    ensures var q := PostOne(p);
            && q.window == p.window && q.credits <= p.credits && p.posted <= q.posted
            && q.credits + DataPosted(q.posted) == p.credits + DataPosted(p.posted)
            && |q.flying| == |p.flying| + 1 && |q.posted| == |p.posted| + 1
  {
    DataPostedSnoc(p.posted, Candidate(p).value.WithGroup(0));
    hide DataPosted, ControlReserve, CountRaw;
  }

  lemma PostedShrinks(p: Port, busy: bool)
    requires CanPost(p)
    ensures |PostOne(p).control| + |PostOne(p).data| < |p.control| + |p.data| && |PostOne(p).data| <= |p.data|
    ensures |PostRefused(p, busy).data| <= |p.data|
  {
    hide ControlReserve, CountRaw, CreditGate;
  }

  /**
   * One credit per data packet: a pass spends exactly as many credits as data packets it posts, a refused
   * post gives its credit back, control packets are free, and nothing already posted is disturbed.
   */
  lemma {:induction false} PumpSpendsPerDataPacket(p: Port, room: nat, busy: bool)
    requires p.window > 0 && p.credits <= p.window
    ensures var q := Pump(p, room, busy);
            && q.credits + DataPosted(q.posted) == p.credits + DataPosted(p.posted)
            && q.credits <= p.credits && p.posted <= q.posted && |q.posted| <= |p.posted| + room
            && |q.flying| - |p.flying| == |q.posted| - |p.posted|
    decreases |p.control| + |p.data|
  {
    hide Gates, DataPosted, PostOne;
    if CanPost(p) && room > 0 {
      PostedShrinks(p, busy);
      PostSpends(p);
      PumpSpendsPerDataPacket(PostOne(p), room - 1, busy);
    }
  }

  // ----- the gates in numbers -----

  /** A control packet goes out whenever a staging frame is free and no stream is being posted, whatever else is in flight. */
  lemma ControlIsNeverHeld(p: Port)
    requires !p.raw.active && p.control != [] && p.control[0].Control?
    ensures CanPost(p) <==> p.free > 0
    ensures Candidate(p) == Some(p.control[0])
  {
  }

  /** The staging frames that data leaves alone: 256 of 1024 or more, a quarter of 4 to 1023, one of 2 or 3. */
  lemma ReserveInNumbers(frameCount: nat)
    ensures ControlReserve(frameCount)
            == if frameCount >= 1024 then 256 else if frameCount >= 4 then frameCount / 4 else if frameCount >= 2 then 1 else 0
  {
  }

  /**
   * The packet at the head of the data queue, a framed one or a stream header, is posted exactly when no control packet
   * waits, the in-flight limit allows it, a staging frame is free, more frames than the reserve are not outstanding,
   * and there is a credit for each of its group up to one return batch, or for itself.
   */
  lemma HeadIsPostedExactly(p: Port)
    requires !p.raw.active && p.control == [] && p.data != [] && (p.data[0].Framed? || p.data[0].StreamHead?)
    ensures var n, batch := p.frameCount, if p.window < 32 then p.window else 32;
            var reserve := if n >= 1024 then 256 else if n >= 4 then n / 4 else if n >= 2 then 1 else 0;
            CanPost(p) <==>
              && (p.limit == 0 || |p.flying| < p.limit) && p.free > 0 && n > |p.flying| + reserve
              && (p.window == 0 || (p.credits >= 1 && (p.credits >= p.data[0].group || p.credits >= batch)))
    ensures Candidate(p) == Some(p.data[0])
  {
    ReserveInNumbers(p.frameCount);
    hide ControlReserve;
  }

  /** Inside a stream only its own next page may be posted, and it needs neither staging frame nor reserve. */
  lemma PageIsPostedExactly(p: Port)
    requires p.raw.active
    ensures CanPost(p) <==>
              && p.data != [] && p.data[0].Page? && p.data[0].owner == p.raw.owner
              && (p.limit == 0 || |p.flying| < p.limit)
              && (p.window == 0 || p.credits >= Credits.Required(p.data[0].group, p.window))
  {
    hide Credits.Required, ControlReserve;
  }

  /** The packet about to be posted heads its queue, and what posting takes from it is there. */
  lemma HeadIsPayable(p: Port)
    requires CanPost(p)
    ensures var c := Candidate(p).value;
            && Candidate(p).Some? && (c.Page? || p.free > 0) && (c.Control? || p.window == 0 || p.credits > 0)
            && if FromControl(p) then p.control != [] && p.control[0] == c else p.data != [] && p.data[0] == c
  {
    hide ControlReserve;
  }

  /** Over every run data packets leave the reserve, in numbers, to control packets. */
  lemma ReserveIsKept(window: nat, frameCount: nat, limit: nat, events: seq<RawStream.Event>)
    requires RawStream.RunOf(RawStream.Idle(window, frameCount, limit), events).Some?
    ensures var p := RawStream.RunOf(RawStream.Idle(window, frameCount, limit), events).value;
            var data := RawStream.StagedData(p.flying);
            data > 0 ==>
              && (frameCount >= 1024 ==> data <= frameCount - 256)
              && (4 <= frameCount < 1024 ==> data <= frameCount - frameCount / 4)
              && (2 <= frameCount < 4 ==> data <= frameCount - 1)
              && data <= frameCount
  {
    RawStream.FramesAreConserved(window, frameCount, limit, events);
    ReserveInNumbers(frameCount);
    hide ControlReserve, RawStream.RunOf, RawStream.StagedData;
  }

  ghost predicate Stocked(p: Port) {
    && p.flying == [] && p.frameCount > 0 && p.free == p.frameCount && !p.raw.active && p.control == []
  }

  /** On a quiet port the credit gate is the only one that can hold the head of the data queue back. */
  lemma QuietHeadNeedsOnlyCredits(p: Port)
    requires Stocked(p) && p.data != []
    ensures CanPost(p) <==> CreditGate(p, p.data[0])
  {
  }

  /** The group sizes the credit gate sees in a queue. */
  function Groups(data: seq<Packet>): seq<nat> {
    seq(|data|, i requires 0 <= i < |data| => data[i].GroupSize())
  }

  /** A flow of credits seen from the sending port. */
  predicate Sees(s: Credits.Flow, p: Port) {
    s.credits == p.credits && s.window == p.window && s.posting.None? && s.queue == Groups(p.data)
  }

  /**
   * The scheduler takes only steps of the credit protocol: posting a data packet is a charge followed by a
   * successful post, and a refused post is a charge followed by a failed one. `PathLink` lifts this to whole runs.
   */
  lemma SchedulerRefinesFlow(p: Port, s: Credits.Flow, busy: bool)
    requires CanPost(p) && !Candidate(p).value.Control? && p.window > 0 && Sees(s, p)
    requires (forall i | 0 <= i < |p.control| :: p.control[i].Control?) && (forall c | c in p.data :: !c.Control?)
    ensures Credits.Enabled(s, Credits.Charge)
    ensures var charged := Credits.Apply(s, Credits.Charge);
            && Sees(Credits.Apply(charged, Credits.PostOk), PostOne(p))
            && Credits.Apply(charged, Credits.PostOk).outstanding == s.outstanding + 1
            && Sees(Credits.Apply(charged, Credits.PostFail(busy)), PostRefused(p, busy))
            && Credits.Apply(charged, Credits.PostFail(busy)).outstanding == s.outstanding
  {
    var c := Candidate(p).value;
    assert p.data[0] == c && c in p.data;
    assert s.queue[0] == c.GroupSize();
    hide ControlReserve, CountRaw, Credits.Required;
    assert s.queue[1..] == Groups(p.data[1..]);
    assert [s.queue[0]] + s.queue[1..] == Groups(p.data);
  }

  // ----- the port -----

  class PathPort {
    var enabled: bool
    var scheduling: bool
    var credits: nat
    var creditMax: nat
    var control: seq<Packet>
    var data: seq<Packet>
    var reserved: nat
    const queueLimit: nat
    var free: nat
    const frameCount: nat
    const inflightLimit: nat
    var raw: Raw
    var flying: seq<Flying>
    var posted: seq<Packet>

    var rxRawPending: bool
    var rxRawHdr: DataHeader
    var rxRawDone: nat
    var rxRawRemaining: nat
    const rxRingSize: nat
    var rxDataCreditPending: nat

    ghost function View(): Port
      reads this
    {
      Port(credits, creditMax, control, data, free, frameCount, inflightLimit,
           raw, flying, posted)
    }

    ghost function RxView(): RxRaw
      reads this
    {
      RxRaw(rxRawPending, rxRawHdr, rxRawDone, rxRawRemaining)
    }

    /** Queued and reserved data frames together stay within the queue limit. */
    ghost predicate Valid()
      reads this
    {
      |data| + reserved <= queueLimit && rxDataCreditPending <= U32_MAX
    }

    constructor (frames: nat, limit: nat, dataLimit: nat, ringSize: nat)
      ensures Valid() && !enabled && !scheduling && reserved == 0 && rxDataCreditPending == 0
      ensures View() == Port(0, 0, [], [], frames, frames, limit, NO_RAW, [], []) && RxView() == RX_IDLE
      ensures rxRingSize == ringSize && queueLimit == dataLimit
    {
      enabled, scheduling, credits, creditMax := false, false, 0, 0;
      control, data, reserved, free, queueLimit := [], [], 0, frames, dataLimit;
      frameCount, inflightLimit, flying, posted := frames, limit, [], [];
      raw := NO_RAW;
      rxRawPending, rxRawHdr, rxRawDone, rxRawRemaining := false, NO_HEADER, 0, 0;
      rxRingSize, rxDataCreditPending := ringSize, 0;
    }

    /** tbv_path_count_raw_stream_locked */
    method CountRawStream(c: Packet) returns (counted: bool)
      modifies `raw
      ensures (raw, counted) == CountRaw(old(raw), c)
    {
      if c.StreamHead? {
        raw := Raw(true, c.owner, 0, false);
      }
      counted := false;
      if raw.active && c.Owner() == raw.owner {
        raw, counted := raw.(inflight := raw.inflight + 1), true;
      }
    }

    method Next() returns (c: Option<Packet>, fromControl: bool)
      ensures c == Candidate(View())
      ensures c.Some? ==> fromControl == FromControl(View())
    {
      c, fromControl := None, false;
      if raw.active {
        if data == [] { return; }
        if !data[0].Page? || data[0].owner != raw.owner { return; }
        c := Some(data[0]);
      } else if control != [] {
        c, fromControl := Some(control[0]), true;
      } else if data != [] {
        c := Some(data[0]);
      }
    }

    method GatesOpen(c: Packet, fromControl: bool) returns (open: bool)
      requires Candidate(View()) == Some(c) && fromControl == FromControl(View())
      ensures open == Gates(View(), c)
    {
      open := false;
      var needsStaging := !c.Page?;
      if !fromControl {
        if inflightLimit != 0 && |flying| >= inflightLimit { return; }
      }
      if needsStaging && free == 0 { return; }
      if needsStaging && !fromControl {
        var available := if frameCount > |flying| then frameCount - |flying| else 0;
        if available <= ControlReserve(frameCount) { return; }
      }
      if !c.Control? && creditMax != 0 {
        if credits < Credits.Required(c.GroupSize(), creditMax) { return; }
      }
      open := true;
    }

    /** Charge the packet, take it off its queue and take a staging frame for it. */
    method Unlink(c: Packet, fromControl: bool) returns (charged: bool)
      requires if fromControl then control != [] else data != []
      requires (c.Page? || free > 0) && (c.Control? || creditMax == 0 || credits > 0)
      modifies `credits, `control, `data, `free
      ensures charged == (!c.Control? && creditMax != 0)
      ensures credits == if charged then old(credits) - 1 else old(credits)
      ensures control == if fromControl then old(control)[1..] else old(control)
      ensures data == if fromControl then old(data) else old(data)[1..]
      ensures free == if c.Page? then old(free) else old(free) - 1
    {
      charged := !c.Control? && creditMax != 0;
      if charged { credits := credits - 1; }
      if fromControl { control := control[1..]; } else { data := data[1..]; }
      if !c.Page? { free := free - 1; }
    }

    /** Undo `Unlink` after a refused post; the packet itself comes back only when the ring was merely full. */
    method Relink(c: Packet, fromControl: bool, charged: bool, busy: bool)
      modifies `credits, `control, `data, `free
      ensures credits == if charged && old(credits) < creditMax then old(credits) + 1 else old(credits)
      ensures control == if busy && fromControl then [c] + old(control) else old(control)
      ensures data == if busy && !fromControl then [c] + old(data) else old(data)
      ensures free == if c.Page? then old(free) else old(free) + 1
    {
      if !c.Page? { free := free + 1; }
      if charged && credits < creditMax { credits := credits + 1; }
      if busy {
        if fromControl { control := [c] + control; } else { data := [c] + data; }
      }
    }

    /**
     * One turn of the scheduler for the packet `c`: it is counted into the raw stream and handed to the ring;
     * when the ring refuses it, the credit, the queues and the raw-stream fields are restored.
     */
    method PostNext(c: Packet, fromControl: bool, accepted: bool, busy: bool)
      requires CanPost(View()) && Candidate(View()) == Some(c) && fromControl == FromControl(View())
      modifies `credits, `control, `data, `free, `raw, `flying, `posted
      ensures View() == if accepted then PostOne(old(View())) else PostRefused(old(View()), busy)
    {
      hide ControlReserve, Credits.Required, Gates, CanPost, Candidate, CreditGate, CountRaw;
      HeadIsPayable(View());
      var oldRaw := raw;
      var charged := Unlink(c, fromControl);
      var counted := CountRawStream(c);
      if accepted {
        var sent := c.WithGroup(0);
        flying, posted := flying + [Flying(sent, counted)], posted + [sent];
      } else {
        raw := oldRaw;
        Relink(c, fromControl, charged, busy);
      }
    }

    /** tbv_path_schedule_tx: post while the gates allow; the ring takes `room` more descriptors. */
    method ScheduleTx(room: nat, busy: bool)
      requires Valid()
      modifies `scheduling, `credits, `control, `data, `free, `raw, `flying, `posted
      ensures Valid()
      ensures old(scheduling) || !old(enabled) ==> View() == old(View()) && scheduling == old(scheduling)
      ensures !old(scheduling) && old(enabled) ==> View() == Pump(old(View()), room, busy) && !scheduling
    {
      hide Gates, PostOne, PostRefused;
      if scheduling { return; }
      scheduling := true;
      var left := room;
      while true
        invariant Valid() && scheduling
        invariant enabled ==> Pump(View(), left, busy) == Pump(old(View()), room, busy)
        invariant !enabled ==> View() == old(View())
        decreases |control| + |data|
      {
        if !enabled || (control == [] && data == []) { scheduling := false; return; }
        var c, fromControl := Next();
        if c.None? { scheduling := false; return; }
        var open := GatesOpen(c.value, fromControl);
        if !open { scheduling := false; return; }
        ghost var before := View();
        PostedShrinks(before, busy);
        PostNext(c.value, fromControl, left > 0, busy);
        if left == 0 { scheduling := false; return; }
        left := left - 1;
      }
    }

    /** Transmit completion of the i-th outstanding packet, up to the rescheduling that follows it. */
    method TxComplete(i: nat)
      requires i < |flying|
      modifies `flying, `free, `raw
      ensures View() == Complete(old(View()), i)
    {
      var f := flying[i];
      flying := flying[..i] + flying[i + 1..];
      if !f.packet.Page? { free := free + 1; }
      if !f.counted { return; }
      if raw.owner == f.packet.Owner() {
        if f.packet.Page? && f.packet.end { raw := raw.(endSeen := true); }
        if raw.inflight > 0 { raw := raw.(inflight := raw.inflight - 1); }
        if raw.endSeen && raw.inflight == 0 { raw := Raw(false, 0, 0, false); }
      }
      if !raw.active { raw := NO_RAW; }
    }

    /** tbv_path_enqueue_data_list: all of the list or none of it. */
    method EnqueueDataList(packets: seq<Packet>) returns (ok: bool)
      requires Valid()
      modifies `data
      ensures Valid()
      ensures ok <==> packets == [] || (enabled && old(|data|) + reserved + |packets| <= queueLimit)
      ensures data == if ok then old(data) + packets else old(data)
    {
      if packets == [] { return true; }
      if !enabled { return false; }
      var used := |data| + reserved;
      if |packets| > queueLimit || used > queueLimit - |packets| { return false; }
      data := data + packets;
      return true;
    }

    /** tbv_path_reserve_data */
    method ReserveData(frames: nat) returns (ok: bool)
      requires Valid()
      modifies `reserved
      ensures Valid()
      ensures ok <==> frames == 0 || (enabled && |data| + old(reserved) + frames <= queueLimit)
      ensures reserved == if ok then old(reserved) + frames else old(reserved)
    {
      if frames == 0 { return true; }
      if !enabled { return false; }
      var used := |data| + reserved;
      if frames > queueLimit || used > queueLimit - frames { return false; }
      reserved := reserved + frames;
      return true;
    }

    /** tbv_path_enqueue_reserved_data_list: a reservation taken before guarantees the queue space. */
    method EnqueueReserved(packets: seq<Packet>) returns (ok: bool)
      requires Valid()
      modifies `data, `reserved
      ensures Valid()
      ensures ok <==> packets == [] || (enabled && |packets| <= old(reserved))
      ensures data == if ok then old(data) + packets else old(data)
      ensures reserved == if ok then old(reserved) - |packets| else old(reserved)
    {
      if packets == [] { return true; }
      if !enabled { return false; }
      if reserved < |packets| { return false; }
      reserved := reserved - |packets|;
      data := data + packets;
      return true;
    }

    /** tbv_path_enqueue_data: one frame, out of the reservations when there are any, whoever made them. */
    method EnqueueData(c: Packet) returns (ok: bool)
      requires Valid()
      modifies `data, `reserved
      ensures Valid()
      ensures ok <==> enabled && (old(reserved) > 0 || old(|data|) < queueLimit)
      ensures data == if ok then old(data) + [c.WithGroup(1)] else old(data)
      ensures reserved == if ok && old(reserved) > 0 then old(reserved) - 1 else old(reserved)
    {
      if !enabled { return false; }
      if reserved > 0 {
        reserved := reserved - 1;
      } else if |data| >= queueLimit {
        return false;
      }
      data := data + [c.WithGroup(1)];
      return true;
    }

    /**
     * tbv_path_send_page_stream: the header, with LAST and RAW_STREAM set, and all pages are queued together,
     * or nothing is. `pages` is what the page source supplies, in order; it may end early.
     */
    method SendPageStream(hdr: DataHeader, total: nat, pages: seq<seq<Byte>>, owner: nat) returns (ok: bool)
      requires Valid()
      modifies `data
      ensures Valid()
      ensures !ok ==> data == old(data)
      ensures ok ==> exists n :: Supplies(pages, n, hdr.opcode, total)
                                 && data == old(data) + RawStream.StreamList(StreamHdr(hdr, total), pages[..n], owner)
      ensures ok <==> 0 < total <= 16777216 && enabled
                      && exists n :: Supplies(pages, n, hdr.opcode, total) && old(|data|) + reserved + n + 1 <= queueLimit
    {
      if total == 0 || total > MAX_STREAM { return false; }
      var maxRaw := PageLimit(hdr.opcode);
      var prepared, n := 0, 0;
      var packets: seq<Packet> := [];
      while prepared < total
        invariant n <= |pages| && prepared == RawStream.PagesLen(pages[..n]) <= total && (prepared > 0 ==> n > 0)
        invariant forall i | 0 <= i < n :: 0 < |pages[i]| <= maxRaw
        invariant packets == PageRun(pages[..n], owner, total)
        decreases |pages| - n
        modifies {}
      {
        NeverSupplied(pages, n, hdr.opcode, total);
        if n == |pages| { return false; }
        var len := |pages[n]|;
        if len == 0 || len > maxRaw || len > total - prepared { return false; }
        var last := prepared + len == total;
        PageRunSnoc(pages[..n], pages[n], owner, total);
        assert pages[..n + 1] == pages[..n] + [pages[n]];
        packets := packets + [Page(pages[n], owner, 0, last)];
        prepared, n := prepared + len, n + 1;
      }
      PageRunWhole(pages[..n], owner, total);
      SuppliedOnce(pages, n, hdr.opcode, total);
      assert [StreamHead(StreamHdr(hdr, total), owner, |packets| + 1)] + packets
             == RawStream.StreamList(StreamHdr(hdr, total), pages[..n], owner);
      ok := EnqueueDataList([StreamHead(StreamHdr(hdr, total), owner, |packets| + 1)] + packets);
    }

    /** tbv_path_set_remote_rx_capacity */
    method SetRemoteRxCapacity(ringSize: nat)
      requires Valid()
      modifies `credits, `creditMax, `rxDataCreditPending
      ensures Valid()
      ensures creditMax == credits == Credits.Window(ringSize) && rxDataCreditPending == 0
    {
      var w := ringSize;
      if ringSize > 0 {
        w := if ringSize <= Credits.CONTROL_RESERVE then ringSize / 2 else ringSize - Credits.CONTROL_RESERVE;
        if w > Credits.BATCH { w := w - w % Credits.BATCH; }
        if w == 0 { w := 1; }
      }
      creditMax, credits, rxDataCreditPending := w, w, 0;
    }

    /** tbv_path_add_remote_rx_credits; `accepted` is what the saturation at the window let through. */
    method AddRemoteRxCredits(n: nat) returns (accepted: int)
      modifies `credits
      ensures credits == Credits.AddCredits(old(credits), creditMax, n) && accepted == credits - old(credits)
    {
      accepted := 0;
      if n == 0 { return; }
      if creditMax > 0 {
        var before := credits;
        if before >= creditMax { credits := creditMax; }
        else if n > creditMax - before { credits := creditMax; }
        else { credits := before + n; }
        accepted := credits - before;
      }
    }

    /**
     * The first lock region of tbv_path_return_rx_data_credit: `send` credits are taken out to be put into a
     * PATH_CREDIT frame. Credits are neither made nor lost short of the counter's saturation.
     */
    method TakeRxCredits(n: nat) returns (send: nat)
      requires Valid()
      modifies `rxDataCreditPending
      ensures Valid()
      ensures old(rxDataCreditPending) + n <= U32_MAX ==> send + rxDataCreditPending == old(rxDataCreditPending) + n
      ensures n > 0 && old(rxDataCreditPending) + n > U32_MAX ==> send + rxDataCreditPending == U32_MAX
      ensures n > 0 ==> rxDataCreditPending < Credits.ReturnThreshold(Credits.Window(rxRingSize))
      ensures send > 0 ==> rxDataCreditPending == 0 && send >= Credits.ReturnThreshold(Credits.Window(rxRingSize))
    {
      send := 0;
      if n == 0 { return; }
      var pending := rxDataCreditPending;
      pending := if n > U32_MAX - pending then U32_MAX else pending + n;
      if pending >= Credits.ReturnThreshold(Credits.Window(rxRingSize)) { send, pending := pending, 0; }
      rxDataCreditPending := pending;
    }

    /** The second lock region, taken when the PATH_CREDIT frame could not be queued. */
    method RestoreRxCredits(send: nat)
      requires Valid()
      modifies `rxDataCreditPending
      ensures Valid()
      ensures rxDataCreditPending == Min(old(rxDataCreditPending) + send, U32_MAX)
    {
      var pending := rxDataCreditPending;
      if send > U32_MAX - pending { rxDataCreditPending := U32_MAX; } else { rxDataCreditPending := pending + send; }
    }

    /** tbv_path_rx_start_raw */
    method RxStartRaw(hdr: DataHeader)
      modifies `rxRawPending, `rxRawHdr, `rxRawDone, `rxRawRemaining
      ensures RxView() == RxRaw(hdr.length != 0, hdr, 0, hdr.length)
    {
      rxRawHdr, rxRawDone, rxRawRemaining, rxRawPending := hdr, 0, hdr.length, hdr.length != 0;
    }

    /** tbv_path_rx_raw_payload, for whatever frame arrives inside a stream. */
    method RxRawPayload(f: Packet) returns (items: seq<Item>)
      modifies `rxRawPending, `rxRawDone, `rxRawRemaining
      ensures old(rxRawPending) && rxRawHdr.RawStream() ==> (RxView(), items) == RxFrame(old(RxView()), f)
      ensures !old(rxRawPending) || !rxRawHdr.RawStream() ==> items == [BadFrame] && !rxRawPending && rxRawRemaining == 0
    {
      var len := FrameLen(f);
      if !rxRawPending || len == 0 || len > rxRawRemaining {
        rxRawPending, rxRawRemaining := false, 0;
        return [BadFrame];
      }
      var hdr := RawPayloadHeader(rxRawHdr.(length := rxRawDone + rxRawRemaining), rxRawDone, rxRawRemaining, len);
      if hdr.None? {
        rxRawPending, rxRawRemaining := false, 0;
        return [BadFrame];
      }
      if len == rxRawRemaining { rxRawPending := false; }
      rxRawDone, rxRawRemaining := rxRawDone + len, rxRawRemaining - len;
      return [Payload(hdr.value, if f.Page? then f.bytes else [])];
    }

    /**
     * tbv_path_rx_complete for a native path. `parsed` is what the header parser says of a frame outside a stream
     * that begins none: whether its opcode consumes a credit, and the credits of a valid PATH_CREDIT frame.
     * `reposted` tells whether the buffer went back to the ring; only then do credits move, in either direction.
     */
    method RxComplete(f: Packet, parsed: Parsing, reposted: bool) returns (items: seq<Item>, send: nat)
      requires Valid() && (rxRawPending ==> rxRawHdr.RawStream())
      modifies `rxRawPending, `rxRawHdr, `rxRawDone, `rxRawRemaining, `rxDataCreditPending, `credits
      ensures Valid() && (rxRawPending ==> rxRawHdr.RawStream())
      ensures (RxView(), items) == RxFrame(old(RxView()), f)
      ensures var due := reposted && CreditDue(old(RxView()), f, parsed);
              && (!due ==> send == 0 && rxDataCreditPending == old(rxDataCreditPending))
              && (due ==> rxDataCreditPending < Credits.ReturnThreshold(Credits.Window(rxRingSize)))
              && (due && old(rxDataCreditPending) < U32_MAX ==> send + rxDataCreditPending == old(rxDataCreditPending) + 1)
      ensures credits == if reposted && !old(rxRawPending) && !f.StreamHead? then Credits.AddCredits(old(credits), creditMax, parsed.pathCredit)
                         else old(credits)
    {
      var credit, remote := 0, 0;
      if rxRawPending {
        credit := 1;
        items := RxRawPayload(f);
      } else {
        match f {
          case Page(_, _, _, _) =>
            items, remote := [Misparsed], parsed.pathCredit;
            if parsed.consumes { credit := 1; }
          case StreamHead(hdr, _, _) =>
            if !hdr.RawStream() || hdr.length > MAX_STREAM {
              items := [PathSpec.Parsed(f)];
              if parsed.consumes { credit := 1; }
            } else if hdr.length == 0 || hdr.flags / 8 != 0 {
              items := [BadFrame];
            } else {
              credit := 1;
              RxStartRaw(hdr);
              items := [];
            }
          case _ =>
            items, remote := [PathSpec.Parsed(f)], parsed.pathCredit;
            if parsed.consumes { credit := 1; }
        }
      }
      send := 0;
      if reposted {
        if credit > 0 { send := TakeRxCredits(credit); }
        if remote > 0 { var _ := AddRemoteRxCredits(remote); }
      }
    }
  }

  datatype Parsing = Parsing(consumes: bool, pathCredit: nat)

  /** Does the frame earn its sender a credit back? */
  predicate CreditDue(r: RxRaw, f: Packet, parsed: Parsing) {
    if r.pending || RxFrame(r, f).1 == [] then true
    else RxFrame(r, f).1 != [BadFrame] && parsed.consumes
  }

  function PageLimit(opcode: nat): nat {
    if opcode == OP_RDMA_WRITE || opcode == OP_RDMA_WRITE_IMM then 4096 else 4096 - 48
  }

  /**
   * The first `n` pages are what a stream of `total` bytes takes: none is empty or longer than a frame carries, 4096 bytes
   * of an RDMA WRITE (opcodes 3 and 4) and 4048 of anything else, and together they are the stream.
   */
  predicate Supplies(pages: seq<seq<Byte>>, n: int, opcode: nat, total: nat) {
    && 0 < n <= |pages| && RawStream.PagesLen(pages[..n]) == total
    && forall i | 0 <= i < n :: 0 < |pages[i]| <= (if opcode == 3 || opcode == 4 then 4096 else 4048)
  }

  lemma PagesLenSnoc(pages: seq<seq<Byte>>, n: nat)
    requires n < |pages|
    ensures RawStream.PagesLen(pages[..n + 1]) == RawStream.PagesLen(pages[..n]) + |pages[n]|
  {
    PagesLenAppend(pages[..n], pages[n]);
    assert pages[..n + 1] == pages[..n] + [pages[n]];
  }

  lemma {:induction false} PagesLenAppend(pages: seq<seq<Byte>>, page: seq<Byte>)
    ensures RawStream.PagesLen(pages + [page]) == RawStream.PagesLen(pages) + |page|
  {
    if pages == [] {
      assert (pages + [page])[1..] == [];
    } else {
      PagesLenAppend(pages[1..], page);
      assert (pages + [page])[1..] == pages[1..] + [page];
    }
  }

  lemma {:induction false} PagesLenGrows(pages: seq<seq<Byte>>, m: nat, n: nat)
    requires m <= n <= |pages|
    ensures RawStream.PagesLen(pages[..m]) <= RawStream.PagesLen(pages[..n])
    ensures m < n ==> RawStream.PagesLen(pages[..m]) + |pages[m]| <= RawStream.PagesLen(pages[..n])
    decreases n
  {
    if m < n {
      PagesLenGrows(pages, m, n - 1);
      PagesLenSnoc(pages, n - 1);
    }
  }

  /** As long as the first `n` pages fall short, what stops the loop stops every stream of these pages. */
  lemma NeverSupplied(pages: seq<seq<Byte>>, n: nat, opcode: nat, total: nat)
    requires n <= |pages| && RawStream.PagesLen(pages[..n]) < total
    ensures (n == |pages| || |pages[n]| == 0 || |pages[n]| > PageLimit(opcode) || |pages[n]| > total - RawStream.PagesLen(pages[..n])) ==>
              forall k :: !Supplies(pages, k, opcode, total)
  {
    forall k | Supplies(pages, k, opcode, total)
      ensures n < |pages| && 0 < |pages[n]| <= PageLimit(opcode) && |pages[n]| <= total - RawStream.PagesLen(pages[..n])
    {
      if k <= n { PagesLenGrows(pages, k, n); } else { PagesLenGrows(pages, n, k); }
    }
  }

  lemma SuppliedOnce(pages: seq<seq<Byte>>, n: nat, opcode: nat, total: nat)
    requires Supplies(pages, n, opcode, total)
    ensures forall k :: Supplies(pages, k, opcode, total) ==> k == n
  {
    forall k | Supplies(pages, k, opcode, total) ensures k == n {
      if k < n { PagesLenGrows(pages, k, n); } else if n < k { PagesLenGrows(pages, n, k); }
    }
  }

  /** The header of a stream announces it: LAST (1) and RAW_STREAM (4) are set, every other flag stays, the length is the total. */
  lemma StreamHdrAnnounces(hdr: DataHeader, total: nat)
    ensures var h := StreamHdr(hdr, total);
            && h == hdr.(length := total, flags := h.flags)
            && h.flags % 2 == 1 && h.flags / 4 % 2 == 1 && h.flags / 2 % 2 == hdr.flags / 2 % 2 && h.flags / 8 == hdr.flags / 8
  {
    FlagBits(hdr.flags / 8, hdr.flags / 2 % 2);
  }

  lemma FlagBits(high: nat, solicited: nat)
    requires solicited < 2
    ensures var f := high * 8 + 4 + solicited * 2 + 1;
            f % 2 == 1 && f / 2 % 2 == solicited && f / 4 % 2 == 1 && f / 8 == high
  {
    var f := high * 8 + 4 + solicited * 2 + 1;
    assert f / 2 == high * 4 + 2 + solicited;
    assert f / 4 == high * 2 + 1;
  }

  /** `hdr.flags |= LAST | RAW_STREAM` and the total length. */
  function StreamHdr(hdr: DataHeader, total: nat): DataHeader {
    hdr.(length := total, flags := hdr.flags / 8 * 8 + 4 + hdr.flags / 2 % 2 * 2 + 1)
  }

  /** Page packets of a stream of `total` bytes, each marked as the end when it brings the sum to `total`. */
  function PageRun(pages: seq<seq<Byte>>, owner: nat, total: nat): seq<Packet>
    decreases |pages|
  {
    if pages == [] then []
    else
      [Page(pages[0], owner, 0, |pages[0]| == total)]
      + PageRun(pages[1..], owner, if total >= |pages[0]| then total - |pages[0]| else 0)
  }

  lemma {:induction false} PageRunSnoc(pages: seq<seq<Byte>>, page: seq<Byte>, owner: nat, total: nat)
    requires RawStream.PagesLen(pages) + |page| <= total && |page| > 0
    requires forall i | 0 <= i < |pages| :: |pages[i]| > 0
    ensures PageRun(pages + [page], owner, total)
            == PageRun(pages, owner, total) + [Page(page, owner, 0, RawStream.PagesLen(pages) + |page| == total)]
    ensures RawStream.PagesLen(pages + [page]) == RawStream.PagesLen(pages) + |page|
    decreases |pages|
  {
    var all := pages + [page];
    if pages == [] {
      assert all[1..] == [];
    } else {
      assert all[1..] == pages[1..] + [page];
      PageRunSnoc(pages[1..], page, owner, total - |pages[0]|);
    }
  }

  lemma {:induction false} PageRunWhole(pages: seq<seq<Byte>>, owner: nat, total: nat)
    requires RawStream.PagesLen(pages) == total && forall i | 0 <= i < |pages| :: |pages[i]| > 0
    ensures PageRun(pages, owner, total) == RawStream.PagePackets(pages, owner)
    ensures |RawStream.PagePackets(pages, owner)| == |pages|
    decreases |pages|
  {
    if |pages| > 0 {
      PageRunWhole(pages[1..], owner, total - |pages[0]|);
      if |pages| > 1 { assert RawStream.PagesLen(pages[1..]) >= |pages[1]|; }
    }
  }
}
