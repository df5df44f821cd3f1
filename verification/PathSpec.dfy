/**
 * One path port (kernel/path.c): the transmit scheduler with its gates and its exclusive raw-stream mode,
 * transmit completion, and the receive side that turns ring frames back into headers and payloads.
 */
module PathSpec {
  import opened Basics
  import opened NativeData
  import Credits

  const CONTROL_RESERVE: nat := 256

  /**
   * What one ring frame carries. `StreamHead` is the header frame of a raw stream and `Page` one of its
   * zero-copy payload frames; `Framed` and `Control` carry their own header. `group` is
   * start_credit_group_frames, `owner` the owner context.
   */
  datatype Packet =
    | Control(id: nat)
    | Framed(id: nat, owner: nat, group: nat)
    | StreamHead(hdr: DataHeader, owner: nat, group: nat)
    | Page(bytes: seq<Byte>, owner: nat, group: nat, end: bool)
  {
    function Owner(): nat { if Control? then 0 else owner }
    function GroupSize(): nat { if Control? then 0 else group }
    function WithGroup(g: nat): Packet { if Control? then this else this.(group := g) }
  }

  /** tx_raw_stream_* */
  datatype Raw = Raw(active: bool, owner: nat, inflight: nat, endSeen: bool)

  const NO_RAW := Raw(false, 0, 0, false)

  /** A posted packet whose transmit completion is outstanding; `counted` is raw_stream_counted. */
  datatype Flying = Flying(packet: Packet, counted: bool)

  /** `posted` lists everything handed to the ring so far: what the peer receives on a lossless link. */
  datatype Port = Port(
    credits: nat, window: nat, control: seq<Packet>, data: seq<Packet>, free: nat, frameCount: nat, limit: nat,
    raw: Raw, flying: seq<Flying>, posted: seq<Packet>)

  function ControlReserve(frameCount: nat): nat {
    if frameCount <= 1 then 0
    else if frameCount / 4 < 1 then 1
    else Min(frameCount / 4, CONTROL_RESERVE)
  }

  /** The packet the scheduler would take next, if any. */
  function Candidate(p: Port): Option<Packet> {
    if p.raw.active then
      if p.data == [] || !p.data[0].Page? || p.data[0].owner != p.raw.owner then None else Some(p.data[0])
    else if p.control != [] then Some(p.control[0])
    else if p.data != [] then Some(p.data[0])
    else None
  }

  predicate FromControl(p: Port) { !p.raw.active && p.control != [] }

  predicate CreditGate(p: Port, c: Packet) {
    c.Control? || p.window == 0 || p.credits >= Credits.Required(c.GroupSize(), p.window)
  }

  predicate Gates(p: Port, c: Packet) {
    && (FromControl(p) || p.limit == 0 || |p.flying| < p.limit)
    && (c.Page? || p.free > 0)
    && (c.Page? || FromControl(p) || p.frameCount - |p.flying| > ControlReserve(p.frameCount))
    && CreditGate(p, c)
  }

  predicate CanPost(p: Port) { Candidate(p).Some? && Gates(p, Candidate(p).value) }

  /** tbv_path_count_raw_stream_locked. */
  function CountRaw(raw: Raw, c: Packet): (Raw, bool) {
    var r := if c.StreamHead? then Raw(true, c.owner, 0, false) else raw;
    if r.active && c.Owner() == r.owner then (r.(inflight := r.inflight + 1), true) else (r, false)
  }

  function PostOne(p: Port): Port
    requires CanPost(p)
  {
    var c := Candidate(p).value;
    var (raw, counted) := CountRaw(p.raw, c);
    p.(credits := if c.Control? || p.window == 0 then p.credits else p.credits - 1,
       control := if FromControl(p) then p.control[1..] else p.control,
       data := if FromControl(p) then p.data else p.data[1..],
       free := if c.Page? then p.free else p.free - 1,
       raw := raw,
       flying := p.flying + [Flying(c.WithGroup(0), counted)],
       posted := p.posted + [c.WithGroup(0)])
  }

  /** tb_ring_tx refused the packet: everything is undone and, when the ring was only full, it is requeued. */
  function PostRefused(p: Port, busy: bool): Port
    requires CanPost(p)
  {
    var c := Candidate(p).value;
    var q := p.(credits := if c.Control? || p.window == 0 then p.credits
                           else if p.credits - 1 < p.window then p.credits else p.credits - 1);
    if busy then q
    else if FromControl(p) then q.(control := p.control[1..]) else q.(data := p.data[1..])
  }

  /** tbv_path_schedule_tx when the ring has `room` descriptors left. */
  function Pump(p: Port, room: nat, busy: bool): Port
    decreases |p.control| + |p.data|
  {
    if !CanPost(p) then p
    else if room == 0 then PostRefused(p, busy)
    else Pump(PostOne(p), room - 1, busy)
  }

  /** tbv_path_finish_raw_stream_if_needed. */
  function FinishRaw(raw: Raw, f: Flying): Raw {
    if !f.counted then raw
    else
      var r :=
        if raw.owner != f.packet.Owner() then raw
        else
          var seen := raw.endSeen || (f.packet.Page? && f.packet.end);
          var left := if raw.inflight > 0 then raw.inflight - 1 else 0;
          if seen && left == 0 then Raw(false, 0, left, false) else raw.(endSeen := seen, inflight := left);
      if r.active then r else NO_RAW
  }

  function Complete(p: Port, i: nat): Port
    requires i < |p.flying|
  {
    var f := p.flying[i];
    p.(flying := p.flying[..i] + p.flying[i + 1..],
       free := if f.packet.Page? then p.free else p.free + 1,
       raw := FinishRaw(p.raw, f))
  }

  // ----- receive side -----

  /** rx_raw_*: the header of the stream being received, bytes done and to come. */
  datatype RxRaw = RxRaw(pending: bool, hdr: DataHeader, done: nat, remaining: nat)

  datatype Item =
    | Parsed(packet: Packet)
    | Payload(hdr: DataHeader, bytes: seq<Byte>)
    | BadFrame
    /** Payload bytes were taken for a header. */
    | Misparsed

  const NO_HEADER := DataHeader(0, 0, 0, 0, 0, 0, 0, 0, 0, 0)

  const RX_IDLE := RxRaw(false, NO_HEADER, 0, 0)

  /** The bytes of a frame that is not payload are never looked at here; `frameLen` is their number. */
  function FrameLen(f: Packet): nat { if f.Page? then |f.bytes| else 48 }

  /** tbv_path_rx_complete followed, in a raw stream, by tbv_path_rx_raw_payload. */
  function RxFrame(r: RxRaw, f: Packet): (RxRaw, seq<Item>) {
    if r.pending then
      var len := FrameLen(f);
      match RawPayloadHeader(r.hdr, r.done, r.remaining, len)
      case None => (r.(pending := false, remaining := 0), [BadFrame])
      case Some(hdr) =>
        (r.(pending := len != r.remaining, done := r.done + len, remaining := r.remaining - len),
         [Payload(hdr, if f.Page? then f.bytes else [])])
    else
      match f
      case Page(_, _, _, _) => (r, [Misparsed])
      case StreamHead(hdr, _, _) =>
        if !hdr.RawStream() || hdr.length > MAX_STREAM then (r, [Parsed(f)])
        else if hdr.length == 0 || hdr.flags / 8 != 0 then (r, [BadFrame])
        else (RxRaw(true, hdr, 0, hdr.length), [])
      case Control(_) => (r, [Parsed(f)])
      case Framed(_, _, _) => (r, [Parsed(f)])
  }

  function RxAll(frames: seq<Packet>): (RxRaw, seq<Item>) {
    if frames == [] then (RX_IDLE, [])
    else
      var (r, items) := RxAll(frames[..|frames| - 1]);
      var (r', more) := RxFrame(r, frames[|frames| - 1]);
      (r', items + more)
  }
}
