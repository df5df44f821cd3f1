/**
 * Reassembly of Apple frames (kernel/ibdev.c): frames carry no sequence numbers, only start and end marks,
 * so a message whose start was dropped must be skipped to its end. Finished messages wait in slots for a
 * posted receive. CRC-trailed raw mode is not part of this model.
 */
module AppleSpec {
  import opened Basics
  import RxSpec

  const FRAME_SIZE: nat := 4096
  const MAX_MSG_SIZE: nat := 16 * 1024 * 1024

  /** A message in a slot: the bytes copied so far and the status it will complete with. */
  datatype Msg = Msg(bytes: seq<Byte>, status: RxSpec.WcStatus)

  /** A receive completion; `wqe.region` is the receive buffer as the consumer finds it. */
  datatype Completion = Completion(wqe: RxSpec.Wqe, status: RxSpec.WcStatus, byteLen: nat)

  datatype Port = Port(
    slots: nat, ready: seq<Msg>, active: Option<Msg>, discard: bool, recvs: seq<RxSpec.Wqe>, cq: seq<Completion>)

  /**
   * What surrounds one frame: the two size parameters at that moment, whether a larger slot buffer could be
   * allocated if one was needed, and the `(wqe id, offset)` copies that fail.
   */
  datatype Env = Env(msgLimit: nat, totalLimit: nat, memOk: bool, faults: set<(nat, nat)>)

  function Bytes(ready: seq<Msg>): nat {
    if ready == [] then 0 else Bytes(ready[..|ready| - 1]) + |ready[|ready| - 1].bytes|
  }

  /** Every byte held in slots. */
  function HeldBytes(s: Port): nat { Bytes(s.ready) + if s.active.Some? then |s.active.value.bytes| else 0 }

  function Complete(m: Msg, w: RxSpec.Wqe, faults: set<(nat, nat)>): Completion {
    var copyLen := Min(|m.bytes|, |w.region|);
    var c := RxSpec.CopyToWqe(w, 0, m.bytes[..copyLen], faults);
    Completion(c.wqe,
               if c.failed then RxSpec.ProtErr else if |m.bytes| > |w.region| then RxSpec.LenErr else m.status,
               c.delivered)
  }

  /** tbv_apple_rx_drain_pending_locked */
  function Drain(s: Port, faults: set<(nat, nat)>): Port
    decreases |s.ready|
  {
    if s.ready == [] || s.recvs == [] then s
    else
      Drain(s.(ready := s.ready[1..], recvs := s.recvs[1..], cq := s.cq + [Complete(s.ready[0], s.recvs[0], faults)]), faults)
  }

  /** tbv_apple_rx_copy_piece_to_buf: the status an attempt to add the piece ends with. */
  function PieceStatus(held: nat, got: nat, len: nat, env: Env): RxSpec.WcStatus {
    var required := got + len;
    var limit := Min(env.msgLimit, MAX_MSG_SIZE);
    if required >= U32_MOD || limit == 0 || required > limit then RxSpec.LenErr
    else if env.totalLimit == 0 || held + len >= U32_MOD || held + len > env.totalLimit then RxSpec.LenErr
    else if !env.memOk then RxSpec.ProtErr
    else RxSpec.Success
  }

  function AddPiece(m: Msg, held: nat, data: seq<Byte>, env: Env): Msg {
    var status := PieceStatus(held, |m.bytes|, |data|, env);
    if status == RxSpec.Success then m.(bytes := m.bytes + data) else m.(status := status)
  }

  /** No slot can be opened for a new message. */
  predicate NoSlot(s: Port, env: Env) {
    s.slots == 0 || |s.ready| >= s.slots || env.msgLimit == 0 || env.totalLimit == 0
  }

  /** tbv_ibdev_rx_apple_frame; `last` is the EOF=3 mark. */
  function RxFrame(s: Port, data: seq<Byte>, sof: bool, last: bool, env: Env): Port {
    if data == [] || |data| > FRAME_SIZE then s else Sort(Drain(s, env.faults), data, sof, last, env)
  }

  function Sort(s: Port, data: seq<Byte>, sof: bool, last: bool, env: Env): Port {
    if s.discard then s.(discard := !last)
    else if s.active.None? && !sof && !last then s
    else if s.active.None? && NoSlot(s, env) then s.(discard := !last)
    else
      var m := AddPiece(if s.active.Some? then s.active.value else Msg([], RxSpec.Success), HeldBytes(s), data, env);
      if last then Drain(s.(active := None, ready := s.ready + [m]), env.faults) else s.(active := Some(m))
  }

  function Post(s: Port, capacity: nat, w: RxSpec.Wqe): Port {
    if |s.recvs| < capacity then s.(recvs := s.recvs + [w]) else s
  }

  function Fresh(slots: nat): Port { Port(slots, [], None, false, [], []) }
}
