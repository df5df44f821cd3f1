/** The native data-frame header (proto/native_data.h). */
module NativeData {
  import opened Basics

  const OP_SEND: nat := 1
  const OP_SEND_IMM: nat := 6
  const OP_RDMA_WRITE: nat := 3
  const OP_RDMA_WRITE_IMM: nat := 4

  /** `flags` is one byte: bit 0 LAST, bit 1 SOLICITED, bit 2 RAW_STREAM. */
  datatype DataHeader = DataHeader(
    opcode: nat, flags: nat, destQp: nat, srcQp: nat, psn: nat,
    length: nat, imm: nat, remoteAddr: nat, rkey: nat, fragOffset: nat)
  {
    predicate Last() { flags % 2 == 1 }
    predicate RawStream() { flags / 4 % 2 == 1 }
    /** Some bit other than LAST and SOLICITED is set. */
    predicate OtherFlags() { flags / 4 != 0 }
  }

  const MAX_STREAM: nat := 16 * 1024 * 1024

  /** tbv_native_data_raw_payload_header for a stream that is `done` bytes in with `remaining` to go. */
  function RawPayloadHeader(stream: DataHeader, done: nat, remaining: nat, len: nat): Option<DataHeader> {
    if !stream.RawStream() || len == 0 || len > remaining then None
    else
      var kept := stream.flags / 8 * 8 + if len == remaining then stream.flags % 4 else 0;
      Some(stream.(flags := kept, length := len, fragOffset := done))
  }
}
