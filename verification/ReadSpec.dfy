/**
 * Reassembly of an RDMA READ response (kernel/ibdev.c): fragments are scattered over the local segments
 * in offset order, early ones wait in a list sorted by offset.
 */
module ReadSpec {
  import opened Basics
  import opened Fragment
  import opened NativeData

  datatype Frag = Frag(offset: nat, data: seq<Byte>)

  datatype Status = Success | RemoteError | BadHeader | CopyFault

  datatype Ack = AckOk | AckRetry | AckError

  /** `status` is set once, when the read becomes ready. */
  datatype Read = Read(total: nat, segs: seq<seq<Byte>>, received: nat, frags: seq<Frag>, status: Option<Status>)

  /** `alloc`: a fragment can be allocated; `faults`: bytes of the read at which a copy to user memory fails. */
  datatype Env = Env(alloc: bool, faults: set<nat>)

  // ----- scatter -----

  /**
   * tbv_copy_to_read_segments over the segments from byte `base` of the read on: `data` goes to `offset` bytes
   * behind `base`. The copy stops at a fault, and fails when the segments end before the data does.
   */
  function Scatter(segs: seq<seq<Byte>>, base: nat, offset: nat, data: seq<Byte>, faults: set<nat>): (seq<seq<Byte>>, bool)
    decreases |segs|
  {
    if data == [] then (segs, true)
    else if segs == [] then (segs, false)
    else
      var seg := segs[0];
      if offset >= |seg| then
        var (rest, ok) := Scatter(segs[1..], base + |seg|, offset - |seg|, data, faults);
        ([seg] + rest, ok)
      else if base + offset in faults then (segs, false)
      else
        var n := Min(|seg| - offset, |data|);
        var (rest, ok) := Scatter(segs[1..], base + |seg|, 0, data[n..], faults);
        ([Write(seg, offset, data[..n])] + rest, ok)
  }

  predicate Written(mem: seq<Byte>, at: nat, data: seq<Byte>, after: seq<Byte>) {
    at + |data| <= |mem| && after == Write(mem, at, data)
  }

  lemma {:induction false} FlatCons(seg: seq<Byte>, rest: seq<seq<Byte>>)
    ensures Flat([seg] + rest) == seg + Flat(rest)
    decreases |rest|
  {
    var all := [seg] + rest;
    if rest == [] {
      assert all[..0] == [];
    } else {
      assert all[..|rest|] == [seg] + rest[..|rest| - 1];
      FlatCons(seg, rest[..|rest| - 1]);
    }
  }

  lemma WriteBehind(seg: seq<Byte>, rest: seq<Byte>, offset: nat, data: seq<Byte>, after: seq<Byte>)
    requires offset >= |seg| && Written(rest, offset - |seg|, data, after)
    ensures Written(seg + rest, offset, data, seg + after)
  {
  }

  lemma WriteAcross(seg: seq<Byte>, rest: seq<Byte>, offset: nat, data: seq<Byte>, n: nat, after: seq<Byte>)
    requires n <= |data| && offset + n <= |seg| && (n == |data| || offset + n == |seg|)
    requires Written(rest, 0, data[n..], after)
    ensures Written(seg + rest, offset, data, Write(seg, offset, data[..n]) + after)
  {
  }

  /** What a scatter that ends with `after` and answer `ok` has done. */
  predicate Scattered(segs: seq<seq<Byte>>, offset: nat, data: seq<Byte>, faults: set<nat>, after: seq<seq<Byte>>, ok: bool) {
    && |Flat(after)| == |Flat(segs)|
    && (data == [] ==> ok && after == segs)
    && (ok && data != [] ==> Written(Flat(segs), offset, data, Flat(after)))
    && (faults == {} && offset + |data| <= |Flat(segs)| ==> ok)
  }

  lemma Behind(seg: seq<Byte>, tail: seq<seq<Byte>>, offset: nat, data: seq<Byte>, faults: set<nat>, rest: seq<seq<Byte>>, ok: bool)
    requires offset >= |seg| && data != [] && Scattered(tail, offset - |seg|, data, faults, rest, ok)
    ensures Scattered([seg] + tail, offset, data, faults, [seg] + rest, ok)
  {
    FlatCons(seg, tail);
    FlatCons(seg, rest);
    hide Flat, Written;
    if ok { WriteBehind(seg, Flat(tail), offset, data, Flat(rest)); }
  }

  lemma Across(seg: seq<Byte>, tail: seq<seq<Byte>>, offset: nat, data: seq<Byte>, faults: set<nat>, rest: seq<seq<Byte>>, ok: bool)
    requires offset < |seg| && data != []
    requires Scattered(tail, 0, data[Min(|seg| - offset, |data|)..], faults, rest, ok)
    ensures Scattered([seg] + tail, offset, data, faults, [Write(seg, offset, data[..Min(|seg| - offset, |data|)])] + rest, ok)
  {
    var n := Min(|seg| - offset, |data|);
    FlatCons(seg, tail);
    FlatCons(Write(seg, offset, data[..n]), rest);
    NothingWritten(Flat(tail));
    hide Flat, Written;
    if ok {
      assert n == |data| ==> data[n..] == [];
      WriteAcross(seg, Flat(tail), offset, data, n, Flat(rest));
    }
  }

  /** A successful scatter is a write into the concatenated segments; without faults it succeeds whenever it fits. */
  lemma {:induction false} ScatterWrites(segs: seq<seq<Byte>>, base: nat, offset: nat, data: seq<Byte>, faults: set<nat>)
    ensures var (after, ok) := Scatter(segs, base, offset, data, faults);
            && |Flat(after)| == |Flat(segs)|
            && (data == [] ==> ok && after == segs)
            && (ok && data != [] ==> Written(Flat(segs), offset, data, Flat(after)))
            && (faults == {} && offset + |data| <= |Flat(segs)| ==> ok)
  {
    ScatterDoes(segs, base, offset, data, faults);
  }

  lemma {:induction false} ScatterDoes(segs: seq<seq<Byte>>, base: nat, offset: nat, data: seq<Byte>, faults: set<nat>)
    ensures var (after, ok) := Scatter(segs, base, offset, data, faults);
            Scattered(segs, offset, data, faults, after, ok)
    decreases |segs|
  {
    if data == [] || segs == [] {
    } else {
      hide Scattered;
      var seg, tail := segs[0], segs[1..];
      assert segs == [seg] + tail;
      if offset >= |seg| {
        ScatterDoes(tail, base + |seg|, offset - |seg|, data, faults);
        var (rest, ok) := Scatter(tail, base + |seg|, offset - |seg|, data, faults);
        Behind(seg, tail, offset, data, faults, rest, ok);
      } else if base + offset in faults {
        Stopped(segs, offset, data, faults);
      } else {
        var n := Min(|seg| - offset, |data|);
        ScatterDoes(tail, base + |seg|, 0, data[n..], faults);
        var (rest, ok) := Scatter(tail, base + |seg|, 0, data[n..], faults);
        Across(seg, tail, offset, data, faults, rest, ok);
      }
    }
  }

  lemma Stopped(segs: seq<seq<Byte>>, offset: nat, data: seq<Byte>, faults: set<nat>)
    requires data != [] && faults != {}
    ensures Scattered(segs, offset, data, faults, segs, false)
  {
  }

  lemma NothingWritten(mem: seq<Byte>)
    ensures Written(mem, 0, [], mem)
  {
  }

  // ----- the handler -----

  function FindFrag(frags: seq<Frag>, offset: nat): (r: Option<nat>)
    ensures r.None? <==> forall i | 0 <= i < |frags| :: frags[i].offset != offset
    ensures r.Some? ==> r.value < |frags| && frags[r.value].offset == offset
  {
    if frags == [] then None
    else if frags[0].offset == offset then Some(0)
    else
      var r := FindFrag(frags[1..], offset);
      assert forall i | 0 < i < |frags| :: frags[i] == frags[1..][i - 1];
      if r.None? then None else Some(r.value + 1)
  }

  function Bytes(frags: seq<Frag>): nat {
    if frags == [] then 0 else Bytes(frags[..|frags| - 1]) + |frags[|frags| - 1].data|
  }

  /** Where a fragment at `offset` goes: before the first one that lies behind it. */
  function Place(frags: seq<Frag>, offset: nat): (p: nat)
    ensures p <= |frags|
    ensures forall i | 0 <= i < p :: frags[i].offset <= offset
    ensures p < |frags| ==> offset < frags[p].offset
  {
    if frags == [] || offset < frags[0].offset then 0
    else
      var p := Place(frags[1..], offset);
      assert forall i | 0 < i <= p :: frags[i] == frags[1..][i - 1];
      p + 1
  }

  function Insert(frags: seq<Frag>, f: Frag): seq<Frag> {
    var p := Place(frags, f.offset);
    frags[..p] + [f] + frags[p..]
  }

  predicate Rejected(r: Read, h: DataHeader) {
    || h.remoteAddr != 0
    || h.imm != r.total
    || h.fragOffset + h.length >= U32_MOD
    || h.fragOffset + h.length > r.total
    || h.OtherFlags()
    || FragmentShape(r.total, MAX_PAYLOAD, MAX_FRAGS, h.fragOffset, h.length, h.Last()).None?
  }

  /** The read becomes ready with its first status; the answer carries the status of this attempt. */
  function Finish(r: Read, status: Status): (Read, Option<Ack>) {
    (r.(status := if r.status.Some? then r.status else Some(status)), Some(if status == Success then AckOk else AckError))
  }

  /** What tbv_read_resp_store_frag_locked returns. */
  datatype Stored = Kept | Mismatch | NoSpace | NoMemory

  function StoreResult(r: Read, offset: nat, data: seq<Byte>, alloc: bool): Stored {
    var k := FindFrag(r.frags, offset);
    if k.Some? then (if r.frags[k.value].data == data then Kept else Mismatch)
    else if Bytes(r.frags) + |data| > r.total then NoSpace
    else if !alloc then NoMemory
    else Kept
  }

  function Store(r: Read, offset: nat, data: seq<Byte>, alloc: bool): Read {
    if FindFrag(r.frags, offset).Some? || StoreResult(r, offset, data, alloc) != Kept then r
    else r.(frags := Insert(r.frags, Frag(offset, data)))
  }

  function Drain(r: Read, faults: set<nat>): (Read, bool)
    decreases |r.frags|
  {
    var k := FindFrag(r.frags, r.received);
    if k.None? then (r, true)
    else
      var f := r.frags[k.value];
      var (segs, ok) := Scatter(r.segs, 0, f.offset, f.data, faults);
      if !ok then (r.(segs := segs), false)
      else
        Drain(r.(segs := segs, received := f.offset + |f.data|, frags := r.frags[..k.value] + r.frags[k.value + 1..]), faults)
  }

  function TakeInOrder(r: Read, offset: nat, payload: seq<Byte>, faults: set<nat>): (Read, Option<Ack>) {
    var (segs, ok) := Scatter(r.segs, 0, offset, payload, faults);
    if !ok then Finish(r.(segs := segs), CopyFault)
    else
      var (d, drained) := Drain(r.(segs := segs, received := offset + |payload|), faults);
      if !drained then Finish(d, CopyFault)
      else if d.received != d.total then (d, None)
      else Finish(d, Success)
  }

  /** tbv_rx_handle_rdma_read_resp; `queued` tells whether the read is still in the queue of pending reads. */
  function Handle(r: Read, queued: bool, h: DataHeader, payload: seq<Byte>, env: Env): (Read, Option<Ack>) {
    if !queued then (r, Some(AckOk))
    else if h.rkey != 0 then Finish(r, RemoteError)
    else if Rejected(r, h) then Finish(r, BadHeader)
    else if h.fragOffset < r.received then (r, None)
    else if h.fragOffset > r.received then
      if StoreResult(r, h.fragOffset, payload, env.alloc) == Mismatch then Finish(r, RemoteError)
      else (Store(r, h.fragOffset, payload, env.alloc), Some(AckRetry))
    else TakeInOrder(r, h.fragOffset, payload, env.faults)
  }
}
