/**
 * The READ requester's context as the driver keeps it (kernel/ibdev.c): the segment walk, the sorted
 * waiting list with its byte counter and the drain loop, each proved to compute its `ReadSpec` function.
 */
module ReadEngine {
  import opened Basics
  import opened Fragment
  import opened NativeData
  import opened ReadSpec
  import ReadProof

  lemma TailOf<T>(s: seq<T>, i: nat)
    requires i < |s|
    ensures s[i..] != [] && s[i..][0] == s[i] && s[i..][1..] == s[i + 1..] && |s[i..]| == |s| - i
  {
  }

  /** The walk after `i` segments: what is behind it is done, the rest of the scatter is still to come. */
  ghost predicate Walked(
    before: seq<seq<Byte>>, segs: seq<seq<Byte>>, i: nat, skipped: nat, offset: nat, data: seq<Byte>, copied: nat,
    faults: set<nat>)
  {
    && i <= |segs| == |before| && copied < |data| && segs[i..] == before[i..]
    && var (rest, ok) := Scatter(segs[i..], skipped, if offset > skipped then offset - skipped else 0, data[copied..], faults);
       Scatter(before, 0, offset, data, faults) == (segs[..i] + rest, ok)
  }

  lemma WalkBegins(segs: seq<seq<Byte>>, offset: nat, data: seq<Byte>, faults: set<nat>)
    requires data != []
    ensures Walked(segs, segs, 0, 0, offset, data, 0, faults)
  {
    assert segs[0..] == segs && data[0..] == data;
    var (rest, ok) := Scatter(segs, 0, offset, data, faults);
    assert segs[..0] + rest == rest;
  }

  lemma WalkSkips(
    before: seq<seq<Byte>>, segs: seq<seq<Byte>>, i: nat, skipped: nat, offset: nat, data: seq<Byte>, copied: nat,
    faults: set<nat>)
    requires i < |segs| && Walked(before, segs, i, skipped, offset, data, copied, faults)
    requires offset >= skipped + |segs[i]| || (|segs[i]| == 0 && offset <= skipped)
    ensures Walked(before, segs, i + 1, skipped + |segs[i]|, offset, data, copied, faults)
  {
    TailOf(segs, i);
    TailOf(before, i);
    var here := if offset > skipped then offset - skipped else 0;
    var next := skipped + |segs[i]|;
    var (rest, ok) := Scatter(segs[i + 1..], next, here - |segs[i]|, data[copied..], faults);
    assert Scatter(segs[i..], skipped, here, data[copied..], faults) == ([segs[i]] + rest, ok);
    assert segs[..i] + ([segs[i]] + rest) == segs[..i + 1] + rest;
  }

  /** Segment `i` after `chunk` bytes of the data have gone to `segOff` of it. */
  function PutChunk(segs: seq<seq<Byte>>, i: nat, segOff: nat, data: seq<Byte>, copied: nat, chunk: nat): seq<seq<Byte>>
    requires i < |segs| && segOff + chunk <= |segs[i]| && copied + chunk <= |data|
  {
    segs[i := Write(segs[i], segOff, data[copied..copied + chunk])]
  }

  lemma WalkCopies(
    before: seq<seq<Byte>>, segs: seq<seq<Byte>>, i: nat, skipped: nat, offset: nat, data: seq<Byte>, copied: nat,
    faults: set<nat>, segOff: nat, chunk: nat)
    requires i < |segs| && Walked(before, segs, i, skipped, offset, data, copied, faults) && offset < skipped + |segs[i]|
    requires segOff == if offset > skipped then offset - skipped else 0
    requires 0 < chunk == Min(|segs[i]| - segOff, |data| - copied)
    ensures |PutChunk(segs, i, segOff, data, copied, chunk)| == |segs|
    ensures skipped + segOff in faults ==> Scatter(before, 0, offset, data, faults) == (segs, false)
    ensures skipped + segOff !in faults && copied + chunk == |data| ==>
              Scatter(before, 0, offset, data, faults) == (PutChunk(segs, i, segOff, data, copied, chunk), true)
    ensures skipped + segOff !in faults && copied + chunk < |data| ==>
              Walked(before, PutChunk(segs, i, segOff, data, copied, chunk), i + 1, skipped + |segs[i]|, offset, data,
                     copied + chunk, faults)
  {
    TailOf(segs, i);
    TailOf(before, i);
    var left := data[copied..];
    var done := Write(segs[i], segOff, left[..chunk]);
    var segs' := segs[i := done];
    assert left[..chunk] == data[copied..copied + chunk] && left[chunk..] == data[copied + chunk..];
    assert segs[..i] + segs[i..] == segs;
    var (rest, ok) := Scatter(segs[i + 1..], skipped + |segs[i]|, 0, left[chunk..], faults);
    assert segs'[i + 1..] == segs[i + 1..];
    assert segs[..i] + ([done] + rest) == segs'[..i + 1] + rest;
    if copied + chunk == |data| { assert segs'[..i + 1] + segs[i + 1..] == segs'; }
  }

  lemma WalkEnds(
    before: seq<seq<Byte>>, segs: seq<seq<Byte>>, skipped: nat, offset: nat, data: seq<Byte>, copied: nat, faults: set<nat>)
    requires Walked(before, segs, |segs|, skipped, offset, data, copied, faults)
    ensures Scatter(before, 0, offset, data, faults) == (segs, false)
  {
    assert segs[|segs|..] == [];
    assert segs[..|segs|] + [] == segs;
  }

  class ReadCtx {
    const totalLen: nat
    var received: nat
    var respBufferedBytes: nat
    var respFrags: seq<Frag>
    var segs: seq<seq<Byte>>
    var ready: bool
    var completionStatus: Status

    /** The byte counter is the sum of the waiting fragments. */
    ghost predicate Valid()
      reads this
    {
      respBufferedBytes == Bytes(respFrags) && totalLen < U32_MOD
    }

    ghost function View(): Read
      reads this
    {
      Read(totalLen, segs, received, respFrags, if ready then Some(completionStatus) else None)
    }

    constructor (segments: seq<seq<Byte>>)
      requires |Flat(segments)| < U32_MOD
      ensures Valid() && View() == ReadProof.Begin(segments)
    {
      totalLen, received, respBufferedBytes, respFrags, segs := Total(segments), 0, 0, [], segments;
      ready, completionStatus := false, Success;
    }

    /** tbv_copy_to_read_segments */
    method CopyToSegments(offset: nat, payload: seq<Byte>, faults: set<nat>) returns (ok: bool)
      modifies `segs
      ensures (segs, ok) == Scatter(old(segs), 0, offset, payload, faults)
    {
      if |payload| == 0 { return true; }
      WalkBegins(segs, offset, payload, faults);
      hide Scatter, Walked, PutChunk;
      var i: nat, skipped: nat, copied: nat := 0, 0, 0;
      while i < |segs|
        invariant i <= |segs| && copied < |payload| && Walked(old(segs), segs, i, skipped, offset, payload, copied, faults)
      {
        var len := |segs[i]|;
        if offset >= skipped + len {
          WalkSkips(old(segs), segs, i, skipped, offset, payload, copied, faults);
        } else {
          var segOff := if offset > skipped then offset - skipped else 0;
          var chunk := Min(len - segOff, |payload| - copied);
          if chunk > 0 {
            WalkCopies(old(segs), segs, i, skipped, offset, payload, copied, faults, segOff, chunk);
            if skipped + segOff in faults { return false; }
            segs := PutChunk(segs, i, segOff, payload, copied, chunk);
            copied := copied + chunk;
            if copied == |payload| { return true; }
          } else {
            WalkSkips(old(segs), segs, i, skipped, offset, payload, copied, faults);
          }
        }
        skipped := skipped + len;
        i := i + 1;
      }
      WalkEnds(old(segs), segs, skipped, offset, payload, copied, faults);
      return false;
    }

    /** tbv_read_resp_find_frag_locked */
    method Find(offset: nat) returns (k: Option<nat>)
      ensures k == FindFrag(respFrags, offset)
    {
      var i := 0;
      while i < |respFrags|
        invariant i <= |respFrags| && forall j | 0 <= j < i :: respFrags[j].offset != offset
      {
        if respFrags[i].offset == offset {
          FirstFound(respFrags, offset, i);
          return Some(i);
        }
        i := i + 1;
      }
      return None;
    }

    /** tbv_read_resp_store_frag_locked */
    method StoreFrag(offset: nat, payload: seq<Byte>, alloc: bool) returns (result: Stored)
      requires Valid()
      modifies `respFrags, `respBufferedBytes
      ensures Valid()
      ensures result == StoreResult(old(View()), offset, payload, alloc)
      ensures View() == Store(old(View()), offset, payload, alloc)
    {
      var k := Find(offset);
      if k.Some? {
        if |respFrags[k.value].data| != |payload| || respFrags[k.value].data != payload { return Mismatch; }
        return Kept;
      }
      var newBytes := respBufferedBytes + |payload|;
      if newBytes >= U32_MOD || newBytes > totalLen { return NoSpace; }
      if !alloc { return NoMemory; }
      ReadProof.InsertBytes(respFrags, Frag(offset, payload));
      hide Insert, Bytes;
      LinkSorted(Frag(offset, payload));
      respBufferedBytes := newBytes;
      return Kept;
    }

    /** Walk to the first fragment that lies behind the new one and link it in front. */
    method LinkSorted(f: Frag)
      modifies `respFrags
      ensures respFrags == Insert(old(respFrags), f)
    {
      var i := 0;
      while i < |respFrags| && respFrags[i].offset <= f.offset
        invariant i <= |respFrags| && forall j | 0 <= j < i :: respFrags[j].offset <= f.offset
        modifies {}
      {
        i := i + 1;
      }
      PlaceFound(respFrags, f.offset, i);
      respFrags := respFrags[..i] + [f] + respFrags[i..];
    }

    /** Take a fragment off the list; the counter never saturates here. */
    method Unlink(k: nat)
      requires Valid() && k < |respFrags|
      modifies `respFrags, `respBufferedBytes
      ensures Valid() && respFrags == old(respFrags)[..k] + old(respFrags)[k + 1..]
      ensures respBufferedBytes == old(respBufferedBytes) - |old(respFrags)[k].data|
    {
      ReadProof.BytesRemove(respFrags, k);
      respBufferedBytes := SubOrZero(respBufferedBytes, |respFrags[k].data|);
      respFrags := respFrags[..k] + respFrags[k + 1..];
    }

    /** tbv_read_resp_drain_frags_locked */
    method DrainFrags(faults: set<nat>) returns (ok: bool)
      requires Valid()
      modifies `received, `respFrags, `respBufferedBytes, `segs
      ensures Valid()
      ensures (View(), ok) == Drain(old(View()), faults)
    {
      hide Scatter, Bytes;
      while true
        invariant Valid() && Drain(View(), faults) == Drain(old(View()), faults)
        decreases |respFrags|
      {
        var k := Find(received);
        if k.None? { return true; }
        var f := respFrags[k.value];
        ghost var before := View();
        var copied := CopyToSegments(f.offset, f.data, faults);
        if !copied { return false; }
        ReadProof.Unfold(before, k.value, segs, faults);
        received := f.offset + |f.data|;
        Unlink(k.value);
        assert View() == ReadProof.TakeStored(before, k.value, segs);
      }
    }

    /** The first status sticks; every attempt is answered. */
    method CompleteAck(status: Status) returns (ack: Option<Ack>)
      modifies `ready, `completionStatus
      ensures (View(), ack) == Finish(old(View()), status)
    {
      if !ready { ready, completionStatus := true, status; }
      ack := Some(if status == Success then AckOk else AckError);
    }

    method IsRejected(h: DataHeader) returns (bad: bool)
      ensures bad == Rejected(View(), h)
    {
      var next := h.fragOffset + h.length;
      if h.remoteAddr != 0 || h.imm != totalLen || next >= U32_MOD || next > totalLen || h.OtherFlags() { return true; }
      var shape := FragmentShape(totalLen, MAX_PAYLOAD, MAX_FRAGS, h.fragOffset, h.length, h.Last());
      return shape.None?;
    }

    /** tbv_rx_handle_rdma_read_resp */
    method HandleReadResp(queued: bool, h: DataHeader, payload: seq<Byte>, env: Env) returns (ack: Option<Ack>)
      requires Valid() && |payload| == h.length
      modifies this
      ensures Valid()
      ensures (View(), ack) == Handle(old(View()), queued, h, payload, env)
    {
      hide Rejected, StoreResult, Store, Drain, Scatter;
      ack := None;
      if !queued { return Some(AckOk); }
      if h.rkey != 0 {
        ack := CompleteAck(RemoteError);
        return;
      }
      var bad := IsRejected(h);
      if bad {
        ack := CompleteAck(BadHeader);
        return;
      }
      if h.fragOffset < received { return None; }
      if h.fragOffset != received {
        var stored := StoreFrag(h.fragOffset, payload, env.alloc);
        if stored == Mismatch {
          StoreRefused(old(View()), h.fragOffset, payload, env.alloc);
          ack := CompleteAck(RemoteError);
          return;
        }
        return Some(AckRetry);
      }
      ack := TakeNext(h.fragOffset, payload, env.faults);
    }

    /** The in-order part: copy, advance, drain, and complete when everything is there. */
    method TakeNext(offset: nat, payload: seq<Byte>, faults: set<nat>) returns (ack: Option<Ack>)
      requires Valid()
      modifies this
      ensures Valid()
      ensures (View(), ack) == TakeInOrder(old(View()), offset, payload, faults)
    {
      hide Drain, Scatter;
      ack := None;
      var copied := CopyToSegments(offset, payload, faults);
      if !copied {
        ack := CompleteAck(CopyFault);
        return;
      }
      received := offset + |payload|;
      var drained := DrainFrags(faults);
      if !drained {
        ack := CompleteAck(CopyFault);
        return;
      }
      if received != totalLen { return None; }
      ack := CompleteAck(Success);
    }
  }

  function Total(segs: seq<seq<Byte>>): (n: nat)
    ensures n == |Flat(segs)|
  {
    if segs == [] then 0 else Total(segs[..|segs| - 1]) + |segs[|segs| - 1]|
  }

  lemma StoreRefused(r: Read, offset: nat, data: seq<Byte>, alloc: bool)
    requires StoreResult(r, offset, data, alloc) == Mismatch
    ensures Store(r, offset, data, alloc) == r
  {
  }

  lemma {:induction false} FirstFound(frags: seq<Frag>, offset: nat, i: nat)
    requires i < |frags| && frags[i].offset == offset && forall j | 0 <= j < i :: frags[j].offset != offset
    ensures FindFrag(frags, offset) == Some(i)
  {
    if i > 0 {
      assert forall j | 0 <= j < i - 1 :: frags[1..][j] == frags[j + 1];
      FirstFound(frags[1..], offset, i - 1);
    }
  }

  lemma {:induction false} PlaceFound(frags: seq<Frag>, offset: nat, i: nat)
    requires i <= |frags| && (forall j | 0 <= j < i :: frags[j].offset <= offset)
    requires i < |frags| ==> offset < frags[i].offset
    ensures Place(frags, offset) == i
  {
    if i > 0 {
      assert forall j | 0 <= j < i - 1 :: frags[1..][j] == frags[j + 1];
      PlaceFound(frags[1..], offset, i - 1);
    }
  }
}
