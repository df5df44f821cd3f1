/**
 * Fragmentation of one operation into wire frames: the receive-side shape test
 * (proto/native_data.h), the send loop and the gather copy (kernel/ibdev.c).
 */
module Fragment {
  import opened Basics

  const MAX_PAYLOAD: nat := 4096 - 48
  const MAX_MSG_SIZE: nat := 16 * 1024 * 1024
  const MAX_FRAGS: nat := (MAX_MSG_SIZE + MAX_PAYLOAD - 1) / MAX_PAYLOAD

  datatype Shape = Shape(idx: nat, count: nat)

  /** One fragment as the sender cuts it. */
  datatype Piece = Piece(offset: nat, len: nat, last: bool)

  /** `(total + maxPayload - 1u) / maxPayload` as `u32` arithmetic computes it. */
  function WrappedCeiling(total: nat, maxPayload: nat): nat
    requires maxPayload > 0
  {
    (total + maxPayload - 1) % U32_MOD / maxPayload
  }

  /** tbv_native_data_fragment_shape: the index and count of an acceptable fragment. */
  function FragmentShape(total: nat, maxPayload: nat, maxFrags: nat, offset: nat, len: nat, last: bool): Option<Shape> {
    if maxPayload == 0 || maxFrags == 0 then
      None
    else if total == 0 then
      if offset != 0 || len != 0 || !last then None else Some(Shape(0, 1))
    else if offset % maxPayload != 0 then
      None
    else
      var idx := offset / maxPayload;
      var count := WrappedCeiling(total, maxPayload);
      if idx >= count || count > maxFrags then None
      else if len != (if idx == count - 1 then total - idx * maxPayload else maxPayload) then None
      else if last != (idx == count - 1) then None
      else Some(Shape(idx, count))
  }

  /** How many frames carry `total` bytes; an empty operation still takes one frame. */
  function Count(total: nat, maxPayload: nat): nat
    requires maxPayload > 0
  {
    if total == 0 then 1 else (total + maxPayload - 1) / maxPayload
  }

  /** The `k`-th piece of an operation of `total` bytes. */
  function PieceOf(total: nat, maxPayload: nat, k: nat): Piece
    requires maxPayload > 0
    requires k < Count(total, maxPayload)
  {
    CeilingBounds(total, maxPayload);
    MulMonotone(k, Count(total, maxPayload) - 1, maxPayload);
    Piece(k * maxPayload, Min(maxPayload, total - k * maxPayload), k == Count(total, maxPayload) - 1)
  }

  lemma MulMonotone(a: int, b: int, c: nat)
    requires a <= b
    ensures a * c <= b * c
  {
  }

  lemma CeilingBounds(total: nat, maxPayload: nat)
    requires maxPayload > 0
    ensures var c := Count(total, maxPayload);
            c >= 1 && (c - 1) * maxPayload <= total <= c * maxPayload && (total > 0 ==> (c - 1) * maxPayload < total)
  {
    if total > 0 {
      var n := total + maxPayload - 1;
      var c := n / maxPayload;
      assert n == c * maxPayload + n % maxPayload;
      assert (c - 1) * maxPayload == c * maxPayload - maxPayload;
    }
  }

  /** When the `u32` sum wraps, the ceiling collapses to 0; otherwise it is the true ceiling. */
  lemma WrappedCeilingExact(total: nat, maxPayload: nat)
    requires 0 < maxPayload < U32_MOD && 0 < total < U32_MOD
    ensures WrappedCeiling(total, maxPayload)
            == if total + maxPayload - 1 < U32_MOD then Count(total, maxPayload) else 0
  {
    var n := total + maxPayload - 1;
    if n >= U32_MOD {
      assert n % U32_MOD == n - U32_MOD;
      assert n % U32_MOD < maxPayload;
      SmallQuotient(n % U32_MOD, maxPayload);
    }
  }

  lemma SmallQuotient(a: nat, b: nat)
    requires a < b
    ensures a / b == 0
  {
  }

  lemma QuotientOfMultiple(k: nat, d: nat)
    requires d > 0
    ensures k * d / d == k && k * d % d == 0
  {
    var q, r := k * d / d, k * d % d;
    assert k * d == q * d + r;
    if k < q {
      MulMonotone(k + 1, q, d);
    } else if q < k {
      MulMonotone(q + 1, k, d);
    }
  }

  /**
   * The shape test accepts exactly the pieces the send loop emits, and names each by its own index:
   * nothing else passes, and a wrapped `u32` ceiling is always rejected.
   */
  lemma ShapeAcceptsExactlyPieces(total: nat, maxPayload: nat, maxFrags: nat, offset: nat, len: nat, last: bool, idx: nat, count: nat)
    requires 0 < maxPayload < U32_MOD && 0 < maxFrags && total < U32_MOD
    ensures FragmentShape(total, maxPayload, maxFrags, offset, len, last) == Some(Shape(idx, count))
       <==> && count == Count(total, maxPayload)
            && idx < count <= maxFrags
            && total + maxPayload - 1 < U32_MOD
            && Piece(offset, len, last) == PieceOf(total, maxPayload, idx)
  {
    CeilingBounds(total, maxPayload);
    if total > 0 {
      WrappedCeilingExact(total, maxPayload);
      var c := Count(total, maxPayload);
      if FragmentShape(total, maxPayload, maxFrags, offset, len, last) == Some(Shape(idx, count)) {
        assert offset == idx * maxPayload;
        PieceLength(total, maxPayload, idx);
      } else if idx < c && Piece(offset, len, last) == PieceOf(total, maxPayload, idx) {
        QuotientOfMultiple(idx, maxPayload);
        PieceLength(total, maxPayload, idx);
      }
    }
  }

  /**
   * What a fragment of a message of `total` bytes looks like, in numbers: at most 4145 of them, each but the last of 4048
   * bytes at a multiple of 4048, the last one with the rest, which is empty only for an empty message.
   */
  predicate IsCut(total: nat, offset: nat, len: nat, last: bool) {
    && total <= 4145 * 4048 && offset % 4048 == 0 && offset + len <= total
    && (if last then offset + len == total && len <= 4048 && (len > 0 || total == 0) else len == 4048 && offset + len < total)
  }

  /** The shape test with the driver's limits accepts exactly these, under the index offset / 4048. */
  lemma ShapeInNumbers(total: nat, offset: nat, len: nat, last: bool)
    requires total < U32_MOD
    ensures FragmentShape(total, MAX_PAYLOAD, MAX_FRAGS, offset, len, last).Some? <==> IsCut(total, offset, len, last)
    ensures IsCut(total, offset, len, last) ==>
              FragmentShape(total, MAX_PAYLOAD, MAX_FRAGS, offset, len, last) == Some(Shape(offset / 4048, Count(total, 4048)))
    ensures IsCut(total, offset, len, last) ==> offset / 4048 < Count(total, 4048) && (last <==> offset / 4048 == Count(total, 4048) - 1)
  {
    if total > 0 { WrappedCeilingExact(total, MAX_PAYLOAD); }
  }

  /** Every piece but the last is full; the last one carries the remainder. */
  lemma PieceLength(total: nat, maxPayload: nat, k: nat)
    requires maxPayload > 0 && total > 0
    requires k < Count(total, maxPayload)
    ensures PieceOf(total, maxPayload, k).len
            == if k == Count(total, maxPayload) - 1 then total - k * maxPayload else maxPayload
    ensures PieceOf(total, maxPayload, k).len > 0
  {
    CeilingBounds(total, maxPayload);
    var c := Count(total, maxPayload);
    if k < c - 1 {
      MulMonotone(k + 1, c - 1, maxPayload);
      assert (k + 1) * maxPayload == k * maxPayload + maxPayload;
    } else {
      assert c * maxPayload == k * maxPayload + maxPayload;
    }
  }

  /** How many bytes the pieces in `done` carry. */
  function SeenBytes(total: nat, maxPayload: nat, done: set<nat>): int
    requires maxPayload > 0
  {
    var c := Count(total, maxPayload);
    |done| * maxPayload - if c - 1 in done then c * maxPayload - total else 0
  }

  lemma SeenBytesAdd(total: nat, maxPayload: nat, done: set<nat>, k: nat)
    requires maxPayload > 0 && k !in done && k < Count(total, maxPayload)
    ensures SeenBytes(total, maxPayload, done + {k})
            == SeenBytes(total, maxPayload, done) + PieceOf(total, maxPayload, k).len
  {
    if total > 0 { PieceLength(total, maxPayload, k); }
    assert |done + {k}| == |done| + 1;
    assert (|done| + 1) * maxPayload == |done| * maxPayload + maxPayload;
  }

  lemma SeenBytesAll(total: nat, maxPayload: nat)
    requires maxPayload > 0
    ensures SeenBytes(total, maxPayload, Range(Count(total, maxPayload))) == total
  {
    CeilingBounds(total, maxPayload);
  }

  /** The payload of piece `k` of `data`. */
  function PayloadOf(data: seq<Byte>, k: nat): (r: seq<Byte>)
    requires k < Count(|data|, MAX_PAYLOAD)
    ensures |r| == PieceOf(|data|, MAX_PAYLOAD, k).len
  {
    var p := PieceOf(|data|, MAX_PAYLOAD, k);
    data[p.offset..p.offset + p.len]
  }

  function Joined(data: seq<Byte>, n: nat): seq<Byte>
    requires n <= Count(|data|, MAX_PAYLOAD)
  {
    if n == 0 then [] else Joined(data, n - 1) + PayloadOf(data, n - 1)
  }

  /** The payloads of all pieces, laid end to end, are the operation's bytes: the pieces partition it. */
  lemma PiecesPartition(data: seq<Byte>)
    ensures Joined(data, Count(|data|, MAX_PAYLOAD)) == data
  {
    var c := Count(|data|, MAX_PAYLOAD);
    CeilingBounds(|data|, MAX_PAYLOAD);
    JoinedPrefix(data, c);
  }

  lemma {:induction false} JoinedPrefix(data: seq<Byte>, n: nat)
    requires n <= Count(|data|, MAX_PAYLOAD)
    ensures Joined(data, n) == data[..Min(n * MAX_PAYLOAD, |data|)]
  {
    if n > 0 {
      JoinedPrefix(data, n - 1);
      CeilingBounds(|data|, MAX_PAYLOAD);
    }
  }

  // ----- the send loop of tbv_native_send_ctx_post_frames -----

  /** How many of the frames `0..n` go to path `j` when frame `i` goes to path `(psn + i) % paths`. */
  function PathLoad(psn: nat, n: nat, paths: nat, j: nat): nat
    requires paths > 0
  {
    if n == 0 then 0
    else PathLoad(psn, n - 1, paths, j) + if (psn + n - 1) % paths == j then 1 else 0
  }

  /**
   * The reservation loop followed by the frame-building loop. `owner[k]` is the path the `k`-th frame
   * is queued on. Every path receives exactly as many frames as were reserved on it, and the frames
   * are the pieces of the operation in order.
   */
  method PlanFrames(total: nat, psn: nat, pathCount: nat, striping: bool)
    returns (pieces: seq<Piece>, owner: seq<nat>, reservations: seq<nat>, frameCounts: seq<nat>)
    requires 0 < pathCount && (!striping ==> pathCount == 1)
    ensures |pieces| == |owner| == Count(total, MAX_PAYLOAD)
    ensures forall k | 0 <= k < |pieces| :: pieces[k] == PieceOf(total, MAX_PAYLOAD, k)
    ensures forall k | 0 <= k < |owner| :: owner[k] == if striping then (psn + k) % pathCount else 0
    ensures |reservations| == pathCount && frameCounts == reservations
    ensures striping ==> forall j | 0 <= j < pathCount ::
              reservations[j] == PathLoad(psn, Count(total, MAX_PAYLOAD), pathCount, j)
    ensures !striping ==> reservations == [Count(total, MAX_PAYLOAD)]
  {
    var frags := Count(total, MAX_PAYLOAD);
    if striping {
      reservations := seq(pathCount, _ => 0);
      for i := 0 to frags
        invariant |reservations| == pathCount
        invariant forall j | 0 <= j < pathCount :: reservations[j] == PathLoad(psn, i, pathCount, j)
      {
        var j := (psn + i) % pathCount;
        reservations := reservations[j := reservations[j] + 1];
      }
    } else {
      reservations := [frags];
    }

    pieces, owner := [], [];
    frameCounts := seq(pathCount, _ => 0);
    var offset, idx := 0, 0;
    CeilingBounds(total, MAX_PAYLOAD);
    while idx == 0 || offset < total
      invariant idx <= frags && (idx == 0 ==> offset == 0)
      invariant offset == Min(idx * MAX_PAYLOAD, total)
      invariant |pieces| == |owner| == idx && |frameCounts| == pathCount
      invariant forall k | 0 <= k < idx :: pieces[k] == PieceOf(total, MAX_PAYLOAD, k)
      invariant forall k | 0 <= k < idx :: owner[k] == if striping then (psn + k) % pathCount else 0
      invariant striping ==> forall j | 0 <= j < pathCount :: frameCounts[j] == PathLoad(psn, idx, pathCount, j)
      invariant !striping ==> frameCounts == [idx]
      decreases frags - idx
    {
      var len := Min(total - offset, MAX_PAYLOAD);
      var last := offset + len == total;
      var path := if striping then (psn + idx) % pathCount else 0;
      pieces := pieces + [Piece(offset, len, last)];
      owner := owner + [path];
      frameCounts := frameCounts[path := frameCounts[path] + 1];
      offset := offset + len;
      idx := idx + 1;
    }
  }

  // ----- gather: tbv_copy_send_range -----

  function Flat(segs: seq<seq<Byte>>): seq<Byte> {
    if segs == [] then [] else Flat(segs[..|segs| - 1]) + segs[|segs| - 1]
  }

  lemma {:induction false} FlatPrefix(segs: seq<seq<Byte>>, i: nat)
    requires i <= |segs|
    ensures Flat(segs[..i]) <= Flat(segs)
    decreases |segs|
  {
    if i < |segs| {
      var init := segs[..|segs| - 1];
      FlatPrefix(init, i);
      assert init[..i] == segs[..i];
    } else {
      assert segs[..i] == segs;
    }
  }

  lemma FlatStep(segs: seq<seq<Byte>>, i: nat)
    requires i < |segs|
    ensures Flat(segs[..i + 1]) == Flat(segs[..i]) + segs[i]
  {
    assert segs[..i + 1][..i] == segs[..i];
  }

  lemma FlatNone(segs: seq<seq<Byte>>)
    ensures Flat(segs[..0]) == []
  {
  }

  lemma PrefixSlice(a: seq<Byte>, b: seq<Byte>, i: nat, j: nat)
    requires a <= b && i <= j <= |a|
    ensures a[i..j] == b[i..j]
  {
  }

  lemma GatherStep(pre: seq<Byte>, seg: seq<Byte>, offset: nat, length: nat, dst: seq<Byte>)
    requires dst == if |pre| <= offset then [] else pre[offset..]
    requires |dst| < length && offset < |pre| + |seg|
    ensures var segOff := if offset > |pre| then offset - |pre| else 0;
            var dst' := dst + seg[segOff..segOff + Min(|seg| - segOff, length - |dst|)];
            && |dst'| <= length && offset + |dst'| <= |pre + seg|
            && dst' == (pre + seg)[offset..offset + |dst'|]
            && (|dst'| < length ==> offset + |dst'| == |pre + seg|)
  {
  }

  /**
   * Copies `length` bytes starting at byte `offset` of the concatenated segments: succeeds exactly when
   * the range lies inside them (an empty range always succeeds), with exactly those bytes.
   */
  method CopySendRange(segs: seq<seq<Byte>>, offset: nat, length: nat) returns (r: Option<seq<Byte>>)
    ensures r.Some? <==> length == 0 || offset + length <= |Flat(segs)|
    ensures length == 0 ==> r == Some([])
    ensures r.Some? && length > 0 ==> r.value == Flat(segs)[offset..offset + length]
  {
    hide Flat;
    if length == 0 { return Some([]); }
    FlatNone(segs);
    var skipped := 0;
    var dst: seq<Byte> := [];
    for i := 0 to |segs|
      invariant skipped == |Flat(segs[..i])| && |dst| < length
      invariant dst == if skipped <= offset then [] else Flat(segs[..i])[offset..]
    {
      var seg := segs[i];
      ghost var pre := Flat(segs[..i]);
      FlatStep(segs, i);
      FlatPrefix(segs, i + 1);
      if offset >= skipped + |seg| {
        skipped := skipped + |seg|;
        continue;
      }
      var segOff := if offset > skipped then offset - skipped else 0;
      var chunk := Min(|seg| - segOff, length - |dst|);
      GatherStep(pre, seg, offset, length, dst);
      dst := dst + seg[segOff..segOff + chunk];
      if |dst| == length {
        PrefixSlice(pre + seg, Flat(segs), offset, offset + length);
        return Some(dst);
      }
      skipped := skipped + |seg|;
    }
    assert segs[..|segs|] == segs;
    r := None;
  }
}
