/**
 * What goes wrong in the native receive engine: frames no honest send loop emits, that is malformed headers and fragments
 * that contradict what has already come in under the same sequence number, and copies into the receive buffer that fail.
 * Any header and any payload may arrive here.
 */
module RxRefusals {
  import opened Basics
  import opened Fragment
  import opened NativeData
  import opened RxSpec
  import Psn

  /** The immediate value a header carries: the `rkey` field of a SEND with immediate (opcode 6). */
  function CarriedImm(h: DataHeader): Option<nat> { if h.opcode == 6 then Some(h.rkey) else None }

  /** An acceptable SEND header in numbers: LAST exactly on the bytes that end a message of at most 16 MiB, no unknown flags. */
  predicate WellFormed(h: DataHeader) {
    && h.remoteAddr == 0 && h.flags < 4 && (h.opcode == 6 || h.rkey == 0)
    && h.fragOffset + h.length <= h.imm <= 16777216
    && (if h.flags % 2 == 1 then h.fragOffset + h.length == h.imm else 0 < h.length < h.imm - h.fragOffset)
  }

  /** A striped fragment must besides be one of the pieces the send loop cuts. */
  predicate Acceptable(h: DataHeader, striping: bool) {
    WellFormed(h) && (striping ==> IsCut(h.imm, h.fragOffset, h.length, h.flags % 2 == 1))
  }

  /** The frame is answered with an error and leaves no other trace. */
  predicate RefusedAlone(s: Rx, t: Rx, h: DataHeader) {
    t == s.(acks := s.acks + [Ack(h.srcQp, h.psn % 16777216, AckError)])
  }

  lemma MalformedIsRefused(s: Rx, striping: bool, h: DataHeader, payload: seq<Byte>, env: Env)
    requires |payload| == h.length && h.length < U32_MOD && h.imm < U32_MOD && !Acceptable(h, striping)
    requires s.rnr.None? || !WellFormed(h)
    ensures RefusedAlone(s, HandleSend(s, striping, h, payload, env), h)
  {
    if WellFormed(h) { ShapeInNumbers(h.imm, h.fragOffset, h.length, h.Last()); }
    hide HandleOrdered, Psn.Delta, BufferFragment, AcceptStriped, Drain;
  }

  /**
   * A fragment under the PSN being received that names another sender, length or immediate value ends the open message:
   * its receive completes with a protection error, both are answered with errors, and the next PSN is expected.
   */
  lemma ContradictionEndsOpen(s: Rx, striping: bool, h: DataHeader, payload: seq<Byte>, env: Env)
    requires |payload| == h.length && h.imm < U32_MOD && s.rnr.None? && Acceptable(h, striping)
    requires s.active.Some? && s.active.value.psn == s.expected == h.psn % 16777216
    requires var a := s.active.value; (a.srcQp, a.totalLen, a.imm) != (h.srcQp, h.imm, CarriedImm(h))
    ensures var t, a := HandleSend(s, striping, h, payload, env), s.active.value;
            && t.active.None? && t.reorder == s.reorder && t.recvs == s.recvs && t.rnr.None?
            && t.cq == s.cq + [Wc(a.wqe, ProtErr, a.delivered, a.srcQp, a.imm)]
            && t.acks == s.acks + [Ack(a.srcQp, a.psn, AckError), Ack(h.srcQp, h.psn % 16777216, AckError)]
            && t.expected == (s.expected + 1) % 16777216
  {
    ShapeInNumbers(h.imm, h.fragOffset, h.length, h.Last());
    Psn.DeltaOfCounters(s.expected, 0, 0);
    hide BufferFragment, AcceptStriped, AcceptOrdered, Drain, HistStore, FragmentShape, IsCut;
  }

  /** The fragment disagrees with the waiting message `m`, or repeats one of its fragments with other bytes. */
  predicate Contradicts(m: Buffered, h: DataHeader, payload: seq<Byte>) {
    || (m.srcQp, m.totalLen, m.imm) != (h.srcQp, h.imm, CarriedImm(h))
    || (h.fragOffset / 4048 in m.seen && payload != [] && Frag(h.fragOffset, payload) !in m.frags)
  }

  lemma {:induction false} MatchIsStored(frags: seq<Frag>, offset: nat, payload: seq<Byte>)
    requires FragMatches(frags, offset, payload)
    ensures Frag(offset, payload) in frags
  {
    if frags != [] && frags[0].offset != offset { MatchIsStored(frags[1..], offset, payload); }
  }

  /** A contradiction of a message that waits drops all of it, and only it, and is answered with an error. */
  lemma ContradictionDropsWaiting(s: Rx, striping: bool, h: DataHeader, payload: seq<Byte>, env: Env, k: nat)
    requires |payload| == h.length && h.imm < U32_MOD && s.rnr.None?
    requires Acceptable(h, striping) && IsCut(h.imm, h.fragOffset, h.length, h.Last())
    requires 0 < Psn.Delta(h.psn % 16777216, s.expected) < 1024
    requires s.active.Some? ==> s.active.value.psn == s.expected
    requires Find(s.reorder, h.psn % 16777216) == Some(k) && Contradicts(s.reorder[k], h, payload)
    ensures var t := HandleSend(s, striping, h, payload, env);
            t == s.(reorder := s.reorder[..k] + s.reorder[k + 1..], acks := s.acks + [Ack(h.srcQp, h.psn % 16777216, AckError)])
  {
    ShapeInNumbers(h.imm, h.fragOffset, h.length, h.Last());
    var m := s.reorder[k];
    if FragMatches(m.frags, h.fragOffset, payload) { MatchIsStored(m.frags, h.fragOffset, payload); }
    hide AcceptStriped, AcceptOrdered, Drain, HistStore, FragmentShape, IsCut, FragMatches, StoreFragment, Find;
  }

  // ----- overlapping fragments -----

  /** The header of what is left of a fragment whose first `done - fragOffset` bytes are already there. */
  function Rest(h: DataHeader, done: nat): DataHeader
    requires h.fragOffset <= done <= h.fragOffset + h.length
  {
    h.(fragOffset := done, length := h.fragOffset + h.length - done)
  }

  /** Without striping, a fragment of the open message that overlaps what has come in counts as its missing rest alone. */
  lemma OverlapIsTrimmed(s: Rx, h: DataHeader, payload: seq<Byte>, env: Env)
    requires |payload| == h.length && s.rnr.None? && WellFormed(h) && s.active.Some?
    requires var a := s.active.value;
             && a.psn == s.expected == h.psn % 16777216 && (a.srcQp, a.totalLen, a.imm) == (h.srcQp, h.imm, CarriedImm(h))
             && h.fragOffset < a.received < h.fragOffset + h.length
    ensures var done := s.active.value.received;
            HandleSend(s, false, h, payload, env) == HandleSend(s, false, Rest(h, done), payload[done - h.fragOffset..], env)
  {
    Psn.DeltaOfCounters(s.expected, 0, 0);
    hide AcceptOrdered, BufferFragment, Drain;
  }

  /** Without striping, a fragment of the open message that lies behind or beyond what is next changes nothing. */
  lemma OutOfPlaceIsIgnored(s: Rx, h: DataHeader, payload: seq<Byte>, env: Env)
    requires |payload| == h.length && s.rnr.None? && WellFormed(h) && s.active.Some?
    requires var a := s.active.value;
             && a.psn == s.expected == h.psn % 16777216 && (a.srcQp, a.totalLen, a.imm) == (h.srcQp, h.imm, CarriedImm(h))
             && (h.fragOffset > a.received || (h.fragOffset < a.received && h.fragOffset + h.length <= a.received))
    ensures HandleSend(s, false, h, payload, env) == s
  {
    Psn.DeltaOfCounters(s.expected, 0, 0);
    hide AcceptOrdered, BufferFragment, Drain;
  }

  // ----- failing copies -----

  /** The piece has bytes that fall into the buffer, and copying them there fails. */
  predicate HitsFault(w: Wqe, offset: nat, data: seq<Byte>, faults: set<(nat, nat)>) {
    data != [] && offset < |w.region| && (w.id, offset) in faults
  }

  lemma {:induction false} CopyFailsExactly(w: Wqe, frags: seq<Frag>, faults: set<(nat, nat)>)
    ensures var c := CopyFrags(w, frags, faults);
            && c.wqe.id == w.id && |c.wqe.region| == |w.region|
            && (c.failed <==> exists f :: f in frags && HitsFault(w, f.offset, f.data, faults))
  {
    if frags != [] {
      var init, f := frags[..|frags| - 1], frags[|frags| - 1];
      CopyFailsExactly(w, init, faults);
      assert frags == init + [f];
    }
  }

  /** A buffered message fails if and only if one of its copies does, then it is too long or not, and else it succeeds. */
  lemma WaitingOutcome(m: Buffered, w: Wqe, faults: set<(nat, nat)>)
    ensures BufferedWc(m, w, faults).status
            == if exists f :: f in m.frags && HitsFault(w, f.offset, f.data, faults) then ProtErr
               else if m.totalLen > |w.region| then LenErr
               else Success
  {
    CopyFailsExactly(w, m.frags, faults);
  }

  /** The message being received starts out too long or not, and fails from the first copy on that does. */
  lemma OpenOutcome(w: Wqe, h: DataHeader, psn: nat, a: Active, offset: nat, data: seq<Byte>, faults: set<(nat, nat)>)
    ensures StartActive(w, h, psn).status == if h.imm > |w.region| then LenErr else Success
    ensures Absorb(a, offset, data, faults).status == if HitsFault(a.wqe, offset, data, faults) then ProtErr else a.status
  {
  }

  // ----- pruning -----

  /** A message that waits although its PSN is behind the expected one is dropped and answered, every other one stays. */
  lemma {:induction false} PrunesExactly(list: seq<Buffered>, expected: nat, h: map<nat, HistEntry>)
    ensures forall m :: m in Kept(list, expected) <==> m in list && Psn.Delta(m.psn, expected) >= 0
    ensures |Kept(list, expected)| + |StaleAcks(list, expected, h)| == |list|
    ensures forall a | a in StaleAcks(list, expected, h) :: exists m ::
              m in list && Psn.Delta(m.psn, expected) < 0 && a == Ack(m.srcQp, m.psn, DuplicateStatus(h, m.psn))
  {
    hide DuplicateStatus, Psn.Delta;
    if list != [] {
      var init := list[..|list| - 1];
      PrunesExactly(init, expected, h);
      assert list == init + [list[|list| - 1]];
    }
  }
}
