/** Types shared by every component of the model. */
module Basics {

  datatype Option<+T> = None | Some(value: T)

  /** One byte of a frame or of a memory region. */
  newtype Byte = x: int | 0 <= x < 256

  /** The source computes in `u32`; sums and products wrap at this modulus. */
  const U32_MOD: nat := 0x1_0000_0000

  function Min(a: nat, b: nat): nat { if a <= b then a else b }

  /** Subtraction that stops at 0, as the source guards its byte counters. */
  function SubOrZero(a: nat, b: nat): nat { if a >= b then a - b else 0 }

  /** The first `n` naturals. */
  function Range(n: nat): (r: set<nat>)
    ensures forall k: nat :: k in r <==> k < n
    ensures |r| == n
  {
    if n == 0 then {} else Range(n - 1) + {n - 1}
  }

  /** A subset of `Range(n)` never has more than `n` members, and has `n` only when it is all of it. */
  lemma SubsetOfRange(s: set<nat>, n: nat)
    requires s <= Range(n)
    ensures |s| <= n
    ensures |s| == n <==> s == Range(n)
  {
    SubsetSize(s, Range(n));
  }

  lemma {:induction false} SubsetSize<T>(a: set<T>, b: set<T>)
    requires a <= b
    ensures |a| <= |b|
    ensures |a| == |b| ==> a == b
    decreases |a|
  {
    if a == {} {
      assert b != {} ==> |b| > 0;
    } else {
      var x :| x in a;
      SubsetSize(a - {x}, b - {x});
      assert a == (a - {x}) + {x} && b == (b - {x}) + {x};
    }
  }

  /** Where the k-th entry from `head` on sits in a ring of `capacity` slots. */
  function RingAt(head: nat, k: nat, capacity: nat): nat {
    if head + k < capacity then head + k else head + k - capacity
  }

  lemma RingAtIsModulo(head: nat, k: nat, capacity: nat)
    requires head < capacity && k <= capacity
    ensures (head + k) % capacity == RingAt(head, k, capacity) < capacity || (k == capacity && RingAt(head, k, capacity) == head)
  {
    if head + k >= capacity && k < capacity {
      assert head + k == capacity + (head + k - capacity);
      assert (head + k) % capacity == head + k - capacity;
    }
  }

  /** `region` with `data` stored from byte `off` on. */
  function Write(region: seq<Byte>, off: nat, data: seq<Byte>): (r: seq<Byte>)
    requires off + |data| <= |region|
    ensures |r| == |region|
    ensures forall p | 0 <= p < |r| :: r[p] == if off <= p < off + |data| then data[p - off] else region[p]
  {
    region[..off] + data + region[off + |data|..]
  }
}
