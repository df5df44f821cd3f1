/**
 * 24-bit packet sequence numbers (kernel/ibdev.c): windowed serial arithmetic
 * in the style of section 3.2 of RFC 1982.
 */
module Psn {

  const MODULUS: int := 0x100_0000
  const HALF: int := 0x80_0000

  function Next(psn: nat): nat { (psn + 1) % MODULUS }

  /** Sign-extended 24-bit difference: bit 23 of the masked `u32` difference is the sign. */
  function Delta(a: nat, b: nat): int {
    var delta := (a - b) % MODULUS;
    if delta >= HALF then delta - MODULUS else delta
  }

  /** The PSN carried by message number `i` of a peer whose first message has PSN `base`. */
  function Of(base: nat, i: nat): nat { (base + i) % MODULUS }

  /** Inside the half-space window the 24-bit difference is the difference of the unbounded counters. */
  lemma DeltaOfCounters(base: nat, i: nat, j: nat)
    requires -HALF <= i - j < HALF
    ensures Delta(Of(base, i), Of(base, j)) == i - j
  {
    var a, b := base + i, base + j;
    assert (a % MODULUS - b % MODULUS) % MODULUS == (a - b) % MODULUS by {
      ModDifference(a, b);
    }
  }

  lemma ModDifference(a: nat, b: nat)
    ensures (a % MODULUS - b % MODULUS) % MODULUS == (a - b) % MODULUS
  {
    var qa, qb := a / MODULUS, b / MODULUS;
    assert a - b == (a % MODULUS - b % MODULUS) + (qa - qb) * MODULUS;
    ModShift(a % MODULUS - b % MODULUS, qa - qb);
  }

  lemma ModShift(x: int, k: int)
    ensures (x + k * MODULUS) % MODULUS == x % MODULUS
  {
  }

  lemma NextOf(base: nat, i: nat)
    ensures Next(Of(base, i)) == Of(base, i + 1)
  {
  }

  /** Within one half-space window different messages never share a PSN. */
  lemma OfInjective(base: nat, i: nat, j: nat)
    requires -HALF <= i - j < HALF
    requires Of(base, i) == Of(base, j)
    ensures i == j
  {
    DeltaOfCounters(base, i, j);
  }
}
