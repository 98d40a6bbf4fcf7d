/**
 Positions in a descriptor ring.
 */
module RingIndex {

  /** `k` places behind `s` in a ring of `count`. */
  function Idx(count: nat, s: nat, k: nat): (i: nat)
    requires s < count && k <= count
    ensures i < count
  {
    if s + k < count then s + k else s + k - count
  }

  lemma IdxAdd(count: nat, s: nat, a: nat, b: nat)
    requires s < count && a + b <= count
    ensures Idx(count, Idx(count, s, a), b) == Idx(count, s, a + b)
  {
  }

  lemma IdxZero(count: nat, s: nat)
    requires s < count
    ensures Idx(count, s, 0) == s
  {
  }

  lemma IdxInjective(count: nat, s: nat, a: nat, b: nat)
    requires s < count && a < count && b < count
    ensures Idx(count, s, a) == Idx(count, s, b) <==> a == b
  {
  }
}
