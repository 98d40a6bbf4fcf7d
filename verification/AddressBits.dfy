/**
 Addresses as byte strings and as bit strings.

 The trie reads an address one byte at a time and one bit at a time, most significant bit first
 (patricia.h: BIT_TEST; patricia.c: comp_with_mask). Here the byte view is what the code works on
 and the bit view is what the properties are stated about.
 */
module AddressBits {

  /** A bit string, most significant bit first. */
  type Bits = seq<bool>

  /** The address part of a prefix: a union of an IPv4 and an IPv6 address, so 16 bytes. */
  const ADDR_BYTES := 16
  const ADDR_BITS := 128

  type Address = a: seq<bv8> | |a| == ADDR_BYTES witness seq(ADDR_BYTES, _ => 0)

  /** BIT_TEST (b, 0x80 >> j) */
  predicate TestBit(b: bv8, j: nat)
    requires j < 8
  {
    if j == 0 then b & 0x80 != 0 else if j == 1 then b & 0x40 != 0
    else if j == 2 then b & 0x20 != 0 else if j == 3 then b & 0x10 != 0
    else if j == 4 then b & 0x08 != 0 else if j == 5 then b & 0x04 != 0
    else if j == 6 then b & 0x02 != 0 else b & 0x01 != 0
  }

  /** (a & m) == (b & m) for the mask m = (-1) << (8 - k) of the first k bits; a whole byte when k is 8. */
  predicate AgreeTop(a: bv8, b: bv8, k: nat)
    requires k <= 8
  {
    if k == 0 then true else if k == 1 then a & 0x80 == b & 0x80
    else if k == 2 then a & 0xC0 == b & 0xC0 else if k == 3 then a & 0xE0 == b & 0xE0
    else if k == 4 then a & 0xF0 == b & 0xF0 else if k == 5 then a & 0xF8 == b & 0xF8
    else if k == 6 then a & 0xFC == b & 0xFC else if k == 7 then a & 0xFE == b & 0xFE
    else a == b
  }

  predicate AddrBit(a: Address, i: nat)
    requires i < ADDR_BITS
  {
    TestBit(a[i / 8], i % 8)
  }

  /** The whole address as a bit string. */
  function Expand(a: Address): (s: Bits)
    ensures |s| == ADDR_BITS
    ensures forall i :: 0 <= i < ADDR_BITS ==> s[i] == AddrBit(a, i)
  {
    seq(ADDR_BITS, i requires 0 <= i < ADDR_BITS => AddrBit(a, i))
  }

  lemma XorMasks(a: bv8, b: bv8)
    ensures (a ^ b) & 0x80 != 0 <==> (a & 0x80 != 0) != (b & 0x80 != 0)
    ensures (a ^ b) & 0x40 != 0 <==> (a & 0x40 != 0) != (b & 0x40 != 0)
    ensures (a ^ b) & 0x20 != 0 <==> (a & 0x20 != 0) != (b & 0x20 != 0)
    ensures (a ^ b) & 0x10 != 0 <==> (a & 0x10 != 0) != (b & 0x10 != 0)
    ensures (a ^ b) & 0x08 != 0 <==> (a & 0x08 != 0) != (b & 0x08 != 0)
    ensures (a ^ b) & 0x04 != 0 <==> (a & 0x04 != 0) != (b & 0x04 != 0)
    ensures (a ^ b) & 0x02 != 0 <==> (a & 0x02 != 0) != (b & 0x02 != 0)
    ensures (a ^ b) & 0x01 != 0 <==> (a & 0x01 != 0) != (b & 0x01 != 0)
  {
  }

  lemma XorBit(a: bv8, b: bv8, j: nat)
    requires j < 8
    ensures TestBit(a ^ b, j) <==> TestBit(a, j) != TestBit(b, j)
  {
    XorMasks(a, b);
    if j == 0 {} else if j == 1 {} else if j == 2 {} else if j == 3 {}
    else if j == 4 {} else if j == 5 {} else if j == 6 {} else {}
  }

  lemma XorZero(a: bv8, b: bv8)
    ensures a ^ b == 0 <==> a == b
  {
  }

  /** Widening the mask by one bit asks for one more equal bit. */
  lemma WidenMask(a: bv8, b: bv8)
    ensures a & 0x80 == b & 0x80 <==> (a & 0x80 != 0) == (b & 0x80 != 0)
    ensures a & 0xC0 == b & 0xC0 <==> a & 0x80 == b & 0x80 && (a & 0x40 != 0) == (b & 0x40 != 0)
    ensures a & 0xE0 == b & 0xE0 <==> a & 0xC0 == b & 0xC0 && (a & 0x20 != 0) == (b & 0x20 != 0)
    ensures a & 0xF0 == b & 0xF0 <==> a & 0xE0 == b & 0xE0 && (a & 0x10 != 0) == (b & 0x10 != 0)
    ensures a & 0xF8 == b & 0xF8 <==> a & 0xF0 == b & 0xF0 && (a & 0x08 != 0) == (b & 0x08 != 0)
    ensures a & 0xFC == b & 0xFC <==> a & 0xF8 == b & 0xF8 && (a & 0x04 != 0) == (b & 0x04 != 0)
    ensures a & 0xFE == b & 0xFE <==> a & 0xFC == b & 0xFC && (a & 0x02 != 0) == (b & 0x02 != 0)
    ensures a == b <==> a & 0xFE == b & 0xFE && (a & 0x01 != 0) == (b & 0x01 != 0)
  {
  }

  lemma AgreeTopStep(a: bv8, b: bv8, k: nat)
    requires k < 8
    ensures AgreeTop(a, b, k + 1) <==> AgreeTop(a, b, k) && TestBit(a, k) == TestBit(b, k)
  {
    WidenMask(a, b);
  }

  /** Two bytes agree under the top-k mask exactly when their first k bits agree. */
  lemma {:induction false} TopBitsAgree(a: bv8, b: bv8, k: nat)
    requires k <= 8
    ensures AgreeTop(a, b, k) <==> forall j :: 0 <= j < k ==> TestBit(a, j) == TestBit(b, j)
  {
    if k == 0 {
    } else {
      TopBitsAgree(a, b, k - 1);
      AgreeTopStep(a, b, k - 1);
    }
  }

  /** comp_with_mask (patricia.c): whole bytes first, then the masked byte. */
  predicate CompWithMask(a: Address, d: Address, mask: nat)
    requires mask <= ADDR_BITS
  {
    a[..mask / 8] == d[..mask / 8]
    && (mask % 8 == 0 || AgreeTop(a[mask / 8], d[mask / 8], mask % 8))
  }

  lemma ByteAgree(a: Address, d: Address, m: nat, k: nat)
    requires m < ADDR_BYTES && k <= 8
    ensures AgreeTop(a[m], d[m], k) <==>
            forall i :: 8 * m <= i < 8 * m + k ==> AddrBit(a, i) == AddrBit(d, i)
  {
    TopBitsAgree(a[m], d[m], k);
    if forall i :: 8 * m <= i < 8 * m + k ==> AddrBit(a, i) == AddrBit(d, i) {
      forall j | 0 <= j < k
        ensures TestBit(a[m], j) == TestBit(d[m], j)
      {
        assert AddrBit(a, 8 * m + j) == AddrBit(d, 8 * m + j);
      }
    }
  }

  lemma PrefixEqualBits(a: Address, d: Address, mask: nat)
    requires mask <= ADDR_BITS
    ensures Expand(a)[..mask] == Expand(d)[..mask] <==>
            forall i :: 0 <= i < mask ==> AddrBit(a, i) == AddrBit(d, i)
  {
    if Expand(a)[..mask] == Expand(d)[..mask] {
      forall i | 0 <= i < mask
        ensures AddrBit(a, i) == AddrBit(d, i)
      {
        assert Expand(a)[..mask][i] == Expand(d)[..mask][i];
      }
    }
  }

  /** comp_with_mask is equality of the first `mask` bits. */
  lemma CompWithMaskIsPrefixEquality(a: Address, d: Address, mask: nat)
    requires mask <= ADDR_BITS
    ensures CompWithMask(a, d, mask) <==> Expand(a)[..mask] == Expand(d)[..mask]
  {
    PrefixEqualBits(a, d, mask);
    CompBits(a, d, mask / 8, mask % 8);
  }

  lemma CompBits(a: Address, d: Address, n: nat, k: nat)
    requires k < 8 && 8 * n + k <= ADDR_BITS
    ensures (a[..n] == d[..n] && (k == 0 || AgreeTop(a[n], d[n], k))) <==>
            forall i :: 0 <= i < 8 * n + k ==> AddrBit(a, i) == AddrBit(d, i)
  {
    if k != 0 {
      ByteAgree(a, d, n, k);
    }
    forall m | 0 <= m < n
      ensures a[m] == d[m] <==> forall i :: 8 * m <= i < 8 * m + 8 ==> AddrBit(a, i) == AddrBit(d, i)
    {
      ByteAgree(a, d, m, 8);
    }
    if a[..n] == d[..n] && (k == 0 || AgreeTop(a[n], d[n], k)) {
      forall i | 0 <= i < 8 * n + k
        ensures AddrBit(a, i) == AddrBit(d, i)
      {
        if i / 8 < n {
          assert a[i / 8] == a[..n][i / 8] == d[..n][i / 8] == d[i / 8];
        }
      }
    }
  }

  /** The loop of patricia_lookup that finds the first differing bit among the first `checkBit` bits. */
  method DifferBit(addr: Address, testAddr: Address, checkBit: nat) returns (differBit: nat)
    requires checkBit <= ADDR_BITS
    ensures differBit <= checkBit
    ensures Expand(addr)[..differBit] == Expand(testAddr)[..differBit]
    ensures differBit < checkBit ==> Expand(addr)[differBit] != Expand(testAddr)[differBit]
  {
    differBit := 0;
    var i := 0;
    while i * 8 < checkBit
      invariant 0 <= i && differBit == 8 * i <= checkBit + 7
      invariant forall k :: 0 <= k < differBit && k < ADDR_BITS ==> AddrBit(addr, k) == AddrBit(testAddr, k)
    {
      var r := addr[i] ^ testAddr[i];
      XorZero(addr[i], testAddr[i]);
      if r != 0 {
        var j := FirstSetBit(addr[i], testAddr[i]);
        differBit := i * 8 + j;
        ByteAgree(addr, testAddr, i, j);
        TopBitsAgree(addr[i], testAddr[i], j);
        break;
      }
      ByteAgree(addr, testAddr, i, 8);
      differBit := (i + 1) * 8;
      i := i + 1;
    }
    if differBit > checkBit {
      differBit := checkBit;
    }
    PrefixEqualBits(addr, testAddr, differBit);
  }

  /** The inner scan over the eight bits of a ^ b; a set bit "must be found". */
  method FirstSetBit(a: bv8, b: bv8) returns (j: nat)
    requires a ^ b != 0
    ensures j < 8 && TestBit(a, j) != TestBit(b, j)
    ensures forall k :: 0 <= k < j ==> TestBit(a, k) == TestBit(b, k)
  {
    j := 0;
    XorZero(a, b);
    while j < 8
      invariant j <= 8
      invariant forall k :: 0 <= k < j ==> TestBit(a, k) == TestBit(b, k)
    {
      XorBit(a, b, j);
      if TestBit(a ^ b, j) {
        return;
      }
      j := j + 1;
    }
    TopBitsAgree(a, b, 8);
    assert false;
  }
}
