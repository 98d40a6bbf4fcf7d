/**
 The header checksum of sfmc.c against the one's-complement sum of section 1 of RFC 1071.
 */
module Checksum {

  const MAX16 := 0xFFFF

  /** An octet. */
  type U8 = x: int | 0 <= x < 0x100

  /** The 16-bit word of two octets in network order. */
  function Word(hi: U8, lo: U8): (w: nat)
    ensures w <= MAX16
  {
    hi * 0x100 + lo
  }

  function High(w: nat): (b: U8)
    requires w <= MAX16
  {
    w / 0x100
  }

  function Low(w: nat): (b: U8)
    requires w <= MAX16
  {
    w % 0x100
  }

  /** A word read back from its octets. */
  lemma WordOfBytes(w: nat)
    requires w <= MAX16
    ensures Word(High(w), Low(w)) == w
  {
  }

  /** The 16-bit words of a byte string; an odd last byte is the high byte of its word. */
  function Words(d: seq<U8>): (ws: seq<nat>)
    ensures forall i :: 0 <= i < |ws| ==> ws[i] <= MAX16
  {
    if |d| == 0 then [] else if |d| % 2 == 1 then Words(d[..|d| - 1]) + [Word(d[|d| - 1], 0)]
    else Words(d[..|d| - 2]) + [Word(d[|d| - 2], d[|d| - 1])]
  }

  /** The integer sum of words. */
  function Total(ws: seq<nat>): nat {
    if ws == [] then 0 else Total(ws[..|ws| - 1]) + ws[|ws| - 1]
  }

  /** RFC 1071: add the carries out of the top back in until none is left. */
  function Fold(t: nat): (s: nat)
    ensures s <= MAX16
    decreases t
  {
    if t <= MAX16 then t else Fold(t % 0x1_0000 + t / 0x1_0000)
  }

  /** The one's-complement sum, and its complement. */
  function OnesSum(d: seq<U8>): (s: nat)
    ensures s <= MAX16
  {
    Fold(Total(Words(d)))
  }

  function RfcChecksum(d: seq<U8>): nat {
    MAX16 - OnesSum(d)
  }

  /** Subtract 0xFFFF until 16 bits are enough. */
  function Canon(t: nat): (s: nat)
    ensures s <= MAX16
  {
    if t <= MAX16 then t else Canon(t - MAX16)
  }

  lemma {:induction false} CanonMany(t: nat, q: nat)
    requires t > MAX16 * q
    ensures Canon(t) == Canon(t - MAX16 * q)
  {
    if q > 0 {
      CanonMany(t - MAX16, q - 1);
    }
  }

  lemma {:induction false} FoldIsCanon(t: nat)
    ensures Fold(t) == Canon(t)
    decreases t
  {
    if t > MAX16 {
      var q := t / 0x1_0000;
      FoldIsCanon(t % 0x1_0000 + q);
      CanonMany(t, q);
    }
  }

  /** Subtracting 0xFFFF once after each addition is the same as folding at the end. */
  lemma {:induction false} AddThenReduce(t: nat, w: nat)
    requires w <= MAX16
    ensures var s := Canon(t) + w; Canon(t + w) == if s > MAX16 then s - MAX16 else s
  {
    if t > MAX16 {
      AddThenReduce(t - MAX16, w);
    }
  }

  lemma TotalNext(d: seq<U8>, i: nat)
    requires i % 2 == 0 && i < |d|
    ensures i + 1 < |d| ==> Total(Words(d[..i + 2])) == Total(Words(d[..i])) + Word(d[i], d[i + 1])
    ensures Total(Words(d[..i + 1])) == Total(Words(d[..i])) + Word(d[i], 0)
  {
    hide Total, Words, Word;
    if i + 1 < |d| {
      TotalLast(d[..i + 2]);
      assert d[..i + 2][..i] == d[..i];
    }
    TotalLast(d[..i + 1]);
    assert d[..i + 1][..i] == d[..i];
  }

  const U32 := 0x1_0000_0000

  /** One addition of the loop, on 32 bits. */
  method Accumulate(sum: nat, w: nat, ghost t: nat) returns (sum': nat)
    requires sum < U32 && w <= MAX16
    ensures sum' < U32 && (sum == Canon(t) ==> sum' == Canon(t + w))
  {
    AddThenReduce(t, w);
    sum' := (sum + w) % U32;
    if sum' > MAX16 {
      sum' := sum' - MAX16;
    }
  }

  /** ipchecksum. The value is the one whose octets in network order are stored. From a start within 16 bits, such as the 0 of its only
      caller, it is the checksum of section 1 of RFC 1071. */
  method IpChecksum(data: seq<U8>, start: nat) returns (c: nat)
    requires |data| <= MAX16 && start < U32
    ensures c <= MAX16 && (start <= MAX16 ==> c == MAX16 - Fold(start + Total(Words(data))))
  {
    hide Words, Total, Fold, Word;
    var sum, i := start, 0;
    var even := |data| - |data| % 2;
    NothingYet(data);
    while i < even
      invariant 0 <= i <= even && i % 2 == 0 && 0 <= sum < U32
      invariant start <= MAX16 ==> sum == Canon(start + Total(Words(data[..i])))
    {
      TotalNext(data, i);
      sum := Accumulate(sum, Word(data[i], data[i + 1]), start + Total(Words(data[..i])));
      i := i + 2;
    }
    ghost var all := start + Total(Words(data));
    if i < |data| {
      TotalNext(data, i);
      assert data[..i + 1] == data;
      sum := Accumulate(sum, Word(data[i], 0), start + Total(Words(data[..i])));
    } else {
      assert data[..i] == data;
    }
    FoldIsCanon(all);
    c := MAX16 - sum % (MAX16 + 1);
  }

  lemma NothingYet(d: seq<U8>)
    ensures Total(Words(d[..0])) == 0
  {
  }

  // ---- order ---------------------------------------------------------------------------------------------------------

  lemma {:induction false} TotalRemove(ws: seq<nat>, i: nat)
    requires i < |ws|
    ensures Total(ws) == ws[i] + Total(ws[..i] + ws[i + 1..])
    decreases |ws|
  {
    var n := |ws| - 1;
    var rest := ws[..i] + ws[i + 1..];
    if i == n {
      assert rest == ws[..n];
    } else {
      TotalRemove(ws[..n], i);
      var inner := ws[..n][..i] + ws[..n][i + 1..];
      assert ws[i + 1..] == ws[..n][i + 1..] + [ws[n]];
      assert rest == inner + [ws[n]];
      assert rest[..|inner|] == inner;
    }
  }

  lemma MultisetWithout(vs: seq<nat>, i: nat)
    requires i < |vs|
    ensures multiset(vs[..i] + vs[i + 1..]) == multiset(vs) - multiset{vs[i]}
  {
    assert vs == vs[..i] + [vs[i]] + vs[i + 1..];
  }

  lemma {:induction false} TotalOrder(ws: seq<nat>, vs: seq<nat>)
    requires multiset(ws) == multiset(vs)
    ensures Total(ws) == Total(vs)
    decreases |ws|
  {
    if ws == [] {
      assert |vs| == |multiset(vs)| == 0;
    } else {
      var n := |ws| - 1;
      MultisetWithout(ws, n);
      assert ws[..n] + ws[n + 1..] == ws[..n];
      assert ws[n] in multiset(vs);
      var i :| 0 <= i < |vs| && vs[i] == ws[n];
      MultisetWithout(vs, i);
      TotalOrder(ws[..n], vs[..i] + vs[i + 1..]);
      TotalRemove(vs, i);
    }
  }

  /** The checksum does not depend on the order of the words. */
  lemma ChecksumOrder(d: seq<U8>, e: seq<U8>)
    requires multiset(Words(d)) == multiset(Words(e))
    ensures RfcChecksum(d) == RfcChecksum(e)
  {
    TotalOrder(Words(d), Words(e));
  }

  // ---- verification --------------------------------------------------------------------------------------------------

  /** Store a word in network order. */
  function Stored(d: seq<U8>, at: nat, w: nat): (r: seq<U8>)
    requires at + 1 < |d| && w <= MAX16
    ensures |r| == |d|
  {
    d[at := High(w)][at + 1 := Low(w)]
  }

  lemma {:induction false} TotalStored(d: seq<U8>, at: nat, w: nat)
    requires at + 1 < |d| && at % 2 == 0 && w <= MAX16
    ensures Total(Words(Stored(d, at, w))) == Total(Words(d)) - Word(d[at], d[at + 1]) + w
    decreases |d|
  {
    hide Words, Total, Word;
    var n, e := |d|, Stored(d, at, w);
    WordOfBytes(w);
    TotalLast(d);
    TotalLast(e);
    if n % 2 == 1 {
      TotalStored(d[..n - 1], at, w);
      assert e[..n - 1] == Stored(d[..n - 1], at, w);
    } else if at == n - 2 {
      assert e[..n - 2] == d[..n - 2];
    } else {
      TotalStored(d[..n - 2], at, w);
      assert e[..n - 2] == Stored(d[..n - 2], at, w);
    }
  }

  lemma TotalLast(d: seq<U8>)
    requires |d| > 0
    ensures var n := |d|;
            Total(Words(d)) == if n % 2 == 1 then Total(Words(d[..n - 1])) + Word(d[n - 1], 0)
                               else Total(Words(d[..n - 2])) + Word(d[n - 2], d[n - 1])
  {
  }

  /** A checksum stored in its zeroed, aligned field makes the checksum of the whole zero. */
  lemma StoredChecksumVerifies(d: seq<U8>, at: nat)
    requires at + 1 < |d| && at % 2 == 0 && d[at] == 0 && d[at + 1] == 0
    ensures RfcChecksum(Stored(d, at, RfcChecksum(d))) == 0
  {
    hide Words, Total, Fold, Canon, Word, Stored;
    var t, c := Total(Words(d)), RfcChecksum(d);
    TotalStored(d, at, c);
    ZeroWord();
    FoldIsCanon(t);
    FoldIsCanon(t + c);
    ComplementFills(t);
  }

  lemma ZeroWord()
    ensures Word(0, 0) == 0
  {
  }

  lemma {:induction false} ComplementFills(t: nat)
    ensures Canon(t + (MAX16 - Canon(t))) == MAX16
  {
    if t > MAX16 {
      ComplementFills(t - MAX16);
    }
  }
}
