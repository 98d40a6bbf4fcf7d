/**
 The flow-director hashes of ixgbe_82599.c. The signature hash runs two keys through one pass; the perfect-filter hash runs one.
 Both agree, bit by bit, with the parity that defines the hash of one key.
 */
module FlowHash {

  /** A 32-bit word, least significant bit first. */
  type Word = w: seq<bool> | |w| == 32 witness seq(32, _ => false)

  function Zero(): (r: Word)
    ensures forall i {:trigger r[i]} :: 0 <= i < 32 ==> !r[i]
  {
    seq(32, _ => false)
  }

  function Xor(a: Word, b: Word): (r: Word)
    ensures forall i {:trigger r[i]} :: 0 <= i < 32 ==> r[i] == (a[i] != b[i])
  {
    seq(32, i requires 0 <= i < 32 => a[i] != b[i])
  }

  function Or(a: Word, b: Word): (r: Word)
    ensures forall i {:trigger r[i]} :: 0 <= i < 32 ==> r[i] == (a[i] || b[i])
  {
    seq(32, i requires 0 <= i < 32 => a[i] || b[i])
  }

  function And(a: Word, b: Word): (r: Word)
    ensures forall i {:trigger r[i]} :: 0 <= i < 32 ==> r[i] == (a[i] && b[i])
  {
    seq(32, i requires 0 <= i < 32 => a[i] && b[i])
  }

  function Shr(a: Word, n: nat): (r: Word)
    ensures forall i {:trigger r[i]} :: 0 <= i < 32 ==> r[i] == (i + n < 32 && a[i + n])
  {
    seq(32, i requires 0 <= i < 32 => i + n < 32 && a[i + n])
  }

  function Shl(a: Word, n: nat): (r: Word)
    ensures forall i {:trigger r[i]} :: 0 <= i < 32 ==> r[i] == (i >= n && a[i - n])
  {
    seq(32, i requires 0 <= i < 32 => i >= n && a[i - n])
  }

  /** ntohl on a little-endian host */
  function Ntohl(a: Word): (r: Word)
    ensures forall i {:trigger r[i]} :: 0 <= i < 32 ==> r[i] == a[24 - i / 8 * 8 + i % 8]
  {
    seq(32, i requires 0 <= i < 32 => a[24 - i / 8 * 8 + i % 8])
  }

  // ---- the definition ------------------------------------------------------------------------------------------------

  /** The words that are hashed: `first` is the low word for key bit 0, before the flow bits enter it. */
  datatype Stream = Stream(first: Word, lo: Word, hi: Word)

  /** The stream of an input dword (flow type, VM pool, VLAN) and a common dword, both in network order. */
  function StreamOf(input: Word, common: Word): Stream {
    var flow, c := Ntohl(input), Ntohl(common);
    var swapped := Or(Shr(c, 16), Shl(c, 16));
    Stream(swapped, Xor(swapped, Xor(flow, Shl(flow, 16))), Xor(c, Xor(flow, Shr(flow, 16))))
  }

  function Low(s: Stream, n: nat): Word {
    if n == 0 then s.first else s.lo
  }

  /** Bit `j` of the hash of one key: the parity of the stream bits at distance `j` from the key bits that are set. Key bits 0 to n
      and 16 to 16 + n are counted. */
  function Parity(key: Word, s: Stream, j: nat, n: nat): bool
    requires j < 16 && n < 16
  {
    var here := (key[n] && Low(s, n)[n + j]) != (key[n + 16] && s.hi[n + j]);
    if n == 0 then here else Parity(key, s, j, n - 1) != here
  }

  // ---- one stream ----------------------------------------------------------------------------------------------------

  /** Byte `k` in memory, from which the lowest address counts, is the highest but `k` of the value in host order. */
  lemma NtohlBytes(a: Word, k: nat, j: nat)
    requires k < 4 && j < 8
    ensures Ntohl(a)[8 * (3 - k) + j] == a[8 * k + j]
  {
    assert (8 * (3 - k) + j) / 8 == 3 - k && (8 * (3 - k) + j) % 8 == j;
  }

  function Xor3(a: bool, b: bool, c: bool): bool {
    (a != b) != c
  }

  /** Bit `i` of the 48-bit stream of a common word and a flow word, both in host order: the common word over and over, from its middle,
      with the flow word added at bit 0 and again at bit 16. */
  function StreamBit(flow: Word, c: Word, i: nat): bool
    requires i < 48
  {
    Xor3(c[(i + 16) % 32], i < 32 && flow[i], i >= 16 && flow[i - 16])
  }

  /** The stream bit that key bit `k` selects for hash bit `j`; for key bit 0 the flow word has not come in yet. */
  function Selected(flow: Word, c: Word, k: nat, j: nat): bool
    requires k < 32 && j < 16
  {
    if k == 0 then c[j + 16] else StreamBit(flow, c, k + j)
  }

  /** The parity of the bits that `n` key bits from `from` on select. */
  function Span(key: Word, flow: Word, c: Word, j: nat, from: nat, n: nat): bool
    requires j < 16 && from + n <= 32
  {
    if n == 0 then false else Span(key, flow, c, j, from, n - 1) != (key[from + n - 1] && Selected(flow, c, from + n - 1, j))
  }

  /** Bit `j` of the hash of one key over all its 32 bits. */
  function Reference(key: Word, input: Word, common: Word, j: nat): bool
    requires j < 16
  {
    Span(key, Ntohl(input), Ntohl(common), j, 0, 32)
  }

  lemma {:induction false} SpanJoin(key: Word, flow: Word, c: Word, j: nat, from: nat, a: nat, b: nat)
    requires j < 16 && from + a + b <= 32
    ensures Span(key, flow, c, j, from, a + b) == (Span(key, flow, c, j, from, a) != Span(key, flow, c, j, from + a, b))
  {
    if b > 0 {
      SpanJoin(key, flow, c, j, from, a, b - 1);
    }
  }

  /** The two words that are hashed are windows of the one stream, 16 bits apart. */
  lemma Windows(input: Word, common: Word, i: nat)
    requires i < 32
    ensures var s := StreamOf(input, common);
            s.lo[i] == StreamBit(Ntohl(input), Ntohl(common), i) && s.hi[i] == StreamBit(Ntohl(input), Ntohl(common), i + 16)
    ensures i < 16 ==> StreamOf(input, common).lo[i + 16] == StreamOf(input, common).hi[i]
    ensures i < 16 ==> StreamOf(input, common).first[i] == Ntohl(common)[i + 16]
  {
    hide Ntohl;
    var flow, c := Ntohl(input), Ntohl(common);
    var swapped := Or(Shr(c, 16), Shl(c, 16));
    assert swapped[i] == c[(i + 16) % 32];
    assert i < 16 ==> swapped[i + 16] == c[i];
    assert (i + 16 + 16) % 32 == i;
  }

  /** The hash by pairs of key bits is the parity over all of them. */
  lemma {:induction false} ParityIsSpan(key: Word, input: Word, common: Word, j: nat, n: nat)
    requires j < 16 && n < 16
    ensures var flow, c := Ntohl(input), Ntohl(common);
            Parity(key, StreamOf(input, common), j, n) == (Span(key, flow, c, j, 0, n + 1) != Span(key, flow, c, j, 16, n + 1))
  {
    hide Ntohl, StreamOf, StreamBit;
    var flow, c, s := Ntohl(input), Ntohl(common), StreamOf(input, common);
    Windows(input, common, n + j);
    Windows(input, common, j);
    assert Low(s, n)[n + j] == Selected(flow, c, n, j) && s.hi[n + j] == Selected(flow, c, n + 16, j);
    if n > 0 {
      ParityIsSpan(key, input, common, j, n - 1);
    }
  }

  /** Bit `j` of the hash is the parity of the stream bits at distance `j` from the 32 key bits. */
  lemma ParityIsReference(key: Word, input: Word, common: Word, j: nat)
    requires j < 16
    ensures Parity(key, StreamOf(input, common), j, 15) == Reference(key, input, common, j)
  {
    hide Span, Parity;
    ParityIsSpan(key, input, common, j, 15);
    SpanJoin(key, Ntohl(input), Ntohl(common), j, 0, 16, 16);
  }

  // ---- the fused pass ------------------------------------------------------------------------------------------------

  /** The accumulators of the fused pass hold a bit row `hb` for the bucket key, to end up in the lower half, and `hs` for the
      signature key, to end up in the upper half. */
  ghost predicate Tracks(common: Word, bucket: Word, sig: Word, hb: seq<bool>, hs: seq<bool>) {
    && |hb| == |hs| == 16
    && (forall j {:trigger hb[j]} :: 0 <= j < 16 ==> hb[j] == (bucket[j] != common[j]))
    && (forall j {:trigger hs[j]} :: 0 <= j < 16 ==> hs[j] == (sig[j + 16] != common[j]))
  }

  ghost function Rows(key: Word, s: Stream, n: nat): (h: seq<bool>)
    requires n < 16
    ensures |h| == 16 && forall j {:trigger h[j]} :: 0 <= j < 16 ==> h[j] == Parity(key, s, j, n)
  {
    seq(16, j requires 0 <= j < 16 => Parity(key, s, j, n))
  }

  /** What key bit `k` adds at step `n`, from the word `x`. */
  ghost function Added(h: seq<bool>, key: Word, x: Word, k: nat, n: nat): (r: seq<bool>)
    requires |h| == 16 && n < 16 && k < 32
    ensures |r| == 16 && forall j {:trigger r[j]} :: 0 <= j < 16 ==> r[j] == (h[j] != (key[k] && x[n + j]))
  {
    seq(16, j requires 0 <= j < 16 => h[j] != (key[k] && x[n + j]))
  }

  /** Half of IXGBE_COMPUTE_SIG_HASH_ITERATION: the word `x` with key bit `k`. */
  method Half(bucketKey: Word, sigKey: Word, x: Word, k: nat, n: nat, common: Word, bucket: Word, sig: Word, ghost hb: seq<bool>, ghost hs: seq<bool>)
    returns (common': Word, bucket': Word, sig': Word)
    requires n < 16 && k < 32 && Tracks(common, bucket, sig, hb, hs)
    ensures Tracks(common', bucket', sig', Added(hb, bucketKey, x, k, n), Added(hs, sigKey, x, k, n))
  {
    common', bucket', sig' := common, bucket, sig;
    if And(bucketKey, sigKey)[k] {
      common' := Xor(common, Shr(x, n));
    } else if bucketKey[k] {
      bucket' := Xor(bucket, Shr(x, n));
    } else if sigKey[k] {
      sig' := Xor(sig, Shl(x, 16 - n));
    }
  }

  /** IXGBE_COMPUTE_SIG_HASH_ITERATION */
  method Iteration(bucketKey: Word, sigKey: Word, lo: Word, hi: Word, n: nat, common: Word, bucket: Word, sig: Word, ghost hb: seq<bool>, ghost hs: seq<bool>)
    returns (common': Word, bucket': Word, sig': Word)
    requires n < 16 && |hb| == |hs| == 16 && Tracks(common, bucket, sig, hb, hs)
    ensures Tracks(common', bucket', sig', Added(Added(hb, bucketKey, lo, n, n), bucketKey, hi, n + 16, n),
                   Added(Added(hs, sigKey, lo, n, n), sigKey, hi, n + 16, n))
  {
    hide Tracks;
    common', bucket', sig' := Half(bucketKey, sigKey, lo, n, n, common, bucket, sig, hb, hs);
    common', bucket', sig' := Half(bucketKey, sigKey, hi, n + 16, n, common', bucket', sig', Added(hb, bucketKey, lo, n, n), Added(hs, sigKey, lo, n, n));
  }

  lemma RowsNext(key: Word, s: Stream, n: nat)
    requires 0 < n < 16
    ensures Rows(key, s, n) == Added(Added(Rows(key, s, n - 1), key, s.lo, n, n), key, s.hi, n + 16, n)
  {
    var l := Added(Rows(key, s, n - 1), key, s.lo, n, n);
    var r := Added(l, key, s.hi, n + 16, n);
    forall j | 0 <= j < 16
      ensures Rows(key, s, n)[j] == r[j]
    {
      assert l[j] == (Rows(key, s, n - 1)[j] != (key[n] && s.lo[n + j]));
    }
  }

  lemma RowsFirst(key: Word, s: Stream)
    ensures Rows(key, s, 0) == Added(Added(Zero()[..16], key, s.first, 0, 0), key, s.hi, 16, 0)
  {
    var l := Added(Zero()[..16], key, s.first, 0, 0);
    var r := Added(l, key, s.hi, 16, 0);
    forall j | 0 <= j < 16
      ensures Rows(key, s, 0)[j] == r[j]
    {
      assert l[j] == (key[0] && s.first[j]);
    }
  }

  /** ixgbe_atr_compute_sig_hash_82599, for any two keys and any 16-bit mask: the two single-key hashes side by side. */
  method SigHash(input: Word, common: Word, bucketKey: Word, sigKey: Word, mask: Word) returns (r: Word)
    requires forall i :: 16 <= i < 32 ==> !mask[i]
    ensures forall j :: 0 <= j < 16 ==> r[j] == (mask[j] && Reference(bucketKey, input, common, j))
    ensures forall j :: 16 <= j < 32 ==> r[j] == (mask[j - 16] && Reference(sigKey, input, common, j - 16))
  {
    hide Tracks, Parity, Reference;
    ghost var w := StreamOf(input, common);
    var flow, hi := Ntohl(input), Ntohl(common);
    var lo := Or(Shr(hi, 16), Shl(hi, 16));
    hi := Xor(hi, Xor(flow, Shr(flow, 16)));
    var c, b, s := Zero(), Zero(), Zero();
    TracksNothing();
    c, b, s := Iteration(bucketKey, sigKey, lo, hi, 0, c, b, s, Zero()[..16], Zero()[..16]);
    RowsFirst(bucketKey, w);
    RowsFirst(sigKey, w);
    lo := Xor(lo, Xor(flow, Shl(flow, 16)));
    for n := 1 to 16
      invariant Tracks(c, b, s, Rows(bucketKey, w, n - 1), Rows(sigKey, w, n - 1))
    {
      RowsNext(bucketKey, w, n);
      RowsNext(sigKey, w, n);
      c, b, s := Iteration(bucketKey, sigKey, lo, hi, n, c, b, s, Rows(bucketKey, w, n - 1), Rows(sigKey, w, n - 1));
    }
    r := Combine(c, b, s, mask, Rows(bucketKey, w, 15), Rows(sigKey, w, 15));
    forall j | 0 <= j < 16
      ensures r[j] == (mask[j] && Reference(bucketKey, input, common, j)) && r[j + 16] == (mask[j] && Reference(sigKey, input, common, j))
    {
      ParityIsReference(bucketKey, input, common, j);
      ParityIsReference(sigKey, input, common, j);
    }
  }

  lemma TracksNothing()
    ensures Tracks(Zero(), Zero(), Zero(), Zero()[..16], Zero()[..16])
  {
  }

  /** The end of the fused pass. */
  method Combine(common: Word, bucket: Word, sig: Word, mask: Word, ghost hb: seq<bool>, ghost hs: seq<bool>) returns (r: Word)
    requires Tracks(common, bucket, sig, hb, hs) && forall i :: 16 <= i < 32 ==> !mask[i]
    ensures forall j :: 0 <= j < 16 ==> r[j] == (mask[j] && hb[j])
    ensures forall j :: 16 <= j < 32 ==> r[j] == (mask[j - 16] && hs[j - 16])
  {
    var b := And(Xor(bucket, common), mask);
    var s := And(Xor(sig, Shl(common, 16)), Shl(mask, 16));
    r := Xor(s, b);
  }

  // ---- the perfect-filter hash ---------------------------------------------------------------------------------------

  const DWORDS := 11

  function XorAll(ws: seq<Word>): Word {
    if ws == [] then Zero() else Xor(XorAll(ws[..|ws| - 1]), ws[|ws| - 1])
  }

  function Masked(input: seq<Word>, mask: seq<Word>): (r: seq<Word>)
    requires |input| == |mask| == DWORDS
    ensures |r| == DWORDS && forall i :: 0 <= i < DWORDS ==> r[i] == And(input[i], mask[i])
  {
    seq(DWORDS, i requires 0 <= i < DWORDS => And(input[i], mask[i]))
  }

  /** The stream of a masked input. */
  function PerfectStream(m: seq<Word>): Stream
    requires |m| == DWORDS
  {
    StreamOf(m[0], XorAll(m[1..]))
  }

  /** bkt_hash is the upper half of the last dword and gets the lower 13 bits of the hash. */
  function WithHash(w: Word, h: seq<bool>): (r: Word)
    requires |h| == 16
    ensures forall i {:trigger r[i]} :: 0 <= i < 16 ==> r[i] == w[i]
    ensures forall i {:trigger r[i]} :: 16 <= i < 32 ==> r[i] == (i < 29 && h[i - 16])
  {
    seq(32, i requires 0 <= i < 32 => if i < 16 then w[i] else i < 29 && h[i - 16])
  }

  /** The result of ixgbe_atr_compute_perfect_hash_82599. */
  ghost function Perfect(input: seq<Word>, mask: seq<Word>, key: Word): (r: seq<Word>)
    requires |input| == |mask| == DWORDS
    ensures |r| == DWORDS
  {
    Hashed(Masked(input, mask), key)
  }

  ghost function Hashed(m: seq<Word>, key: Word): (r: seq<Word>)
    requires |m| == DWORDS
    ensures |r| == DWORDS
  {
    m[10 := WithHash(m[10], Rows(key, PerfectStream(m), 15))]
  }

  ghost predicate Holds(bucket: Word, h: seq<bool>) {
    |h| == 16 && forall j {:trigger h[j]} :: 0 <= j < 16 ==> h[j] == bucket[j]
  }

  /** IXGBE_COMPUTE_BKT_HASH_ITERATION */
  method BucketIteration(key: Word, lo: Word, hi: Word, n: nat, bucket: Word, ghost h: seq<bool>) returns (bucket': Word)
    requires n < 16 && |h| == 16 && Holds(bucket, h)
    ensures Holds(bucket', Added(Added(h, key, lo, n, n), key, hi, n + 16, n))
  {
    bucket' := bucket;
    ghost var mid := Added(h, key, lo, n, n);
    if key[n] {
      bucket' := Xor(bucket', Shr(lo, n));
    }
    assert Holds(bucket', mid);
    if key[n + 16] {
      bucket' := Xor(bucket', Shr(hi, n));
    }
  }

  /** ixgbe_atr_compute_perfect_hash_82599 masks its input in place and stores the hash in it. */
  method PerfectHash(input: array<Word>, mask: array<Word>, key: Word)
    requires input.Length == mask.Length == DWORDS && input != mask
    modifies input
    ensures input[..] == Perfect(old(input[..]), mask[..], key)
  {
    for i := 0 to DWORDS
      invariant forall j :: 0 <= j < DWORDS ==> input[j] == if j < i then And(old(input[j]), mask[j]) else old(input[j])
    {
      input[i] := And(input[i], mask[i]);
    }
    ghost var m := Masked(old(input[..]), mask[..]);
    assert input[..] == m;
    var hiDword := Zero();
    assert m[1..1] == [];
    for i := 1 to DWORDS
      invariant hiDword == XorAll(m[1..i])
    {
      assert m[1..i + 1][..i - 1] == m[1..i];
      hiDword := Xor(hiDword, input[i]);
    }
    assert m[1..DWORDS] == m[1..];
    var bucket := BucketHash(input[0], hiDword, key);
    input[10] := WithHash(input[10], bucket[..16]);
    assert bucket[..16] == Rows(key, PerfectStream(m), 15);
    assert input[..] == m[10 := WithHash(m[10], bucket[..16])];
  }

  method BucketHash(input: Word, common: Word, key: Word) returns (bucket: Word)
    ensures Holds(bucket, Rows(key, StreamOf(input, common), 15))
  {
    hide Holds, Parity;
    ghost var w := StreamOf(input, common);
    var flow, hi := Ntohl(input), Ntohl(common);
    var lo := Or(Shr(hi, 16), Shl(hi, 16));
    hi := Xor(hi, Xor(flow, Shr(flow, 16)));
    HoldsNothing();
    RowsFirst(key, w);
    bucket := BucketIteration(key, lo, hi, 0, Zero(), Zero()[..16]);
    lo := Xor(lo, Xor(flow, Shl(flow, 16)));
    for n := 1 to 16
      invariant Holds(bucket, Rows(key, w, n - 1))
    {
      RowsNext(key, w, n);
      bucket := BucketIteration(key, lo, hi, n, bucket, Rows(key, w, n - 1));
    }
  }

  lemma HoldsNothing()
    ensures Holds(Zero(), Zero()[..16])
  {
  }

  /** The dword that stands for all of a masked input but its first. */
  function Compressed(input: seq<Word>, mask: seq<Word>): Word
    requires |input| == |mask| == DWORDS
  {
    XorAll(Masked(input, mask)[1..])
  }

  /** The perfect-filter hash field holds the bucket parity of the compressed input, which is what the signature hash computes for it. */
  lemma BucketsAgree(input: seq<Word>, mask: seq<Word>, key: Word, j: nat)
    requires |input| == |mask| == DWORDS && j < 13
    ensures Perfect(input, mask, key)[10][j + 16] == Reference(key, And(input[0], mask[0]), Compressed(input, mask), j)
  {
    hide Parity, Reference;
    ParityIsReference(key, And(input[0], mask[0]), Compressed(input, mask), j);
    var m := Masked(input, mask);
    assert m[0] == And(input[0], mask[0]);
    assert Perfect(input, mask, key)[10] == WithHash(m[10], Rows(key, PerfectStream(m), 15));
  }

  /** All else in the result is the masked input: only the last dword's upper half changes, and there the bits above the hash are clear. */
  lemma PerfectKeeps(input: seq<Word>, mask: seq<Word>, key: Word, d: nat, i: nat)
    requires |input| == |mask| == DWORDS && d < DWORDS && i < 32
    ensures d < 10 || i < 16 ==> Perfect(input, mask, key)[d][i] == (input[d][i] && mask[d][i])
    ensures d == 10 && 29 <= i ==> !Perfect(input, mask, key)[d][i]
  {
    hide Parity;
    var m := Masked(input, mask);
    assert m[d] == And(input[d], mask[d]);
    assert Perfect(input, mask, key)[10] == WithHash(m[10], Rows(key, PerfectStream(m), 15));
  }

  /** Both hashes of one masked input: they agree on the bits that both masks keep. */
  method BothHashes(input: array<Word>, mask: array<Word>, bucketKey: Word, sigKey: Word, hashMask: Word) returns (r: Word)
    requires input.Length == mask.Length == DWORDS && input != mask && forall i :: 16 <= i < 32 ==> !hashMask[i]
    modifies input
    ensures input[..] == Perfect(old(input[..]), mask[..], bucketKey)
    ensures var first, rest := And(old(input[0]), mask[0]), Compressed(old(input[..]), mask[..]);
            && (forall j :: 0 <= j < 16 ==> r[j] == (hashMask[j] && Reference(bucketKey, first, rest, j)))
            && (forall j :: 16 <= j < 32 ==> r[j] == (hashMask[j - 16] && Reference(sigKey, first, rest, j - 16)))
    ensures forall j :: 0 <= j < 13 && hashMask[j] ==> r[j] == input[10][j + 16]
  {
    hide Reference, Perfect;
    ghost var in0 := input[..];
    ghost var m := Masked(in0, mask[..]);
    var first, rest := And(input[0], mask[0]), Zero();
    assert m[1..1] == [];
    for i := 1 to DWORDS
      invariant rest == XorAll(m[1..i])
    {
      assert m[1..i + 1][..i - 1] == m[1..i];
      rest := Xor(rest, And(input[i], mask[i]));
    }
    assert m[1..DWORDS] == m[1..];
    r := SigHash(first, rest, bucketKey, sigKey, hashMask);
    PerfectHash(input, mask, bucketKey);
    forall j | 0 <= j < 13 && hashMask[j]
      ensures r[j] == input[10][j + 16]
    {
      BucketsAgree(in0, mask[..], bucketKey, j);
      assert input[10] == input[..][10];
    }
  }

  /** The stored hash can be recomputed from the stored input, if the mask keeps the hash field out. */
  lemma RehashStable(input: seq<Word>, mask: seq<Word>, key: Word)
    requires |input| == |mask| == DWORDS && forall i :: 16 <= i < 32 ==> !mask[10][i]
    ensures Perfect(Perfect(input, mask, key), mask, key) == Perfect(input, mask, key)
  {
    var once := Perfect(input, mask, key);
    var m, again := Masked(input, mask), Masked(once, mask);
    forall i | 0 <= i < DWORDS
      ensures again[i] == m[i]
    {
      assert again[i] == And(once[i], mask[i]) && m[i] == And(input[i], mask[i]);
      forall j | 0 <= j < 32
        ensures again[i][j] == m[i][j]
      {
        if i == 10 {
          assert once[i][j] == if j < 16 then m[i][j] else once[i][j];
        }
      }
    }
    assert again == m;
  }

  // ---- port masks ----------------------------------------------------------------------------------------------------

  /** Bits whose number has the bit of weight `k` clear: 0x55555555 for 1, 0x33333333 for 2, 0x0F0F0F0F for 4, 0x00FF00FF for 8. */
  function Stripe(k: nat, clear: bool): (r: Word)
    requires k == 1 || k == 2 || k == 4 || k == 8
    ensures forall i {:trigger r[i]} :: 0 <= i < 32 ==> (r[i] <==> ((Flips(i, k) > i) == clear))
  {
    seq(32, i requires 0 <= i < 32 => (Flips(i, k) > i) == clear)
  }

  /** `i` with the bit of weight `k` inverted. */
  function Flips(i: nat, k: nat): nat
    requires k == 1 || k == 2 || k == 4 || k == 8
  {
    if Lower(i, k, 16) then i + k else if k <= i then i - k else 0
  }

  /** The bit of weight `k` of `i` is clear, where `i` is below 32 and `top` is the weight of the highest bit still to be removed. */
  predicate Lower(i: nat, k: nat, top: nat)
    decreases top
  {
    if top <= k then i < k else if i >= top then Lower(i - top, k, top / 2) else Lower(i, k, top / 2)
  }

  method SwapBits(m: Word, k: nat) returns (r: Word)
    requires k == 1 || k == 2 || k == 4 || k == 8
    ensures forall i :: 0 <= i < 32 ==> Flips(i, k) < 32 && r[i] == m[Flips(i, k)]
  {
    hide Flips;
    r := Or(Shl(And(m, Stripe(k, true)), k), Shr(And(m, Stripe(k, false)), k));
    forall i | 0 <= i < 32
      ensures Flips(i, k) < 32 && r[i] == m[Flips(i, k)]
    {
      FlipFacts(i, k);
      if i >= k {
        FlipFacts(i - k, k);
      }
      if i + k < 32 {
        FlipFacts(i + k, k);
      }
    }
  }

  lemma FlipFacts(i: nat, k: nat)
    requires i < 32 && (k == 1 || k == 2 || k == 4 || k == 8)
    ensures Flips(i, k) < 32 && (Flips(i, k) == i + k || Flips(i, k) == i - k) && Flips(Flips(i, k), k) == i
  {
    LowerPairs(i, k, 16);
  }

  lemma {:induction false} LowerPairs(i: nat, k: nat, top: nat)
    requires i < 2 * top && (k == 1 || k == 2 || k == 4 || k == 8) && (top == 1 || top == 2 || top == 4 || top == 8 || top == 16) && k <= top
    ensures if Lower(i, k, top) then i + k < 2 * top && !Lower(i + k, k, top) else i >= k && Lower(i - k, k, top)
  {
    if top > k {
      LowerPairs(if i >= top then i - top else i, k, top / 2);
    }
  }

  /** ixgbe_get_fdirtcpm_82599: each half is reversed. */
  method FdirTcpMask(dport: Word, sport: Word) returns (r: Word)
    requires forall i :: 16 <= i < 32 ==> !dport[i] && !sport[i]
    ensures forall i :: 0 <= i < 16 ==> r[i] == sport[15 - i]
    ensures forall i :: 16 <= i < 32 ==> r[i] == dport[31 - i]
  {
    var m := Or(Shl(dport, 16), sport);
    var a := SwapBits(m, 1);
    var b := SwapBits(a, 2);
    var c := SwapBits(b, 4);
    r := SwapBits(c, 8);
    forall i | 0 <= i < 32
      ensures r[i] == m[if i < 16 then 15 - i else 47 - i]
    {
      Mirror(i);
    }
  }

  lemma Mirror(i: nat)
    requires i < 32
    ensures Flips(Flips(Flips(Flips(i, 8), 4), 2), 1) == if i < 16 then 15 - i else 47 - i
  {
  }
}
