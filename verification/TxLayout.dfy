/**
 What the transmit ring holds, as values: a circular row of buffer records and descriptors in which the packets
 in flight lie one behind the other.
 */
module TxLayout {
  import opened Wrappers
  import opened RingIndex
  import opened TxSplit

  /** A mapped piece of a packet: part 0 is the head, part f + 1 is fragment f. */
  datatype Chunk = Chunk(part: nat, offset: nat, size: nat)

  /** e1000_tx_buffer */
  datatype Buf = Buf(skb: Option<Skb>, chunk: Option<Chunk>, watch: nat, segs: nat, bytecount: nat)

  datatype Body = Blank | Ctx | Data(chunk: Chunk)

  /** A descriptor: what it carries, whether it ends a packet and asks for status, and the done bit. */
  datatype Desc = Desc(body: Body, eop: bool, dd: bool)

  /** A packet in flight. */
  datatype Block = Block(skb: Skb, chunks: seq<Chunk>, done: bool)

  function Size(b: Block): nat {
    Context(b.skb) + |b.chunks|
  }

  function Total(bs: seq<Block>): nat {
    if bs == [] then 0 else Size(bs[0]) + Total(bs[1..])
  }

  // ---- the pieces of a packet ----------------------------------------------------------------------

  function PartChunks(p: Part, part: nat, len: nat, offset: nat): (cs: seq<Chunk>)
    requires PartOk(p, offset + len)
    ensures |cs| == |Sizes(p, len, offset)|
    decreases len
  {
    if len == 0 then []
    else
      var s := PieceSize(p, len, offset);
      [Chunk(part, offset, s)] + PartChunks(p, part, len - s, offset + s)
  }

  lemma ChunksUnfold(p: Part, part: nat, len: nat, offset: nat)
    requires PartOk(p, offset + len)
    ensures len == 0 ==> PartChunks(p, part, len, offset) == []
    ensures 0 < len ==>
              var s := PieceSize(p, len, offset);
              PartChunks(p, part, len, offset) == [Chunk(part, offset, s)] + PartChunks(p, part, len - s, offset + s)
  {
  }

  function FragsChunks(mac: Mac, skb: Skb, f: nat): (cs: seq<Chunk>)
    requires f <= |skb.frags|
    ensures |cs| == FragDescs(mac, skb, f)
    decreases |skb.frags| - f
  {
    if f == |skb.frags| then []
    else PartChunks(FragPart(mac, skb, f), f + 1, skb.frags[f].size, 0) + FragsChunks(mac, skb, f + 1)
  }

  /** All pieces of a packet, in order. */
  function PacketChunks(mac: Mac, skb: Skb, lastTso: bool): (cs: seq<Chunk>)
    requires SkbOk(skb)
    ensures Context(skb) + |cs| == Needed(mac, skb, lastTso) && 0 < |cs|
  {
    var cs := PartChunks(HeadPart(mac, skb, lastTso), 0, skb.headLen, 0) + FragsChunks(mac, skb, 0);
    assert 0 < |PartChunks(HeadPart(mac, skb, lastTso), 0, skb.headLen, 0)|;
    cs
  }

  lemma PacketUnfold(mac: Mac, skb: Skb, lastTso: bool)
    requires SkbOk(skb)
    ensures PartOk(HeadPart(mac, skb, lastTso), skb.headLen)
    ensures PacketChunks(mac, skb, lastTso) == PartChunks(HeadPart(mac, skb, lastTso), 0, skb.headLen, 0) + FragsChunks(mac, skb, 0)
  {
  }

  lemma FragsUnfold(mac: Mac, skb: Skb, f: nat)
    requires f <= |skb.frags|
    ensures f == |skb.frags| ==> FragsChunks(mac, skb, f) == []
    ensures f < |skb.frags| ==> PartOk(FragPart(mac, skb, f), skb.frags[f].size)
    ensures f < |skb.frags| ==>
              FragsChunks(mac, skb, f) == PartChunks(FragPart(mac, skb, f), f + 1, skb.frags[f].size, 0) + FragsChunks(mac, skb, f + 1)
  {
  }

  // ---- the ring invariant --------------------------------------------------------------------------

  /** skb_shinfo(skb)->gso_segs ?: 1 */
  function Segs(skb: Skb): nat {
    if skb.gsoSegs == 0 then 1 else skb.gsoSegs
  }

  /** Bytes on the wire: every segment repeats the headers. */
  function ByteCount(skb: Skb): nat {
    (Segs(skb) - 1) * skb.headLen + SkbLen(skb)
  }

  /** The end of a packet: the only place that holds the skb, its accounting and the request for status. */
  predicate LastOk(buf: Buf, d: Desc, b: Block) {
    && buf.skb == Some(b.skb) && buf.segs == Segs(b.skb) && buf.bytecount == ByteCount(b.skb)
    && d.eop && d.dd == b.done
  }

  predicate InnerOk(buf: Buf, d: Desc) {
    buf.skb == None && !d.dd && !d.eop
  }

  predicate PayloadOk(buf: Buf, d: Desc, c: Chunk) {
    buf.chunk == Some(c) && d.body == Data(c)
  }

  /** The packet `b` occupies its descriptors from `s` on; the first one names the last. */
  ghost predicate BlockOk(bufs: seq<Buf>, ds: seq<Desc>, s: nat, b: Block) {
    var count, n := |bufs|, Size(b);
    && |ds| == count && s < count && 1 <= |b.chunks| && n < count
    && bufs[s].watch == Idx(count, s, n - 1)
    && LastOk(bufs[Idx(count, s, n - 1)], ds[Idx(count, s, n - 1)], b)
    && (forall k {:trigger Idx(count, s, k)} :: 0 <= k < n - 1 ==> InnerOk(bufs[Idx(count, s, k)], ds[Idx(count, s, k)]))
    && (forall k {:trigger Idx(count, s, k)} :: Context(b.skb) <= k < n ==>
          PayloadOk(bufs[Idx(count, s, k)], ds[Idx(count, s, k)], b.chunks[k - Context(b.skb)]))
    && (Context(b.skb) == 1 ==> ds[s].body == Ctx)
  }

  ghost predicate Chain(bufs: seq<Buf>, ds: seq<Desc>, s: nat, bs: seq<Block>)
    decreases |bs|
  {
    bs == [] || (BlockOk(bufs, ds, s, bs[0]) && Chain(bufs, ds, Idx(|bufs|, s, Size(bs[0])), bs[1..]))
  }

  predicate IdleCell(buf: Buf, d: Desc) {
    buf.skb == None && buf.chunk == None && !d.dd
  }

  /** From `at` on lie the packets `bs`, then idle cells up to `at` again; `use` is the first idle one. */
  ghost predicate RingOk(bufs: seq<Buf>, ds: seq<Desc>, at: nat, use: nat, bs: seq<Block>) {
    var count := |bufs|;
    && |ds| == count && at < count && Total(bs) < count
    && use == Idx(count, at, Total(bs))
    && (forall i {:trigger bufs[i]} :: 0 <= i < count ==> bufs[i].watch < count)
    && (forall k {:trigger Idx(count, at, k)} :: Total(bs) <= k < count ==> IdleCell(bufs[Idx(count, at, k)], ds[Idx(count, at, k)]))
    && Chain(bufs, ds, at, bs)
  }

  // ---- chains --------------------------------------------------------------------------------------

  /** Both rows agree on the `n` cells from `s` on. */
  ghost predicate Agree(bufs: seq<Buf>, ds: seq<Desc>, bufs': seq<Buf>, ds': seq<Desc>, s: nat, n: nat) {
    && |bufs| == |ds| == |bufs'| == |ds'| && s < |bufs| && n <= |bufs|
    && forall k {:trigger Idx(|bufs|, s, k)} :: 0 <= k < n ==>
         bufs'[Idx(|bufs|, s, k)] == bufs[Idx(|bufs|, s, k)] && ds'[Idx(|bufs|, s, k)] == ds[Idx(|bufs|, s, k)]
  }

  lemma AgreeShift(bufs: seq<Buf>, ds: seq<Desc>, bufs': seq<Buf>, ds': seq<Desc>, s: nat, a: nat, n: nat)
    requires Agree(bufs, ds, bufs', ds', s, a + n)
    ensures Agree(bufs, ds, bufs', ds', Idx(|bufs|, s, a), n)
  {
    forall k | 0 <= k < n
      ensures var i := Idx(|bufs|, Idx(|bufs|, s, a), k); bufs'[i] == bufs[i] && ds'[i] == ds[i]
    {
      IdxAdd(|bufs|, s, a, k);
    }
  }

  lemma BlockFrame(bufs: seq<Buf>, ds: seq<Desc>, bufs': seq<Buf>, ds': seq<Desc>, s: nat, b: Block)
    requires BlockOk(bufs, ds, s, b) && Agree(bufs, ds, bufs', ds', s, Size(b))
    ensures BlockOk(bufs', ds', s, b)
  {
    assert Idx(|bufs|, s, 0) == s;
  }

  lemma {:induction false} ChainFrame(bufs: seq<Buf>, ds: seq<Desc>, bufs': seq<Buf>, ds': seq<Desc>, s: nat, bs: seq<Block>)
    requires Chain(bufs, ds, s, bs) && Agree(bufs, ds, bufs', ds', s, Total(bs))
    ensures Chain(bufs', ds', s, bs)
    decreases |bs|
  {
    hide BlockOk, Agree;
    if bs != [] {
      AgreeSizes(bufs, ds, bufs', ds', s, Total(bs));
      AgreePrefix(bufs, ds, bufs', ds', s, Size(bs[0]), Total(bs));
      BlockFrame(bufs, ds, bufs', ds', s, bs[0]);
      AgreeShift(bufs, ds, bufs', ds', s, Size(bs[0]), Total(bs[1..]));
      ChainFrame(bufs, ds, bufs', ds', Idx(|bufs|, s, Size(bs[0])), bs[1..]);
    }
  }

  lemma AgreeSizes(bufs: seq<Buf>, ds: seq<Desc>, bufs': seq<Buf>, ds': seq<Desc>, s: nat, n: nat)
    requires Agree(bufs, ds, bufs', ds', s, n)
    ensures |bufs| == |ds| == |bufs'| == |ds'| && s < |bufs| && n <= |bufs|
  {
  }

  lemma AgreePrefix(bufs: seq<Buf>, ds: seq<Desc>, bufs': seq<Buf>, ds': seq<Desc>, s: nat, m: nat, n: nat)
    requires Agree(bufs, ds, bufs', ds', s, n) && m <= n
    ensures Agree(bufs, ds, bufs', ds', s, m)
  {
  }

  lemma {:induction false} TotalAppend(a: seq<Block>, b: Block)
    ensures Total(a + [b]) == Total(a) + Size(b)
  {
    if a != [] {
      assert (a + [b])[1..] == a[1..] + [b];
      TotalAppend(a[1..], b);
    }
  }

  lemma {:induction false} ChainAppend(bufs: seq<Buf>, ds: seq<Desc>, s: nat, bs: seq<Block>, b: Block)
    requires s < |bufs| && Chain(bufs, ds, s, bs) && Total(bs) <= |bufs|
    requires BlockOk(bufs, ds, Idx(|bufs|, s, Total(bs)), b)
    ensures Chain(bufs, ds, s, bs + [b])
    decreases |bs|
  {
    hide BlockOk;
    if bs == [] {
      assert [b][1..] == [];
    } else {
      assert (bs + [b])[1..] == bs[1..] + [b];
      IdxAdd(|bufs|, s, Size(bs[0]), Total(bs[1..]));
      ChainAppend(bufs, ds, Idx(|bufs|, s, Size(bs[0])), bs[1..], b);
    }
  }

  // ---- taking the oldest packet out ----------------------------------------------------------------

  /** e1000_unmap_and_free_tx_resource */
  function FreedBuf(b: Buf): Buf {
    b.(skb := None, chunk := None)
  }

  /** The first `n` cells from `s` on have been cleaned. */
  ghost predicate Wiped(bufs: seq<Buf>, ds: seq<Desc>, bufs': seq<Buf>, ds': seq<Desc>, s: nat, n: nat) {
    && |bufs| == |ds| == |bufs'| == |ds'| && s < |bufs| && n <= |bufs|
    && (forall k {:trigger Idx(|bufs|, s, k)} :: 0 <= k < |bufs| ==>
          var i := Idx(|bufs|, s, k);
          if k < n then bufs'[i] == FreedBuf(bufs[i]) && ds'[i] == ds[i].(dd := false)
          else bufs'[i] == bufs[i] && ds'[i] == ds[i])
  }

  lemma WipeStep(bufs: seq<Buf>, ds: seq<Desc>, bufs': seq<Buf>, ds': seq<Desc>, s: nat, n: nat)
    requires Wiped(bufs, ds, bufs', ds', s, n) && n < |bufs|
    ensures var i := Idx(|bufs|, s, n);
            bufs'[i] == bufs[i] && Wiped(bufs, ds, bufs'[i := FreedBuf(bufs'[i])], ds'[i := ds'[i].(dd := false)], s, n + 1)
  {
    var i := Idx(|bufs|, s, n);
    forall k | 0 <= k < |bufs| && k != n
      ensures Idx(|bufs|, s, k) != i
    {
      IdxInjective(|bufs|, s, k, n);
    }
  }

  /** What the cleaner reads at the oldest packet: its end, and the end's status. */
  lemma OldestEnd(bufs: seq<Buf>, ds: seq<Desc>, at: nat, use: nat, bs: seq<Block>)
    requires RingOk(bufs, ds, at, use, bs)
    ensures at < |bufs| == |ds| && bufs[at].watch < |bufs|
    ensures bs != [] ==> 1 <= Size(bs[0]) < |bufs| && bufs[at].watch == Idx(|bufs|, at, Size(bs[0]) - 1)
                         && LastOk(bufs[bufs[at].watch], ds[bufs[at].watch], bs[0])
                         && (forall k {:trigger Idx(|bufs|, at, k)} :: 0 <= k < Size(bs[0]) - 1 ==> bufs[Idx(|bufs|, at, k)].skb == None)
    ensures bs == [] ==> !ds[bufs[at].watch].dd
  {
    if bs == [] {
      var w := bufs[at].watch;
      var k := if at <= w then w - at else w + |bufs| - at;
      assert Idx(|bufs|, at, k) == w;
    }
  }

  /** Cleaning the oldest packet leaves the ring with the others. */
  lemma RemoveOldest(bufs: seq<Buf>, ds: seq<Desc>, bufs': seq<Buf>, ds': seq<Desc>, at: nat, use: nat, bs: seq<Block>)
    requires RingOk(bufs, ds, at, use, bs) && bs != [] && Wiped(bufs, ds, bufs', ds', at, Size(bs[0]))
    ensures RingOk(bufs', ds', Idx(|bufs|, at, Size(bs[0])), use, bs[1..])
  {
    hide BlockOk;
    var count, n, rest := |bufs|, Size(bs[0]), Total(bs[1..]);
    var at' := Idx(count, at, n);
    IdxAdd(count, at, n, rest);
    forall i | 0 <= i < count
      ensures bufs'[i].watch < count
    {
      var k := if at <= i then i - at else i + count - at;
      assert Idx(count, at, k) == i;
      assert bufs[i].watch < count;
    }
    forall k | rest <= k < count
      ensures IdleCell(bufs'[Idx(count, at', k)], ds'[Idx(count, at', k)])
    {
      var j := if n + k < count then n + k else n + k - count;
      assert Idx(count, at', k) == Idx(count, at, j);
    }
    forall k | 0 <= k < rest
      ensures var i := Idx(count, at', k); bufs'[i] == bufs[i] && ds'[i] == ds[i]
    {
      IdxAdd(count, at, n, k);
    }
    assert Agree(bufs, ds, bufs', ds', at', rest);
    ChainFrame(bufs, ds, bufs', ds', at', bs[1..]);
  }

  // ---- putting a packet in -------------------------------------------------------------------------

  /** e1000_tx_map so far: the pieces `cs` have been recorded from `s` on. */
  ghost predicate Mapped(bufs: seq<Buf>, bufs': seq<Buf>, s: nat, cs: seq<Chunk>) {
    && |bufs| == |bufs'| && s < |bufs| && |cs| <= |bufs|
    && (forall k {:trigger Idx(|bufs|, s, k)} :: 0 <= k < |bufs| ==>
          var i := Idx(|bufs|, s, k);
          bufs'[i] == if k < |cs| then bufs[i].(chunk := Some(cs[k]), watch := i) else bufs[i])
  }

  lemma MappedNothing(bufs: seq<Buf>, s: nat)
    requires s < |bufs|
    ensures Mapped(bufs, bufs, s, [])
  {
  }

  lemma MappedLength(bufs: seq<Buf>, bufs': seq<Buf>, s: nat, cs: seq<Chunk>)
    requires Mapped(bufs, bufs', s, cs)
    ensures |bufs| == |bufs'|
  {
  }

  lemma MapStep(bufs: seq<Buf>, bufs': seq<Buf>, s: nat, cs: seq<Chunk>, c: Chunk)
    requires Mapped(bufs, bufs', s, cs) && |cs| < |bufs|
    ensures var i := Idx(|bufs|, s, |cs|); Mapped(bufs, bufs'[i := bufs'[i].(chunk := Some(c), watch := i)], s, cs + [c])
  {
    var i := Idx(|bufs|, s, |cs|);
    forall k | 0 <= k < |bufs| && k != |cs|
      ensures Idx(|bufs|, s, k) != i
    {
      IdxInjective(|bufs|, s, k, |cs|);
    }
  }

  /** A splitting loop in progress: `done` is recorded from `s` on, `len` bytes of the part are to go, and in
      the end exactly `all` will be recorded. */
  ghost predicate Splitting(b0: seq<Buf>, b: seq<Buf>, s: nat, p: Part, part: nat, all: seq<Chunk>, done: seq<Chunk>, len: nat, offset: nat) {
    PartOk(p, offset + len) && Mapped(b0, b, s, done) && done + PartChunks(p, part, len, offset) == all
  }

  lemma SplittingStart(b0: seq<Buf>, b: seq<Buf>, s: nat, p: Part, part: nat, done: seq<Chunk>, len: nat)
    requires PartOk(p, len) && Mapped(b0, b, s, done)
    ensures Splitting(b0, b, s, p, part, done + PartChunks(p, part, len, 0), done, len, 0)
  {
  }

  lemma SplittingFirst(b0: seq<Buf>, s: nat, p: Part, part: nat, len: nat)
    requires PartOk(p, len) && s < |b0|
    ensures Splitting(b0, b0, s, p, part, PartChunks(p, part, len, 0), [], len, 0)
  {
    assert [] + PartChunks(p, part, len, 0) == PartChunks(p, part, len, 0);
  }

  lemma SplittingRoom(b0: seq<Buf>, b: seq<Buf>, s: nat, p: Part, part: nat, all: seq<Chunk>, done: seq<Chunk>, len: nat, offset: nat)
    requires Splitting(b0, b, s, p, part, all, done, len, offset)
    ensures 0 < len ==> |done| < |all|
    ensures |done| <= |all| && |b0| == |b|
  {
  }

  lemma SplittingPart(b0: seq<Buf>, b: seq<Buf>, s: nat, p: Part, part: nat, all: seq<Chunk>, done: seq<Chunk>, len: nat, offset: nat)
    requires Splitting(b0, b, s, p, part, all, done, len, offset)
    ensures PartOk(p, offset + len)
  {
  }

  lemma SplittingStep(b0: seq<Buf>, b: seq<Buf>, s: nat, p: Part, part: nat, all: seq<Chunk>, done: seq<Chunk>, len: nat, offset: nat)
    requires Splitting(b0, b, s, p, part, all, done, len, offset) && 0 < len && PartOk(p, offset + len)
    requires s < |b| && |done| < |b|
    ensures var size, i := PieceSize(p, len, offset), Idx(|b|, s, |done|);
            var c := Chunk(part, offset, size);
            Splitting(b0, b[i := b[i].(chunk := Some(c), watch := i)], s, p, part, all, done + [c], len - size, offset + size)
  {
    hide Mapped, PartChunks, PieceSize, Sizes, Idx;
    MappedLength(b0, b, s, done);
    var size := PieceSize(p, len, offset);
    var c := Chunk(part, offset, size);
    MapStep(b0, b, s, done, c);
    ChunksUnfold(p, part, len, offset);
    assert done + ([c] + PartChunks(p, part, len - size, offset + size)) == done + [c] + PartChunks(p, part, len - size, offset + size);
  }

  lemma SplittingDone(b0: seq<Buf>, b: seq<Buf>, s: nat, p: Part, part: nat, all: seq<Chunk>, done: seq<Chunk>, offset: nat)
    requires Splitting(b0, b, s, p, part, all, done, 0, offset)
    ensures done == all && Mapped(b0, b, s, all)
  {
    assert done + [] == done;
  }

  /** e1000_tx_queue so far: descriptors for the first `n` pieces have been written from `s` on. */
  ghost predicate Queued(ds: seq<Desc>, ds': seq<Desc>, s: nat, cs: seq<Chunk>, n: nat) {
    && |ds| == |ds'| && s < |ds| && n <= |cs| <= |ds|
    && (forall k {:trigger Idx(|ds|, s, k)} :: 0 <= k < |ds| ==>
          var i := Idx(|ds|, s, k);
          ds'[i] == if k < n then Desc(Data(cs[k]), false, false) else ds[i])
  }

  lemma QueueStep(ds: seq<Desc>, ds': seq<Desc>, s: nat, cs: seq<Chunk>, n: nat)
    requires Queued(ds, ds', s, cs, n) && n < |cs|
    ensures var i := Idx(|ds|, s, n); Queued(ds, ds'[i := Desc(Data(cs[n]), false, false)], s, cs, n + 1)
  {
    var i := Idx(|ds|, s, n);
    forall k | 0 <= k < |ds| && k != n
      ensures Idx(|ds|, s, k) != i
    {
      IdxInjective(|ds|, s, k, n);
    }
  }

  /** The rows after a whole e1000_xmit_frame for `b`, starting at `first`. */
  ghost predicate Placed(bufs: seq<Buf>, ds: seq<Desc>, bufs': seq<Buf>, ds': seq<Desc>, first: nat, b: Block) {
    && |bufs| == |ds| == |bufs'| == |ds'| && first < |bufs| && Size(b) < |bufs|
    && BlockOk(bufs', ds', first, b)
    && (forall k {:trigger Idx(|bufs|, first, k)} :: 0 <= k < |bufs| ==>
          var i := Idx(|bufs|, first, k);
          bufs'[i].watch < |bufs| && (Size(b) <= k ==> bufs'[i] == bufs[i] && ds'[i] == ds[i]))
  }

  function WithSkb(b: Buf, skb: Skb): Buf {
    b.(skb := Some(skb), segs := Segs(skb), bytecount := ByteCount(skb))
  }

  /** The steps of e1000_xmit_frame on the two rows: the context descriptor (if any) at `first`, the pieces and
      their descriptors behind it, the skb at the end, and the end's index at the beginning. */
  ghost predicate Steps(bufs: seq<Buf>, ds: seq<Desc>, b1: seq<Buf>, d1: seq<Desc>, b2: seq<Buf>, d2: seq<Desc>, first: nat, b: Block) {
    && |bufs| == |ds| && first < |bufs| && 0 < |b.chunks| && Size(b) < |bufs| && |b2| == |d2| == |bufs|
    && b1 == (if Context(b.skb) == 1 then bufs[first := bufs[first].(watch := first)] else bufs)
    && d1 == (if Context(b.skb) == 1 then ds[first := Desc(Ctx, false, false)] else ds)
    && Mapped(b1, b2, Idx(|bufs|, first, Context(b.skb)), b.chunks)
    && Queued(d1, d2, Idx(|bufs|, first, Context(b.skb)), b.chunks, |b.chunks|)
  }

  function LastBufs(b2: seq<Buf>, first: nat, last: nat, skb: Skb): seq<Buf>
    requires first < |b2| && last < |b2|
  {
    var b3 := b2[last := WithSkb(b2[last], skb)];
    b3[first := b3[first].(watch := last)]
  }

  lemma StepsCell(bufs: seq<Buf>, ds: seq<Desc>, b1: seq<Buf>, d1: seq<Desc>, b2: seq<Buf>, d2: seq<Desc>, first: nat, b: Block, k: nat)
    requires Steps(bufs, ds, b1, d1, b2, d2, first, b) && k < |bufs|
    ensures var i, x := Idx(|bufs|, first, k), Context(b.skb);
            if k < x then b2[i] == bufs[i].(watch := first) && d2[i] == Desc(Ctx, false, false)
            else if k < Size(b) then b2[i] == bufs[i].(chunk := Some(b.chunks[k - x]), watch := i) && d2[i] == Desc(Data(b.chunks[k - x]), false, false)
            else b2[i] == bufs[i] && d2[i] == ds[i]
  {
    var count, x := |bufs|, Context(b.skb);
    var s := Idx(count, first, x);
    if k < x {
      assert Idx(count, first, 0) == first;
      assert Idx(count, s, count - 1) == first;
    } else {
      IdxAdd(count, first, x, k - x);
      IdxZero(count, first);
      IdxInjective(count, first, k, 0);
    }
  }

  /** The rows the steps end in hold the packet. */
  lemma StepsPlace(bufs: seq<Buf>, ds: seq<Desc>, b1: seq<Buf>, d1: seq<Desc>, b2: seq<Buf>, d2: seq<Desc>, first: nat, b: Block)
    requires Steps(bufs, ds, b1, d1, b2, d2, first, b) && !b.done
    requires forall k {:trigger Idx(|bufs|, first, k)} :: 0 <= k < |bufs| ==>
               bufs[Idx(|bufs|, first, k)].watch < |bufs| && (k < Size(b) ==> bufs[Idx(|bufs|, first, k)].skb == None)
    ensures var last := Idx(|bufs|, first, Size(b) - 1);
            Placed(bufs, ds, LastBufs(b2, first, last, b.skb), d2[last := d2[last].(eop := true)], first, b)
  {
    hide Steps;
    assert |bufs| == |ds| && first < |bufs| && 0 < |b.chunks| && Size(b) < |bufs| && |b2| == |d2| == |bufs| by {
      StepsSizes(bufs, ds, b1, d1, b2, d2, first, b);
    }
    var count, n := |bufs|, Size(b);
    var last := Idx(count, first, n - 1);
    var b', d' := LastBufs(b2, first, last, b.skb), d2[last := d2[last].(eop := true)];
    assert Idx(count, first, 0) == first;
    StepsCell(bufs, ds, b1, d1, b2, d2, first, b, n - 1);
    forall k | 0 <= k < count
      ensures var i := Idx(count, first, k); b'[i].watch < count && (n <= k ==> b'[i] == bufs[i] && d'[i] == ds[i])
      ensures k < n - 1 ==> InnerOk(b'[Idx(count, first, k)], d'[Idx(count, first, k)])
      ensures Context(b.skb) <= k < n ==> PayloadOk(b'[Idx(count, first, k)], d'[Idx(count, first, k)], b.chunks[k - Context(b.skb)])
      ensures k < Context(b.skb) ==> d'[Idx(count, first, k)].body == Ctx
    {
      StepsCell(bufs, ds, b1, d1, b2, d2, first, b, k);
      IdxZero(count, first);
      IdxInjective(count, first, k, 0);
      if k != n - 1 {
        IdxInjective(count, first, k, n - 1);
      }
    }
    assert BlockOk(b', d', first, b);
  }

  lemma StepsSizes(bufs: seq<Buf>, ds: seq<Desc>, b1: seq<Buf>, d1: seq<Desc>, b2: seq<Buf>, d2: seq<Desc>, first: nat, b: Block)
    requires Steps(bufs, ds, b1, d1, b2, d2, first, b)
    ensures |bufs| == |ds| && first < |bufs| && 0 < |b.chunks| && Size(b) < |bufs| && |b2| == |d2| == |bufs|
  {
  }

  /** A placed packet joins the queue at its end. */
  lemma AppendPacket(bufs: seq<Buf>, ds: seq<Desc>, bufs': seq<Buf>, ds': seq<Desc>, at: nat, use: nat, bs: seq<Block>, b: Block)
    requires RingOk(bufs, ds, at, use, bs) && Total(bs) + Size(b) < |bufs| && Placed(bufs, ds, bufs', ds', use, b)
    ensures RingOk(bufs', ds', at, Idx(|bufs|, use, Size(b)), bs + [b])
  {
    hide BlockOk, Chain;
    var count, n, t := |bufs|, Size(b), Total(bs);
    TotalAppend(bs, b);
    IdxAdd(count, at, t, n);
    forall i | 0 <= i < count
      ensures bufs'[i].watch < count
    {
      var k := if use <= i then i - use else i + count - use;
      assert Idx(count, use, k) == i;
    }
    forall k | 0 <= k < count && (k < t || t + n <= k)
      ensures var i := Idx(count, at, k); bufs'[i] == bufs[i] && ds'[i] == ds[i]
    {
      var j := if k < t then k + count - t else k - t;
      assert Idx(count, use, j) == Idx(count, at, k);
    }
    assert Agree(bufs, ds, bufs', ds', at, t);
    ChainFrame(bufs, ds, bufs', ds', at, bs);
    ChainAppend(bufs', ds', at, bs, b);
  }

  // ---- hardware ------------------------------------------------------------------------------------

  /** Where packet `k` of the queue ends, counted from the front. */
  function EndOffset(bs: seq<Block>, k: nat): int
    requires k < |bs|
  {
    if k == 0 then Size(bs[0]) - 1 else Size(bs[0]) + EndOffset(bs[1..], k - 1)
  }

  lemma {:induction false} EndOffsetInside(bs: seq<Block>, k: nat)
    requires k < |bs| && forall b :: b in bs ==> 1 <= Size(b)
    ensures 0 <= EndOffset(bs, k) < Total(bs)
  {
    if k != 0 {
      EndOffsetInside(bs[1..], k - 1);
    }
  }

  function MarkDone(bs: seq<Block>, k: nat): seq<Block>
    requires k < |bs|
  {
    bs[k := bs[k].(done := true)]
  }

  /** Writing the done bit at the end of packet `k` marks exactly this packet. */
  lemma {:induction false} ChainMark(bufs: seq<Buf>, ds: seq<Desc>, s: nat, bs: seq<Block>, k: nat)
    requires k < |bs| && Chain(bufs, ds, s, bs) && s < |bufs| == |ds| && Total(bs) < |bufs|
    requires 0 <= EndOffset(bs, k) < |bufs|
    ensures var e := Idx(|bufs|, s, EndOffset(bs, k)); Chain(bufs, ds[e := ds[e].(dd := true)], s, MarkDone(bs, k))
    decreases k
  {
    hide BlockOk;
    var count, n := |bufs|, Size(bs[0]);
    var e := Idx(count, s, EndOffset(bs, k));
    var ds' := ds[e := ds[e].(dd := true)];
    if k == 0 {
      MarkBlock(bufs, ds, s, bs[0]);
      AgreeElsewhere(bufs, ds, ds', Idx(count, s, n), Total(bs[1..]), s, n - 1, n);
      ChainFrame(bufs, ds, bufs, ds', Idx(count, s, n), bs[1..]);
      assert MarkDone(bs, k)[1..] == bs[1..];
    } else {
      ChainSizes(bufs, ds, s, bs);
      EndOffsetInside(bs[1..], k - 1);
      IdxAdd(count, s, n, EndOffset(bs[1..], k - 1));
      ChainMark(bufs, ds, Idx(count, s, n), bs[1..], k - 1);
      AgreeElsewhere(bufs, ds, ds', s, n, s, EndOffset(bs, k), 0);
      BlockFrame(bufs, ds, bufs, ds', s, bs[0]);
      assert MarkDone(bs, k)[1..] == MarkDone(bs[1..], k - 1);
    }
  }

  lemma MarkBlock(bufs: seq<Buf>, ds: seq<Desc>, s: nat, b: Block)
    requires BlockOk(bufs, ds, s, b)
    ensures var e := Idx(|bufs|, s, Size(b) - 1); BlockOk(bufs, ds[e := ds[e].(dd := true)], s, b.(done := true))
  {
    var e := Idx(|bufs|, s, Size(b) - 1);
    forall k | 0 <= k < Size(b) - 1
      ensures Idx(|bufs|, s, k) != e
    {
      IdxInjective(|bufs|, s, k, Size(b) - 1);
    }
    assert Idx(|bufs|, s, 0) == s;
  }

  /** A change at offset `c` from `s` is outside the `n` cells that start at offset `from`. */
  lemma AgreeElsewhere(bufs: seq<Buf>, ds: seq<Desc>, ds': seq<Desc>, t: nat, n: nat, s: nat, c: nat, from: nat)
    requires |bufs| == |ds| == |ds'| && s < |bufs| && c < |bufs| && from + n < |bufs| && t == Idx(|bufs|, s, from)
    requires c < from || from + n <= c
    requires ds' == ds[Idx(|bufs|, s, c) := ds'[Idx(|bufs|, s, c)]]
    ensures Agree(bufs, ds, bufs, ds', t, n)
  {
    forall k | 0 <= k < n
      ensures var i := Idx(|bufs|, t, k); ds'[i] == ds[i]
    {
      IdxAdd(|bufs|, s, from, k);
      IdxInjective(|bufs|, s, from + k, c);
    }
  }

  lemma {:induction false} TotalMark(bs: seq<Block>, k: nat)
    requires k < |bs|
    ensures Total(MarkDone(bs, k)) == Total(bs)
  {
    if k != 0 {
      assert MarkDone(bs, k)[1..] == MarkDone(bs[1..], k - 1);
      TotalMark(bs[1..], k - 1);
    } else {
      assert MarkDone(bs, k)[1..] == bs[1..];
    }
  }

  lemma {:induction false} ChainSizes(bufs: seq<Buf>, ds: seq<Desc>, s: nat, bs: seq<Block>)
    requires Chain(bufs, ds, s, bs)
    ensures forall b :: b in bs ==> 1 <= Size(b)
    decreases |bs|
  {
    if bs != [] {
      ChainSizes(bufs, ds, Idx(|bufs|, s, Size(bs[0])), bs[1..]);
    }
  }

  lemma RingMark(bufs: seq<Buf>, ds: seq<Desc>, at: nat, use: nat, bs: seq<Block>, k: nat)
    requires RingOk(bufs, ds, at, use, bs) && k < |bs|
    ensures 0 <= EndOffset(bs, k) < |bufs| == |ds| && at < |bufs|
    ensures var e := Idx(|bufs|, at, EndOffset(bs, k));
            RingOk(bufs, ds[e := ds[e].(dd := true)], at, use, MarkDone(bs, k))
  {
    hide BlockOk;
    ChainSizes(bufs, ds, at, bs);
    EndOffsetInside(bs, k);
    ChainMark(bufs, ds, at, bs, k);
    TotalMark(bs, k);
    var e := Idx(|bufs|, at, EndOffset(bs, k));
    forall j | Total(bs) <= j < |bufs|
      ensures Idx(|bufs|, at, j) != e
    {
      IdxInjective(|bufs|, at, j, EndOffset(bs, k));
    }
  }
}
