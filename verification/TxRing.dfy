/**
 The transmit ring of e1000_main.c: e1000_xmit_frame puts packets in, the controller marks them done, and
 e1000_clean_tx_irq takes them out again.
 */
module TxRing {
  import opened Wrappers
  import opened Shifts
  import opened TxSplit
  import opened TxGrowth
  import opened RingIndex
  import opened TxLayout

  /** The skbs of the packets in flight. */
  function Skbs(bs: seq<Block>): seq<Skb> {
    if bs == [] then [] else [bs[0].skb] + Skbs(bs[1..])
  }

  /** Their bytes, as byte queue limits count them. */
  function Bytes(bs: seq<Block>): nat {
    if bs == [] then 0 else SkbLen(bs[0].skb) + Bytes(bs[1..])
  }

  lemma {:induction false} SkbsAppend(bs: seq<Block>, b: Block)
    ensures Skbs(bs + [b]) == Skbs(bs) + [b.skb]
    ensures Bytes(bs + [b]) == Bytes(bs) + SkbLen(b.skb)
  {
    if bs != [] {
      assert (bs + [b])[1..] == bs[1..] + [b];
      SkbsAppend(bs[1..], b);
    } else {
      assert [] + [b] == [b];
    }
  }

  /** e1000_tx_ring together with the queue state and the byte counters it drives. */
  class Ring {
    const mac: Mac
    const bufs: array<Buf>
    const desc: array<Desc>
    var nextToUse: nat
    var nextToClean: nat
    var lastTxTso: bool
    var stopped: bool
    var bytesSent: nat
    var bytesCompleted: nat
    var txPackets: nat
    var txBytes: nat

    /** The contents of the two arrays. */
    ghost var B: seq<Buf>
    ghost var D: seq<Desc>

    /** The packets in flight, oldest first, and everything ever sent and freed. */
    ghost var inflight: seq<Block>
    ghost var sent: seq<Skb>
    ghost var freed: seq<Skb>

    ghost predicate Mirror()
      reads `B, `D, bufs, desc
    {
      bufs.Length == desc.Length && B == bufs[..] && D == desc[..]
    }

    ghost predicate Valid()
      reads this, bufs, desc
    {
      && Mirror()
      && RingOk(B, D, nextToClean, nextToUse, inflight)
      && sent == freed + Skbs(inflight)
      && bytesSent == bytesCompleted + Bytes(inflight)
    }

    constructor (count: nat, mac: Mac)
      requires 0 < count
      ensures Valid() && fresh(bufs) && fresh(desc) && |B| == count && this.mac == mac
      ensures AsQueue() == Queue([], [], [], false, false, 0, 0, 0, 0)
    {
      this.mac := mac;
      bufs := new Buf[count](_ => Buf(None, None, 0, 0, 0));
      desc := new Desc[count](_ => Desc(Blank, false, false));
      nextToUse, nextToClean, lastTxTso, stopped := 0, 0, false, false;
      bytesSent, bytesCompleted, txPackets, txBytes := 0, 0, 0, 0;
      inflight, sent, freed := [], [], [];
      new;
      B, D := bufs[..], desc[..];
      assert forall i :: 0 <= i < count ==> B[i] == Buf(None, None, 0, 0, 0) && D[i] == Desc(Blank, false, false);
    }

    /** E1000_DESC_UNUSED */
    function Unused(): int
      reads `nextToClean, `nextToUse
    {
      (if nextToClean > nextToUse then 0 else bufs.Length) + nextToClean - nextToUse - 1
    }

    /** The arithmetic on the two indices counts the free descriptors, less the one that keeps them apart. */
    lemma UnusedIsFree()
      requires Valid()
      ensures Unused() == bufs.Length - 1 - Total(inflight) && |B| == bufs.Length
    {
    }

    // ---- single entries ------------------------------------------------------------------------------

    function GetBuf(i: nat): (b: Buf)
      requires Mirror() && i < |B|
      reads `B, `D, bufs, desc
      ensures b == B[i]
    {
      bufs[i]
    }

    function GetDesc(i: nat): (d: Desc)
      requires Mirror() && i < |D|
      reads `B, `D, bufs, desc
      ensures d == D[i]
    {
      desc[i]
    }

    method SetBuf(i: nat, b: Buf)
      requires Mirror() && i < |B|
      modifies bufs, `B
      ensures Mirror() && B == old(B)[i := b]
    {
      bufs[i] := b;
      B := B[i := b];
    }

    method SetDesc(i: nat, d: Desc)
      requires Mirror() && i < |D|
      modifies desc, `D
      ensures Mirror() && D == old(D)[i := d]
    {
      desc[i] := d;
      D := D[i := d];
    }

    lemma Lengths()
      requires Mirror()
      ensures |B| == |D| == bufs.Length == desc.Length
    {
    }

    /** if (++i == count) i = 0 */
    static function Next(count: nat, i: nat): (j: nat)
      requires i < count
      ensures j == Idx(count, i, 1)
    {
      if i + 1 == count then 0 else i + 1
    }

    // ---- transmit ------------------------------------------------------------------------------------

    /** The size adjustments of the head loop. `tso0` is what last_tx_tso was before the loop. */
    method HeadSize(skb: Skb, len: nat, offset: nat, count: nat, ghost tso0: bool) returns (size: nat)
      requires SkbOk(skb) && 0 < len && offset + len == skb.headLen && (count == 0 <==> offset == 0)
      requires lastTxTso == (tso0 && (offset == 0 || !Shaved(skb, tso0)))
      modifies `lastTxTso
      ensures PartOk(HeadPart(mac, skb, tso0), offset + len) && size == PieceSize(HeadPart(mac, skb, tso0), len, offset)
      ensures lastTxTso == (tso0 && !Shaved(skb, tso0))
    {
      var max := MaxPerTxd(skb.mss);
      size := if len < max then len else max;
      if FragBytes(skb.frags) == 0 && lastTxTso && skb.mss == 0 {
        lastTxTso := false;
        size := size - 4;
      }
      if skb.mss != 0 && |skb.frags| == 0 && size == len && size > 8 {
        size := size - 4;
      }
      if mac.pcix && size > 2015 && count == 0 {
        size := 2015;
      }
      if mac.pcix82544 && Bit2Clear(skb.headAddr + offset + size - 1) && size > 4 {
        size := size - 4;
      }
    }

    /** The size adjustments of the fragment loop. */
    method FragSize(skb: Skb, f: nat, len: nat, offset: nat) returns (size: nat)
      requires f < |skb.frags| && 0 < len && offset + len == skb.frags[f].size
      ensures size == PieceSize(FragPart(mac, skb, f), len, offset)
    {
      var max := MaxPerTxd(skb.mss);
      size := if len < max then len else max;
      if skb.mss != 0 && f == |skb.frags| - 1 && size == len && size > 8 {
        size := size - 4;
      }
      var bufend := skb.frags[f].phys + offset + size - 1;
      if mac.pcix82544 && Bit2Clear(bufend) && size > 4 {
        size := size - 4;
      }
    }

    /** The head loop of e1000_tx_map. Returns the last index written and the number of pieces. */
    method MapHead(skb: Skb, s: nat) returns (i: nat, n: nat)
      requires Mirror() && SkbOk(skb) && s < |B| && |PacketChunks(mac, skb, lastTxTso)| < |B|
      modifies bufs, `B, `lastTxTso
      ensures Mirror()
      ensures var cs := PartChunks(HeadPart(mac, skb, old(lastTxTso)), 0, skb.headLen, 0);
              n == |cs| && 0 < n && |B| == |old(B)| && i == Idx(|B|, s, n - 1) && Mapped(old(B), B, s, cs)
      ensures lastTxTso == (old(lastTxTso) && !Shaved(skb, old(lastTxTso)))
    {
      hide Mirror, Mapped, Splitting, PartChunks, PieceSize, Sizes, PacketChunks, PartOk, Shaved, SkbOk, HeadPart;
      ghost var tso0, p, b0 := lastTxTso, HeadPart(mac, skb, lastTxTso), B;
      ghost var done: seq<Chunk> := [];
      HeadFits(mac, skb, tso0);
      ghost var all := PartChunks(p, 0, skb.headLen, 0);
      Lengths();
      MappedNothing(b0, s);
      SplittingFirst(b0, s, p, 0, skb.headLen);
      var len, offset := skb.headLen, 0;
      i, n := s, 0;
      while len != 0
        invariant Mirror() && |B| == |b0| && offset + len == skb.headLen && n == |done| && (n == 0 <==> offset == 0)
        invariant Splitting(b0, B, s, p, 0, all, done, len, offset)
        invariant n < |B| && i == Idx(|B|, s, if len == 0 then n - 1 else n)
        invariant lastTxTso == (tso0 && (offset == 0 || !Shaved(skb, tso0)))
        decreases len
      {
        var size;
        size, done := HeadPiece(skb, s, i, n, len, offset, tso0, b0, all, done);
        len := len - size;
        offset := offset + size;
        n := n + 1;
        if len != 0 {
          i := Next(bufs.Length, i);
        }
      }
      SplittingDone(b0, B, s, p, 0, all, done, offset);
    }

    /** One turn of the head loop. */
    method HeadPiece(skb: Skb, s: nat, i: nat, n: nat, len: nat, offset: nat, ghost tso0: bool,
                     ghost b0: seq<Buf>, ghost all: seq<Chunk>, ghost done: seq<Chunk>)
      returns (size: nat, ghost done': seq<Chunk>)
      requires Mirror() && SkbOk(skb) && s < |B| && n == |done| && |all| < |B|
      requires 0 < len && offset + len == skb.headLen && (n == 0 <==> offset == 0)
      requires Splitting(b0, B, s, HeadPart(mac, skb, tso0), 0, all, done, len, offset)
      requires n < |B| && i == Idx(|B|, s, n)
      requires lastTxTso == (tso0 && (offset == 0 || !Shaved(skb, tso0)))
      modifies bufs, `B, `lastTxTso
      ensures Mirror() && |B| == |old(B)| && 1 <= size <= len && |done'| == n + 1 < |B|
      ensures Splitting(b0, B, s, HeadPart(mac, skb, tso0), 0, all, done', len - size, offset + size)
      ensures lastTxTso == (tso0 && !Shaved(skb, tso0))
    {
      ghost var p := HeadPart(mac, skb, tso0);
      hide Mirror, Splitting, PieceSize, PartChunks, Sizes;
      SplittingRoom(b0, B, s, p, 0, all, done, len, offset);
      SplittingPart(b0, B, s, p, 0, all, done, len, offset);
      SplittingStep(b0, B, s, p, 0, all, done, len, offset);
      size := HeadSize(skb, len, offset, n, tso0);
      SetBuf(i, GetBuf(i).(chunk := Some(Chunk(0, offset, size)), watch := i));
      done' := done + [Chunk(0, offset, size)];
    }

    /** The loop of e1000_tx_map over one fragment; `i` is the last index written so far. */
    method MapFrag(skb: Skb, f: nat, s: nat, i0: nat, n0: nat, ghost b0: seq<Buf>, ghost done0: seq<Chunk>)
      returns (i: nat, n: nat)
      requires Mirror() && f < |skb.frags| && s < |B| && 0 < n0 == |done0| <= |B| && i0 == Idx(|B|, s, n0 - 1)
      requires n0 + |PartChunks(FragPart(mac, skb, f), f + 1, skb.frags[f].size, 0)| < |B|
      requires Mapped(b0, B, s, done0)
      modifies bufs, `B
      ensures Mirror()
      ensures var cs := done0 + PartChunks(FragPart(mac, skb, f), f + 1, skb.frags[f].size, 0);
              n == |cs| && |B| == |old(B)| && i == Idx(|B|, s, n - 1) && Mapped(b0, B, s, cs)
    {
      hide Mirror, Mapped, Splitting, PartChunks, PieceSize, Sizes;
      ghost var p := FragPart(mac, skb, f);
      ghost var all, done := done0 + PartChunks(p, f + 1, skb.frags[f].size, 0), done0;
      assert |all| < |B|;
      Lengths();
      SplittingStart(b0, B, s, p, f + 1, done0, skb.frags[f].size);
      var len, offset := skb.frags[f].size, 0;
      i, n := i0, n0;
      while len != 0
        invariant Mirror() && |B| == |old(B)| && offset + len == skb.frags[f].size && 0 < n == |done| < |B|
        invariant Splitting(b0, B, s, p, f + 1, all, done, len, offset)
        invariant i == Idx(|B|, s, n - 1)
        decreases len
      {
        SplittingRoom(b0, B, s, p, f + 1, all, done, len, offset);
        SplittingStep(b0, B, s, p, f + 1, all, done, len, offset);
        i := Next(bufs.Length, i);
        var size := FragSize(skb, f, len, offset);
        SetBuf(i, GetBuf(i).(chunk := Some(Chunk(f + 1, offset, size)), watch := i));
        done := done + [Chunk(f + 1, offset, size)];
        len := len - size;
        offset := offset + size;
        n := n + 1;
        SplittingRoom(b0, B, s, p, f + 1, all, done, len, offset);
      }
      SplittingDone(b0, B, s, p, f + 1, all, done, offset);
    }

    /** e1000_tx_map: record every piece of the packet, and the packet itself at the end. */
    method TxMap(skb: Skb, first: nat, s: nat) returns (n: nat, ghost mid: seq<Buf>)
      requires Mirror() && SkbOk(skb) && first < |B| && s < |B| && |PacketChunks(mac, skb, lastTxTso)| < |B|
      modifies bufs, `B, `lastTxTso
      ensures Mirror()
      ensures var cs := PacketChunks(mac, skb, old(lastTxTso));
              n == |cs| && Mapped(old(B), mid, s, cs) && |mid| == |B| == |old(B)|
              && B == LastBufs(mid, first, Idx(|B|, s, n - 1), skb)
      ensures lastTxTso == (old(lastTxTso) && !Shaved(skb, old(lastTxTso)))
    {
      hide Mirror, Mapped, PartChunks, PacketChunks, FragsChunks, PartOk, FragPart, HeadPart;
      ghost var all, b0 := PacketChunks(mac, skb, lastTxTso), B;
      PacketUnfold(mac, skb, lastTxTso);
      ghost var done := PartChunks(HeadPart(mac, skb, lastTxTso), 0, skb.headLen, 0);
      var i;
      i, n := MapHead(skb, s);
      for f := 0 to |skb.frags|
        invariant Mirror() && |B| == |b0| && 0 < n == |done| && done + FragsChunks(mac, skb, f) == all
        invariant i == Idx(|B|, s, n - 1) && Mapped(b0, B, s, done)
        invariant lastTxTso == (old(lastTxTso) && !Shaved(skb, old(lastTxTso)))
      {
        FragsUnfold(mac, skb, f);
        ghost var cs := PartChunks(FragPart(mac, skb, f), f + 1, skb.frags[f].size, 0);
        assert done + (cs + FragsChunks(mac, skb, f + 1)) == done + cs + FragsChunks(mac, skb, f + 1);
        i, n := MapFrag(skb, f, s, i, n, b0, done);
        done := done + cs;
      }
      FragsUnfold(mac, skb, |skb.frags|);
      assert done + [] == done;
      mid := B;
      SetBuf(i, WithSkb(GetBuf(i), skb));
      SetBuf(first, GetBuf(first).(watch := i));
    }

    /** e1000_tx_queue: a data descriptor for each of `count` buffer records, the last one with the command bits. */
    method TxQueue(s: nat, count: nat, ghost cs: seq<Chunk>) returns (i: nat, ghost mid: seq<Desc>)
      requires Mirror() && s < |D| == |B| && 0 < count == |cs| < |D|
      requires forall k {:trigger Idx(|B|, s, k)} :: 0 <= k < count ==> B[Idx(|B|, s, k)].chunk == Some(cs[k])
      modifies desc, `D
      ensures Mirror() && |D| == |old(D)| && i == Idx(|D|, s, count) && |mid| == |D| && Queued(old(D), mid, s, cs, count)
      ensures var last := Idx(|D|, s, count - 1); D == mid[last := mid[last].(eop := true)]
    {
      ghost var d0 := D;
      Lengths();
      hide Mirror;
      i := s;
      var last := s;
      for k := 0 to count
        invariant Mirror() && |D| == |d0| && i == Idx(|D|, s, k) && last == Idx(|D|, s, if k == 0 then 0 else k - 1)
        invariant Queued(d0, D, s, cs, k)
      {
        QueueStep(d0, D, s, cs, k);
        SetDesc(i, Desc(Data(GetBuf(i).chunk.value), false, false));
        last := i;
        i := Next(desc.Length, i);
      }
      mid := D;
      SetDesc(last, GetDesc(last).(eop := true));
    }

    /** e1000_tso / e1000_tx_csum: the context descriptor, if the packet needs one. */
    method TxContext(skb: Skb) returns (tso: bool)
      requires Mirror() && nextToUse < |B| == |D|
      modifies bufs, desc, `B, `D, `nextToUse
      ensures Mirror() && tso == (skb.mss != 0) && |B| == |D| == |old(B)| && nextToUse == Idx(|B|, old(nextToUse), Context(skb))
      ensures B == if Context(skb) == 1 then old(B)[old(nextToUse) := old(B[nextToUse]).(watch := old(nextToUse))] else old(B)
      ensures D == if Context(skb) == 1 then old(D)[old(nextToUse) := Desc(Ctx, false, false)] else old(D)
    {
      Lengths();
      hide Mirror;
      tso := skb.mss != 0;
      if skb.mss != 0 || skb.csumPartial {
        var i := nextToUse;
        SetDesc(i, Desc(Ctx, false, false));
        SetBuf(i, GetBuf(i).(watch := i));
        nextToUse := Next(bufs.Length, i);
      }
    }

    /** The part of e1000_xmit_frame behind the reservation. */
    method Enqueue(skb: Skb) returns (ghost b: Block)
      requires Mirror() && RingOk(B, D, nextToClean, nextToUse, inflight)
      requires SkbOk(skb) && Total(inflight) + Needed(mac, skb, lastTxTso) < |B|
      modifies bufs, desc, `B, `D, `nextToUse, `lastTxTso
      ensures b == Block(skb, PacketChunks(mac, skb, old(lastTxTso)), false)
      ensures Mirror() && RingOk(B, D, nextToClean, nextToUse, inflight + [b])
      ensures lastTxTso == NextTso(mac, skb, old(lastTxTso))
    {
      hide Mirror, RingOk, PacketChunks, Mapped, Queued, LastBufs, Needed, SkbOk, Context;
      ghost var b0, d0, tso0 := B, D, lastTxTso;
      var first := nextToUse;
      b := Block(skb, PacketChunks(mac, skb, lastTxTso), false);
      FreeCells(b0, d0, nextToClean, nextToUse, inflight, Size(b));
      var tso := TxContext(skb);
      ghost var b1, d1 := B, D;
      if tso && !mac.is82544 {
        lastTxTso := true;
      }
      TsoIgnoresLast(mac, skb, lastTxTso, tso0);
      var s := nextToUse;
      var n, b2 := TxMap(skb, first, s);
      MappedChunks(b1, b2, B, s, first, skb, b.chunks);
      var i, d2 := TxQueue(s, n, b.chunks);
      EnqueuedRows(b0, d0, b1, d1, b2, d2, B, D, nextToClean, first, inflight, b);
      nextToUse := i;
    }

    /** The descriptor count of e1000_xmit_frame, with the head length sampled before encapsulation. */
    method CountDescs(skb: Skb, sampled: nat) returns (count: nat)
      ensures count == Reserve(mac, skb, lastTxTso, sampled)
    {
      hide UseCount, FragBytes;
      count := 0;
      if skb.mss != 0 || skb.csumPartial {
        count := count + 1;
      }
      count := count + 1;
      if FragBytes(skb.frags) == 0 && lastTxTso && skb.mss == 0 {
        count := count + 1;
      }
      count := count + UseCount(sampled, skb.mss);
      if mac.pcix82544 {
        count := count + 1;
      }
      if mac.pcix && sampled > 2015 {
        count := count + 1;
      }
      ghost var before := count;
      for f := 0 to |skb.frags|
        invariant count + (if mac.pcix82544 then f else 0) + FragReserve(mac, skb, f) == before + FragReserve(mac, skb, 0)
      {
        count := count + UseCount(skb.frags[f].size, skb.mss);
      }
      if mac.pcix82544 {
        count := count + |skb.frags|;
      }
    }

    /** e1000_maybe_stop_tx; nothing else runs between the two checks here. */
    method MaybeStop(size: nat) returns (busy: bool)
      modifies `stopped
      ensures busy == (Unused() < size) && stopped == (old(stopped) || busy)
    {
      if Unused() >= size {
        return false;
      }
      stopped := true;
      busy := Unused() < size;
      stopped := busy;
    }

    /** e1000_xmit_frame for a packet that has been encapsulated and padded. */
    method XmitFrame(skb: Skb, sampled: nat) returns (busy: bool)
      requires Valid() && SkbOk(skb) && GrowthCovered(skb, sampled)
      modifies this, bufs, desc
      ensures Valid() && freed == old(freed) && bytesCompleted == old(bytesCompleted)
      ensures txPackets == old(txPackets) && txBytes == old(txBytes)
      ensures lastTxTso == if busy then old(lastTxTso) else NextTso(mac, skb, old(lastTxTso))
      ensures busy == (old(Unused()) < Reserve(mac, skb, old(lastTxTso), sampled) + 2)
      ensures busy ==> stopped && inflight == old(inflight) && sent == old(sent) && bytesSent == old(bytesSent)
      ensures !busy ==> inflight == old(inflight) + [Block(skb, PacketChunks(mac, skb, old(lastTxTso)), false)]
                        && sent == old(sent) + [skb] && bytesSent == old(bytesSent) + SkbLen(skb)
                        && stopped == (old(stopped) || Unused() < MAX_SKB_FRAGS + 2)
    {
      hide Mirror, RingOk, PacketChunks, Reserve, Needed, GrowthCovered, NextTso, SkbOk, Bytes, Skbs;
      var count := CountDescs(skb, sampled);
      busy := MaybeStop(count + 2);
      if busy {
        return;
      }
      CoveredFits(mac, skb, lastTxTso, sampled);
      UnusedIsFree();
      Admit(skb);
      var _ := MaybeStop(MAX_SKB_FRAGS + 2);
    }

    /** The packet goes into the ring and is counted as sent. */
    method Admit(skb: Skb)
      requires Valid() && SkbOk(skb) && Total(inflight) + Needed(mac, skb, lastTxTso) < |B|
      modifies bufs, desc, `B, `D, `nextToUse, `lastTxTso, `inflight, `sent, `bytesSent
      ensures Valid() && inflight == old(inflight) + [Block(skb, PacketChunks(mac, skb, old(lastTxTso)), false)]
      ensures sent == old(sent) + [skb] && bytesSent == old(bytesSent) + SkbLen(skb) && lastTxTso == NextTso(mac, skb, old(lastTxTso))
    {
      hide Mirror, RingOk, PacketChunks, Needed, NextTso, SkbOk, Bytes, Skbs;
      var b := Enqueue(skb);
      SkbsAppend(inflight, b);
      inflight, sent, bytesSent := inflight + [b], sent + [skb], bytesSent + SkbLen(skb);
    }

    // ---- hardware ------------------------------------------------------------------------------------

    /** The controller's own position: the start of the oldest unfinished packet, or next_to_use. */
    method OldestUnfinished() returns (i: nat, ghost k: nat)
      requires Mirror() && RingOk(B, D, nextToClean, nextToUse, inflight)
      ensures k <= |inflight| && (forall j :: 0 <= j < k ==> inflight[j].done) && i < |B| == |D| && B[i].watch < |B|
      ensures i == nextToUse <==> k == |inflight|
      ensures k < |inflight| ==> EndOk(B, D, nextToClean, inflight, k, B[i].watch) && !inflight[k].done
    {
      hide Mirror, RingOk, EndOk, StartOf;
      Lengths();
      RingLengths(B, D, nextToClean, nextToUse, inflight);
      i, k := nextToClean, 0;
      StartOfFirst(|B|, nextToClean, inflight);
      RingEndAt(B, D, nextToClean, nextToUse, inflight, 0);
      while i != nextToUse && GetDesc(GetBuf(i).watch).dd
        invariant k <= |inflight| && (forall j :: 0 <= j < k ==> inflight[j].done)
        invariant i < |B| && B[i].watch < |B| && Total(inflight[..k]) <= |B| && i == StartOf(|B|, nextToClean, inflight, k)
        invariant i == nextToUse <==> k == |inflight|
        invariant k < |inflight| ==> EndOk(B, D, nextToClean, inflight, k, B[i].watch)
        decreases |inflight| - k
      {
        EndNext(B, D, nextToClean, inflight, k, B[i].watch);
        i := Next(bufs.Length, GetBuf(i).watch);
        k := k + 1;
        RingEndAt(B, D, nextToClean, nextToUse, inflight, k);
      }
      if k < |inflight| {
        EndNext(B, D, nextToClean, inflight, k, B[i].watch);
      }
    }

    /** The controller finishes the oldest unfinished packet, if there is one, and writes the status of its end. */
    method HardwareDone() returns (ghost k: nat)
      requires Valid()
      modifies desc, `D, `inflight
      ensures Valid() && k <= |old(inflight)| && (forall j :: 0 <= j < k ==> old(inflight)[j].done)
      ensures k < |old(inflight)| ==> !old(inflight)[k].done
      ensures inflight == if k < |old(inflight)| then MarkDone(old(inflight), k) else old(inflight)
    {
      hide Mirror, RingOk;
      var i;
      i, k := OldestUnfinished();
      if i != nextToUse {
        EndNext(B, D, nextToClean, inflight, k, B[i].watch);
        RingMark(B, D, nextToClean, nextToUse, inflight, k);
        MarkKeepsSkbs(inflight, k);
        SetDesc(GetBuf(i).watch, GetDesc(GetBuf(i).watch).(dd := true));
        inflight := MarkDone(inflight, k);
      }
    }

    // ---- cleaning ------------------------------------------------------------------------------------

    /** The inner loop of e1000_clean_tx_irq: from `start` up to and including the packet's end `eop`. */
    method CleanPacket(start: nat, eop: nat, ghost b: Block) returns (i: nat, n: nat, segs: nat, bytes: nat, compl: nat)
      requires Mirror() && start < |B| == |D| && 1 <= Size(b) < |B| && eop == Idx(|B|, start, Size(b) - 1)
      requires LastOk(B[eop], D[eop], b)
      requires forall k {:trigger Idx(|B|, start, k)} :: 0 <= k < Size(b) - 1 ==> B[Idx(|B|, start, k)].skb == None
      modifies bufs, desc, `B, `D, `freed
      ensures Mirror() && |B| == |old(B)| && Wiped(old(B), old(D), B, D, start, Size(b))
      ensures i == Idx(|B|, start, Size(b)) && n == Size(b)
      ensures segs == Segs(b.skb) && bytes == ByteCount(b.skb) && compl == SkbLen(b.skb)
      ensures freed == old(freed) + [b.skb]
    {
      ghost var b0, d0 := B, D;
      Lengths();
      hide Mirror;
      i, n, segs, bytes, compl := start, 0, 0, 0, 0;
      var cleaned := false;
      while !cleaned
        invariant Mirror() && |B| == |D| == |b0| && n <= Size(b) && i == Idx(|B|, start, n) && (cleaned <==> n == Size(b))
        invariant Wiped(b0, d0, B, D, start, n)
        invariant cleaned ==> segs == Segs(b.skb) && bytes == ByteCount(b.skb) && compl == SkbLen(b.skb)
        invariant freed == old(freed) + if cleaned then [b.skb] else []
        decreases Size(b) - n
      {
        WipeStep(b0, d0, B, D, start, n);
        IdxInjective(|B|, start, n, Size(b) - 1);
        var buf := GetBuf(i);
        cleaned := i == eop;
        if cleaned {
          segs, bytes := buf.segs, buf.bytecount;
          if buf.skb.Some? {
            compl := SkbLen(buf.skb.value);
          }
        }
        if buf.skb.Some? {
          freed := freed + [buf.skb.value];
        }
        SetBuf(i, FreedBuf(buf));
        SetDesc(i, GetDesc(i).(dd := false));
        n := n + 1;
        i := Next(bufs.Length, i);
      }
    }

    /** The outer loop of e1000_clean_tx_irq: packet by packet while the next end is done. */
    method CleanPackets() returns (i: nat, count: nat, packets: nat, bytes: nat, compl: nat, ghost k: nat)
      requires Mirror() && RingOk(B, D, nextToClean, nextToUse, inflight)
      modifies bufs, desc, `B, `D, `freed
      ensures Mirror() && |B| == |old(B)| && k <= |inflight| && RingOk(B, D, i, nextToUse, inflight[k..])
      ensures (forall j :: 0 <= j < k ==> inflight[j].done) && (k < |inflight| ==> !inflight[k].done)
      ensures count < |B| && (count == 0 <==> k == 0)
      ensures freed == old(freed) + Skbs(inflight[..k]) && compl == Bytes(inflight[..k])
      ensures packets == Packets(inflight[..k]) && bytes == WireBytes(inflight[..k])
    {
      hide Mirror, RingOk, Skbs, Bytes, Packets, WireBytes, Wiped;
      ghost var bs0 := inflight;
      i, count, packets, bytes, compl, k := nextToClean, 0, 0, 0, 0, 0;
      SumsNothing();
      assert bs0[..0] == [] && bs0[0..] == bs0;
      RingLengths(B, D, i, nextToUse, bs0);
      Lengths();
      OldestEnd(B, D, i, nextToUse, bs0);
      var eop := GetBuf(i).watch;
      while GetDesc(eop).dd && count < bufs.Length
        invariant Mirror() && k <= |bs0| && i < |B| == |D| == |old(B)| == bufs.Length && eop < |B| && eop == B[i].watch
        invariant RingOk(B, D, i, nextToUse, bs0[k..])
        invariant (forall j :: 0 <= j < k ==> bs0[j].done) && count + Total(bs0[k..]) < |B| && (count == 0 <==> k == 0)
        invariant freed == old(freed) + Skbs(bs0[..k]) && compl == Bytes(bs0[..k])
        invariant packets == Packets(bs0[..k]) && bytes == WireBytes(bs0[..k])
        decreases |bs0| - k
      {
        OldestEnd(B, D, i, nextToUse, bs0[k..]);
        ghost var b0, d0, at, b := B, D, i, bs0[k];
        assert bs0[k..][0] == b && bs0[k..][1..] == bs0[k + 1..];
        var n, segs, wire, len;
        i, n, segs, wire, len := CleanPacket(i, eop, b);
        RemoveOldest(b0, d0, B, D, at, nextToUse, bs0[k..]);
        SumsSnoc(bs0, k);
        assert old(freed) + Skbs(bs0[..k]) + [b.skb] == old(freed) + (Skbs(bs0[..k]) + [b.skb]);
        packets, bytes, compl, count, k := packets + segs, bytes + wire, compl + len, count + n, k + 1;
        RingLengths(B, D, i, nextToUse, bs0[k..]);
        OldestEnd(B, D, i, nextToUse, bs0[k..]);
        eop := GetBuf(i).watch;
      }
      OldestEnd(B, D, i, nextToUse, bs0[k..]);
    }

    /** e1000_clean_tx_irq: free finished packets from the front, report them, and wake the queue if it was
        stopped and there is room again. `k` packets are freed: the finished ones up to the first unfinished. */
    method CleanTxIrq(carrier: bool, down: bool) returns (more: bool, ghost k: nat)
      requires Valid()
      modifies this, bufs, desc
      ensures Valid() && sent == old(sent) && bytesSent == old(bytesSent) && lastTxTso == old(lastTxTso)
      ensures k <= |old(inflight)| && inflight == old(inflight)[k..]
      ensures (forall j :: 0 <= j < k ==> old(inflight)[j].done) && (inflight != [] ==> !inflight[0].done)
      ensures freed == old(freed) + Skbs(old(inflight)[..k])
      ensures bytesCompleted == old(bytesCompleted) + Bytes(old(inflight)[..k])
      ensures txPackets == old(txPackets) + Packets(old(inflight)[..k]) && txBytes == old(txBytes) + WireBytes(old(inflight)[..k])
      ensures stopped == (old(stopped) && !(0 < k && carrier && !down && Unused() >= TX_WAKE_THRESHOLD))
      ensures more
    {
      hide Mirror, RingOk, Skbs, Bytes, Packets, WireBytes;
      var count, packets, bytes, compl;
      count, packets, bytes, compl, k := Retire();
      bytesCompleted, txPackets, txBytes := bytesCompleted + compl, txPackets + packets, txBytes + bytes;
      MaybeWake(count != 0, carrier, down);
      more := count < bufs.Length;
    }

    /** The finished packets at the front leave the ring; their bytes are still to be reported. */
    method Retire() returns (count: nat, packets: nat, bytes: nat, compl: nat, ghost k: nat)
      requires Valid()
      modifies bufs, desc, `B, `D, `freed, `nextToClean, `inflight
      ensures Mirror() && RingOk(B, D, nextToClean, nextToUse, inflight) && |B| == |old(B)| == bufs.Length && count < bufs.Length
      ensures k <= |old(inflight)| && inflight == old(inflight)[k..] && (count == 0 <==> k == 0)
      ensures (forall j :: 0 <= j < k ==> old(inflight)[j].done) && (inflight != [] ==> !inflight[0].done)
      ensures freed == old(freed) + Skbs(old(inflight)[..k]) && sent == freed + Skbs(inflight)
      ensures compl == Bytes(old(inflight)[..k]) && bytesSent == bytesCompleted + compl + Bytes(inflight)
      ensures packets == Packets(old(inflight)[..k]) && bytes == WireBytes(old(inflight)[..k])
    {
      hide Mirror, RingOk, Skbs, Bytes, Packets, WireBytes;
      ghost var bs0 := inflight;
      Lengths();
      var i;
      i, count, packets, bytes, compl, k := CleanPackets();
      Lengths();
      SumsSplit(bs0, k);
      assert old(freed) + Skbs(bs0[..k]) + Skbs(bs0[k..]) == old(freed) + (Skbs(bs0[..k]) + Skbs(bs0[k..]));
      nextToClean, inflight := i, bs0[k..];
    }

    /** The wake-up at the end of e1000_clean_tx_irq. */
    method MaybeWake(cleaned: bool, carrier: bool, down: bool)
      modifies `stopped
      ensures stopped == (old(stopped) && !(cleaned && carrier && !down && Unused() >= TX_WAKE_THRESHOLD))
    {
      if cleaned && carrier && Unused() >= TX_WAKE_THRESHOLD {
        if stopped && !down {
          stopped := false;
        }
      }
    }

    // ---- events --------------------------------------------------------------------------------------

    /** What the ring stands for. */
    ghost function AsQueue(): Queue
      reads this
    {
      Queue(inflight, sent, freed, lastTxTso, stopped, bytesSent, bytesCompleted, txPackets, txBytes)
    }

    /** One event does to the ring what it does to the queue. */
    method Step(e: Event)
      requires Valid() && EventOk(e)
      modifies this, bufs, desc
      ensures Valid() && |B| == |old(B)| && AsQueue() == After(|B|, mac, old(AsQueue()), e)
    {
      hide Mirror, RingOk, Skbs, Bytes, Packets, WireBytes, SkbOk, GrowthCovered, Reserve, MarkDone, PacketChunks, NextTso, SkbLen;
      Lengths();
      UnusedIsFree();
      match e
      case Xmit(skb, sampled) =>
        var _ := XmitFrame(skb, sampled);
        UnusedIsFree();
      case Done =>
        var k := HardwareDone();
        FinishedFrontIs(old(inflight), k);
      case Clean(carrier, down) =>
        var _, k := CleanTxIrq(carrier, down);
        FinishedFrontIs(old(inflight), k);
        UnusedIsFree();
      Lengths();
    }
  }

  /** Something that happens to the ring. */
  datatype Event = Xmit(skb: Skb, sampled: nat) | Done | Clean(carrier: bool, down: bool)

  predicate EventOk(e: Event) {
    e.Xmit? ==> SkbOk(e.skb) && GrowthCovered(e.skb, e.sampled)
  }

  /** The ring as a plain queue, with what e1000_xmit_frame and e1000_clean_tx_irq report. */
  datatype Queue = Queue(inflight: seq<Block>, sent: seq<Skb>, freed: seq<Skb>, lastTso: bool, stopped: bool,
                         bytesSent: nat, bytesCompleted: nat, txPackets: nat, txBytes: nat)

  /** last_tx_tso after a packet. */
  predicate NextTso(mac: Mac, skb: Skb, lastTso: bool) {
    (skb.mss != 0 && !mac.is82544) || (lastTso && !Shaved(skb, lastTso))
  }

  /** How many packets at the front are finished. */
  function FinishedFront(bs: seq<Block>): (k: nat)
    ensures k <= |bs|
  {
    if bs == [] || !bs[0].done then 0 else 1 + FinishedFront(bs[1..])
  }

  lemma {:induction false} FinishedFrontIs(bs: seq<Block>, k: nat)
    requires k <= |bs| && (forall j :: 0 <= j < k ==> bs[j].done) && (k < |bs| ==> !bs[k].done)
    ensures FinishedFront(bs) == k
  {
    if k > 0 {
      assert bs[0].done;
      FinishedFrontIs(bs[1..], k - 1);
    }
  }

  /** Free descriptors in a ring of `count`, less the one that keeps the indices apart. */
  function Room(count: nat, bs: seq<Block>): int {
    count - 1 - Total(bs)
  }

  ghost function AfterXmit(count: nat, mac: Mac, q: Queue, skb: Skb, sampled: nat): Queue
    requires SkbOk(skb)
  {
    if Room(count, q.inflight) < Reserve(mac, skb, q.lastTso, sampled) + 2 then q.(stopped := true)
    else
      var bs := q.inflight + [Block(skb, PacketChunks(mac, skb, q.lastTso), false)];
      q.(inflight := bs, sent := q.sent + [skb], bytesSent := q.bytesSent + SkbLen(skb), lastTso := NextTso(mac, skb, q.lastTso),
         stopped := q.stopped || Room(count, bs) < MAX_SKB_FRAGS + 2)
  }

  /** The oldest unfinished packet is finished. */
  ghost function AfterDone(q: Queue): Queue {
    var k := FinishedFront(q.inflight);
    if k < |q.inflight| then q.(inflight := MarkDone(q.inflight, k)) else q
  }

  /** The finished packets at the front are freed and reported. */
  ghost function AfterClean(count: nat, q: Queue, carrier: bool, down: bool): Queue {
    var k := FinishedFront(q.inflight);
    var gone, rest := q.inflight[..k], q.inflight[k..];
    q.(inflight := rest, freed := q.freed + Skbs(gone), bytesCompleted := q.bytesCompleted + Bytes(gone),
       txPackets := q.txPackets + Packets(gone), txBytes := q.txBytes + WireBytes(gone),
       stopped := q.stopped && !(0 < k && carrier && !down && Room(count, rest) >= TX_WAKE_THRESHOLD))
  }

  ghost function After(count: nat, mac: Mac, q: Queue, e: Event): Queue
    requires EventOk(e)
  {
    match e
    case Xmit(skb, sampled) => AfterXmit(count, mac, q, skb, sampled)
    case Done => AfterDone(q)
    case Clean(carrier, down) => AfterClean(count, q, carrier, down)
  }

  /** The queue after a list of events. */
  ghost function Outcome(count: nat, mac: Mac, es: seq<Event>): Queue
    requires forall e :: e in es ==> EventOk(e)
  {
    if es == [] then Queue([], [], [], false, false, 0, 0, 0, 0) else
      assert es[|es| - 1] in es;
      After(count, mac, Outcome(count, mac, es[..|es| - 1]), es[|es| - 1])
  }

  /** The ring is the queue, after every list of events; what has been freed is what was sent first, in order and once each, the
      byte counters differ by the bytes in flight, and the indices never meet. */
  method Run(count: nat, mac: Mac, es: seq<Event>) returns (r: Ring)
    requires 0 < count && forall e :: e in es ==> EventOk(e)
    ensures r.Valid() && |r.B| == count && r.AsQueue() == Outcome(count, mac, es)
    ensures r.freed <= r.sent && r.sent[|r.freed|..] == Skbs(r.inflight)
    ensures r.bytesSent - r.bytesCompleted == Bytes(r.inflight)
    ensures 0 <= r.Unused() == count - 1 - Total(r.inflight)
  {
    hide RingOk, Skbs, Bytes, EventOk, SkbOk, After;
    r := new Ring(count, mac);
    for i := 0 to |es|
      invariant r.Valid() && |r.B| == count && fresh(r) && fresh(r.bufs) && fresh(r.desc) && r.mac == mac
      invariant r.AsQueue() == Outcome(count, mac, es[..i])
    {
      assert es[..i + 1][..i] == es[..i] && es[..i + 1][i] == es[i];
      assert es[i] in es;
      r.Step(es[i]);
    }
    assert es[..|es|] == es;
    r.UnusedIsFree();
    r.Lengths();
    RingLengths(r.B, r.D, r.nextToClean, r.nextToUse, r.inflight);
  }

  /** Where packet `k` starts; past the last one this is where the next will start. */
  function StartOf(count: nat, at: nat, bs: seq<Block>, k: nat): (i: nat)
    requires at < count && k <= |bs| && Total(bs[..k]) <= count
  {
    Idx(count, at, Total(bs[..k]))
  }

  /** `e` is the end of packet `k`, with its status, and the next packet starts behind it. */
  ghost predicate EndOk(bufs: seq<Buf>, ds: seq<Desc>, at: nat, bs: seq<Block>, k: nat, e: nat) {
    && k < |bs| && |bufs| == |ds| && at < |bufs| && e < |bufs|
    && 0 <= EndOffset(bs, k) < |bufs| && e == Idx(|bufs|, at, EndOffset(bs, k))
    && ds[e].dd == bs[k].done
    && Total(bs[..k + 1]) < |bufs| && Idx(|bufs|, e, 1) == StartOf(|bufs|, at, bs, k + 1)
  }

  lemma StartOfFirst(count: nat, at: nat, bs: seq<Block>)
    requires at < count
    ensures Total(bs[..0]) == 0 && StartOf(count, at, bs, 0) == at
  {
  }

  lemma EndNext(bufs: seq<Buf>, ds: seq<Desc>, at: nat, bs: seq<Block>, k: nat, e: nat)
    requires EndOk(bufs, ds, at, bs, k, e)
    ensures k < |bs| && e < |bufs| == |ds| && ds[e].dd == bs[k].done
    ensures at < |bufs| && Total(bs[..k + 1]) <= |bufs| && Idx(|bufs|, e, 1) == StartOf(|bufs|, at, bs, k + 1)
  {
  }

  lemma HeadFits(mac: Mac, skb: Skb, lastTso: bool)
    requires SkbOk(skb)
    ensures 0 < skb.headLen && PartOk(HeadPart(mac, skb, lastTso), skb.headLen)
    ensures 0 < |PartChunks(HeadPart(mac, skb, lastTso), 0, skb.headLen, 0)| <= |PacketChunks(mac, skb, lastTso)|
  {
  }

  lemma RingLengths(bufs: seq<Buf>, ds: seq<Desc>, at: nat, use: nat, bs: seq<Block>)
    requires RingOk(bufs, ds, at, use, bs)
    ensures |bufs| == |ds| && at < |bufs| && use < |bufs| && Total(bs) < |bufs|
  {
  }

  lemma {:induction false} TotalSplit(bs: seq<Block>, k: nat)
    requires k <= |bs|
    ensures Total(bs) == Total(bs[..k]) + Total(bs[k..])
  {
    if k == 0 {
      assert bs[..0] == [] && bs[0..] == bs;
    } else {
      assert bs[..k][0] == bs[0] && bs[..k][1..] == bs[1..][..k - 1] && bs[1..][k - 1..] == bs[k..];
      TotalSplit(bs[1..], k - 1);
    }
  }

  lemma {:induction false} EndOffsetIs(bs: seq<Block>, k: nat)
    requires k < |bs|
    ensures EndOffset(bs, k) == Total(bs[..k]) + Size(bs[k]) - 1 == Total(bs[..k + 1]) - 1
    decreases k
  {
    if k == 0 {
      assert bs[..1] == [bs[0]] && [bs[0]][1..] == [];
      assert Total(bs[..0]) == 0;
    } else {
      EndOffsetIs(bs[1..], k - 1);
      assert bs[..k][0] == bs[0] && bs[..k][1..] == bs[1..][..k - 1];
      assert bs[..k + 1][0] == bs[0] && bs[..k + 1][1..] == bs[1..][..k];
    }
  }

  lemma {:induction false} ChainAt(bufs: seq<Buf>, ds: seq<Desc>, s: nat, bs: seq<Block>, k: nat)
    requires k <= |bs| && Chain(bufs, ds, s, bs) && s < |bufs| == |ds| && Total(bs) < |bufs|
    ensures Total(bs[..k]) <= Total(bs) && Chain(bufs, ds, StartOf(|bufs|, s, bs, k), bs[k..])
    decreases k
  {
    hide BlockOk;
    TotalSplit(bs, k);
    if k == 0 {
      assert bs[..0] == [] && bs[0..] == bs;
    } else {
      ChainAt(bufs, ds, Idx(|bufs|, s, Size(bs[0])), bs[1..], k - 1);
      assert bs[..k][0] == bs[0] && bs[..k][1..] == bs[1..][..k - 1] && bs[1..][k - 1..] == bs[k..];
      IdxAdd(|bufs|, s, Size(bs[0]), Total(bs[1..][..k - 1]));
    }
  }

  /** Following next_to_watch from packet `k` leads to its end. */
  lemma RingEndAt(bufs: seq<Buf>, ds: seq<Desc>, at: nat, use: nat, bs: seq<Block>, k: nat)
    requires RingOk(bufs, ds, at, use, bs) && k <= |bs|
    ensures |bufs| == |ds| && at < |bufs| && Total(bs[..k]) <= |bufs|
    ensures var i := StartOf(|bufs|, at, bs, k);
            i < |bufs| && bufs[i].watch < |bufs| && (i == use <==> k == |bs|)
            && (k < |bs| ==> EndOk(bufs, ds, at, bs, k, bufs[i].watch))
  {
    if k < |bs| {
      RingEndInside(bufs, ds, at, use, bs, k);
    } else {
      assert bs[..k] == bs;
      ChainSizes(bufs, ds, at, bs);
    }
  }

  lemma RingEndInside(bufs: seq<Buf>, ds: seq<Desc>, at: nat, use: nat, bs: seq<Block>, k: nat)
    requires RingOk(bufs, ds, at, use, bs) && k < |bs|
    ensures |bufs| == |ds| && at < |bufs| && Total(bs[..k]) <= |bufs|
    ensures var i := StartOf(|bufs|, at, bs, k);
            i < |bufs| && bufs[i].watch < |bufs| && i != use && EndOk(bufs, ds, at, bs, k, bufs[i].watch)
  {
    ChainAt(bufs, ds, at, bs, k);
    TotalSplit(bs, k);
    EndOffsetIs(bs, k);
    TotalSplit(bs, k + 1);
    assert bs[k..][0] == bs[k];
    IdxAdd(|bufs|, at, Total(bs[..k]), Size(bs[k]) - 1);
    IdxAdd(|bufs|, at, EndOffset(bs, k), 1);
    TotalPositive(bs[k..]);
    IdxInjective(|bufs|, at, Total(bs[..k]), Total(bs));
  }

  lemma TotalPositive(bs: seq<Block>)
    requires bs != [] && 1 <= Size(bs[0])
    ensures 0 < Total(bs)
  {
  }

  /** Segments and bytes on the wire, as the statistics count them. */
  function Packets(bs: seq<Block>): nat {
    if bs == [] then 0 else Segs(bs[0].skb) + Packets(bs[1..])
  }

  function WireBytes(bs: seq<Block>): nat {
    if bs == [] then 0 else ByteCount(bs[0].skb) + WireBytes(bs[1..])
  }

  lemma SumsNothing()
    ensures Skbs([]) == [] && Bytes([]) == 0 && Packets([]) == 0 && WireBytes([]) == 0
  {
  }

  lemma {:induction false} SumsAppend(bs: seq<Block>, b: Block)
    ensures Packets(bs + [b]) == Packets(bs) + Segs(b.skb)
    ensures WireBytes(bs + [b]) == WireBytes(bs) + ByteCount(b.skb)
  {
    if bs != [] {
      assert (bs + [b])[1..] == bs[1..] + [b];
      SumsAppend(bs[1..], b);
    } else {
      assert [] + [b] == [b];
    }
  }

  lemma SumsSnoc(bs: seq<Block>, k: nat)
    requires k < |bs|
    ensures Skbs(bs[..k + 1]) == Skbs(bs[..k]) + [bs[k].skb] && Bytes(bs[..k + 1]) == Bytes(bs[..k]) + SkbLen(bs[k].skb)
    ensures Packets(bs[..k + 1]) == Packets(bs[..k]) + Segs(bs[k].skb)
    ensures WireBytes(bs[..k + 1]) == WireBytes(bs[..k]) + ByteCount(bs[k].skb)
  {
    assert bs[..k + 1] == bs[..k] + [bs[k]];
    SkbsAppend(bs[..k], bs[k]);
    SumsAppend(bs[..k], bs[k]);
  }

  lemma {:induction false} SumsSplit(bs: seq<Block>, k: nat)
    requires k <= |bs|
    ensures Skbs(bs) == Skbs(bs[..k]) + Skbs(bs[k..]) && Bytes(bs) == Bytes(bs[..k]) + Bytes(bs[k..])
  {
    if k == 0 {
      assert bs[..0] == [] && bs[0..] == bs;
    } else {
      assert bs[..k][0] == bs[0] && bs[..k][1..] == bs[1..][..k - 1] && bs[1..][k - 1..] == bs[k..];
      SumsSplit(bs[1..], k - 1);
    }
  }

  lemma {:induction false} MarkKeepsSkbs(bs: seq<Block>, k: nat)
    requires k < |bs|
    ensures Skbs(MarkDone(bs, k)) == Skbs(bs) && Bytes(MarkDone(bs, k)) == Bytes(bs)
  {
    if k == 0 {
      assert MarkDone(bs, k)[1..] == bs[1..];
    } else {
      assert MarkDone(bs, k)[1..] == MarkDone(bs[1..], k - 1);
      MarkKeepsSkbs(bs[1..], k - 1);
    }
  }

  /** All steps of a transmit together put the packet at the end of the queue. */
  lemma RowsAreSteps(b0: seq<Buf>, d0: seq<Desc>, b1: seq<Buf>, d1: seq<Desc>, b2: seq<Buf>, d2: seq<Desc>,
                     bufs: seq<Buf>, ds: seq<Desc>, at: nat, first: nat, bs: seq<Block>, b: Block)
    requires RingOk(b0, d0, at, first, bs) && |b0| == |d0| == |b2| == |d2|
    requires first < |b0| && 0 < |b.chunks| && Total(bs) + Size(b) < |b0| && !b.done
    requires b1 == if Context(b.skb) == 1 then b0[first := b0[first].(watch := first)] else b0
    requires d1 == if Context(b.skb) == 1 then d0[first := Desc(Ctx, false, false)] else d0
    requires var s := Idx(|b0|, first, Context(b.skb));
             Mapped(b1, b2, s, b.chunks) && Queued(d1, d2, s, b.chunks, |b.chunks|)
             && var last := Idx(|b0|, s, |b.chunks| - 1);
                bufs == LastBufs(b2, first, last, b.skb) && ds == d2[last := d2[last].(eop := true)]
    ensures Steps(b0, d0, b1, d1, b2, d2, first, b)
  {
    hide Mapped, Queued, RingOk;
    FreeCells(b0, d0, at, first, bs, Size(b));
  }

  lemma EnqueuedRows(b0: seq<Buf>, d0: seq<Desc>, b1: seq<Buf>, d1: seq<Desc>, b2: seq<Buf>, d2: seq<Desc>,
                     bufs: seq<Buf>, ds: seq<Desc>, at: nat, first: nat, bs: seq<Block>, b: Block)
    requires RingOk(b0, d0, at, first, bs) && |b0| == |d0| == |b2| == |d2|
    requires first < |b0| && 0 < |b.chunks| && Total(bs) + Size(b) < |b0| && !b.done
    requires b1 == if Context(b.skb) == 1 then b0[first := b0[first].(watch := first)] else b0
    requires d1 == if Context(b.skb) == 1 then d0[first := Desc(Ctx, false, false)] else d0
    requires var s := Idx(|b0|, first, Context(b.skb));
             Mapped(b1, b2, s, b.chunks) && Queued(d1, d2, s, b.chunks, |b.chunks|)
             && var last := Idx(|b0|, s, |b.chunks| - 1);
                bufs == LastBufs(b2, first, last, b.skb) && ds == d2[last := d2[last].(eop := true)]
    ensures RingOk(bufs, ds, at, Idx(|b0|, Idx(|b0|, first, Context(b.skb)), |b.chunks|), bs + [b])
  {
    hide Steps, RingOk, Mapped, Queued, Placed, LastBufs;
    var x, n := Context(b.skb), |b.chunks|;
    RowsAreSteps(b0, d0, b1, d1, b2, d2, bufs, ds, at, first, bs, b);
    FreeCells(b0, d0, at, first, bs, Size(b));
    IdxAdd(|b0|, first, x, n - 1);
    IdxAdd(|b0|, first, x, n);
    StepsPlace(b0, d0, b1, d1, b2, d2, first, b);
    AppendPacket(b0, d0, bufs, ds, at, first, bs, b);
  }

  lemma TsoIgnoresLast(mac: Mac, skb: Skb, a: bool, b: bool)
    requires SkbOk(skb) && (skb.mss != 0 || a == b)
    ensures PacketChunks(mac, skb, a) == PacketChunks(mac, skb, b)
  {
    assert HeadPart(mac, skb, a) == HeadPart(mac, skb, b);
  }

  /** Behind the packets in flight there is room for `n` more descriptors. */
  lemma FreeCells(bufs: seq<Buf>, ds: seq<Desc>, at: nat, use: nat, bs: seq<Block>, n: nat)
    requires RingOk(bufs, ds, at, use, bs) && Total(bs) + n < |bufs|
    ensures |bufs| == |ds| && use < |bufs|
    ensures forall k {:trigger Idx(|bufs|, use, k)} :: 0 <= k < |bufs| ==>
              bufs[Idx(|bufs|, use, k)].watch < |bufs| && (k < n ==> bufs[Idx(|bufs|, use, k)].skb == None)
  {
    forall k | 0 <= k < n
      ensures bufs[Idx(|bufs|, use, k)].skb == None
    {
      IdxAdd(|bufs|, at, Total(bs), k);
    }
  }

  lemma MappedChunks(b1: seq<Buf>, b2: seq<Buf>, b3: seq<Buf>, s: nat, first: nat, skb: Skb, cs: seq<Chunk>)
    requires Mapped(b1, b2, s, cs) && first < |b2| && 0 < |cs| && b3 == LastBufs(b2, first, Idx(|b2|, s, |cs| - 1), skb)
    ensures |b3| == |b1| && forall k {:trigger Idx(|b3|, s, k)} :: 0 <= k < |cs| ==> b3[Idx(|b3|, s, k)].chunk == Some(cs[k])
  {
  }
}
