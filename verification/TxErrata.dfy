/**
 What the adjustments of e1000_tx_map are for, said of the pieces of a whole packet.
 */
module TxErrata {
  import opened TxSplit
  import opened TxLayout

  /** The address of the first byte of a part. */
  function Base(skb: Skb, part: nat): nat
    requires part <= |skb.frags|
  {
    if part == 0 then skb.headAddr else skb.frags[part - 1].phys
  }

  // ---- PCI-X: the first buffer ---------------------------------------------------------------------------------------

  /** On a PCI-X bus the first buffer of a packet has at most 2015 bytes (errata 10). */
  lemma FirstIsShort(mac: Mac, skb: Skb, lastTso: bool)
    requires SkbOk(skb) && mac.pcix
    ensures PacketChunks(mac, skb, lastTso)[0].size <= 2015
  {
    hide FragsChunks;
    PacketUnfold(mac, skb, lastTso);
  }

  // ---- 82544 on PCI-X: where buffers end -----------------------------------------------------------------------------

  /** No buffer of more than four bytes ends in an evenly aligned dword. */
  ghost predicate EndsWell(cs: seq<Chunk>, part: nat, base: nat) {
    forall i {:trigger cs[i]} :: 0 <= i < |cs| && cs[i].part == part && cs[i].size > 4 ==> !Bit2Clear(base + cs[i].offset + cs[i].size - 1)
  }

  lemma PieceEndsWell(p: Part, len: nat, offset: nat)
    requires PartOk(p, offset + len) && 0 < len && p.dword
    ensures var s := PieceSize(p, len, offset); s > 4 ==> !Bit2Clear(p.base + offset + s - 1)
  {
    var first := offset == 0;
    var s0 := Min(len, p.max);
    var s1 := if p.shave && first then s0 - 4 else s0;
    var s2 := if p.sentinel && s1 == len && s1 > 8 then s1 - 4 else s1;
    var s3 := if p.cap && s2 > 2015 && first then 2015 else s2;
    if s3 > 4 && Bit2Clear(p.base + offset + s3 - 1) {
      ShortenedIsAligned(p.base + offset + s3 - 1);
    }
  }

  lemma {:induction false} PartEndsWell(p: Part, part: nat, len: nat, offset: nat)
    requires PartOk(p, offset + len) && p.dword
    ensures EndsWell(PartChunks(p, part, len, offset), part, p.base)
    ensures forall i :: 0 <= i < |PartChunks(p, part, len, offset)| ==> PartChunks(p, part, len, offset)[i].part == part
    decreases len
  {
    hide PieceSize, PartChunks, Bit2Clear, PartOk;
    ChunksUnfold(p, part, len, offset);
    if len > 0 {
      PieceEndsWell(p, len, offset);
      var s := PieceSize(p, len, offset);
      PartEndsWell(p, part, len - s, offset + s);
    }
  }

  /** A piece and the address its part starts at. */
  ghost predicate AllEndWell(skb: Skb, cs: seq<Chunk>) {
    forall i {:trigger cs[i]} :: 0 <= i < |cs| ==>
      cs[i].part <= |skb.frags| && (cs[i].size > 4 ==> !Bit2Clear(Base(skb, cs[i].part) + cs[i].offset + cs[i].size - 1))
  }

  lemma {:induction false} FragsEndWell(mac: Mac, skb: Skb, f: nat)
    requires f <= |skb.frags| && mac.pcix82544
    ensures AllEndWell(skb, FragsChunks(mac, skb, f))
    decreases |skb.frags| - f
  {
    hide PartChunks, Bit2Clear;
    FragsUnfold(mac, skb, f);
    if f < |skb.frags| {
      PartEndsWell(FragPart(mac, skb, f), f + 1, skb.frags[f].size, 0);
      FragsEndWell(mac, skb, f + 1);
    }
  }

  /** On an 82544 in PCI-X mode every buffer of more than four bytes ends with bit 2 of its address set. */
  lemma BuffersEndWell(mac: Mac, skb: Skb, lastTso: bool)
    requires SkbOk(skb) && mac.pcix82544
    ensures AllEndWell(skb, PacketChunks(mac, skb, lastTso))
  {
    hide PartChunks, FragsChunks, PacketChunks, Bit2Clear;
    PacketUnfold(mac, skb, lastTso);
    PartEndsWell(HeadPart(mac, skb, lastTso), 0, skb.headLen, 0);
    FragsEndWell(mac, skb, 0);
  }

  // ---- TSO: the sentinel ---------------------------------------------------------------------------------------------

  lemma {:induction false} PartSentinel(p: Part, part: nat, len: nat, offset: nat)
    requires PartOk(p, offset + len) && p.sentinel && 0 < len
    ensures var cs := PartChunks(p, part, len, offset); cs != [] && cs[|cs| - 1].size <= 8
    decreases len
  {
    hide PartChunks, PieceSize, PartOk;
    ChunksUnfold(p, part, len, offset);
    SentinelIsShort(p, len, offset);
    var s := PieceSize(p, len, offset);
    if s < len {
      PartSentinel(p, part, len - s, offset + s);
    } else {
      ChunksUnfold(p, part, 0, offset + s);
    }
  }

  lemma SentinelIsShort(p: Part, len: nat, offset: nat)
    requires PartOk(p, offset + len) && p.sentinel && 0 < len
    ensures var s := PieceSize(p, len, offset); 0 < s <= len && PartOk(p, offset + s + (len - s)) && (s == len ==> len <= 8)
  {
  }

  lemma {:induction false} FragsSentinel(mac: Mac, skb: Skb, f: nat)
    requires f < |skb.frags| && skb.mss != 0 && 0 < skb.frags[|skb.frags| - 1].size
    ensures var cs := FragsChunks(mac, skb, f); cs != [] && cs[|cs| - 1].size <= 8
    decreases |skb.frags| - f
  {
    hide PartChunks, FragsChunks;
    FragsUnfold(mac, skb, f);
    if f == |skb.frags| - 1 {
      PartSentinel(FragPart(mac, skb, f), f + 1, skb.frags[f].size, 0);
      FragsUnfold(mac, skb, f + 1);
    } else {
      FragsSentinel(mac, skb, f + 1);
    }
  }

  /** The last buffer of a TSO packet is a sentinel of at most eight bytes, if the last part is not empty. */
  lemma LastIsSentinel(mac: Mac, skb: Skb, lastTso: bool)
    requires SkbOk(skb) && skb.mss != 0 && (skb.frags != [] ==> 0 < skb.frags[|skb.frags| - 1].size)
    ensures var cs := PacketChunks(mac, skb, lastTso); cs[|cs| - 1].size <= 8
  {
    hide PartChunks, FragsChunks, PacketChunks;
    PacketUnfold(mac, skb, lastTso);
    if skb.frags == [] {
      PartSentinel(HeadPart(mac, skb, lastTso), 0, skb.headLen, 0);
      FragsUnfold(mac, skb, 0);
    } else {
      FragsSentinel(mac, skb, 0);
    }
  }

  // ---- a linear packet after TSO -------------------------------------------------------------------------------------

  /** A linear packet behind a TSO packet takes at least two buffers. */
  lemma LinearAfterTso(mac: Mac, skb: Skb, lastTso: bool)
    requires SkbOk(skb) && lastTso && skb.mss == 0 && FragBytes(skb.frags) == 0
    ensures 2 <= |PacketChunks(mac, skb, lastTso)|
  {
    hide PartChunks, FragsChunks, PacketChunks;
    PacketUnfold(mac, skb, lastTso);
    var p := HeadPart(mac, skb, lastTso);
    ChunksUnfold(p, 0, skb.headLen, 0);
    var s := PieceSize(p, skb.headLen, 0);
    assert s < skb.headLen;
    ChunksUnfold(p, 0, skb.headLen - s, s);
  }

  // ---- and nothing else ----------------------------------------------------------------------------------------------

  /** Where none of this applies a buffer takes all that is left, up to max_per_txd. */
  lemma PlainPiece(p: Part, len: nat, offset: nat)
    requires PartOk(p, offset + len) && 0 < len && !p.dword && (offset > 0 || (!p.shave && !p.cap)) && (!p.sentinel || p.max < len || len <= 8)
    ensures PieceSize(p, len, offset) == if len < p.max then len else p.max
  {
  }
}
