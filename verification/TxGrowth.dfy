/**
 The head of a packet may grow by 42 bytes between the moment its length is sampled and the moment it is cut into buffers. For which
 segment sizes does the reservation still cover every packet?
 */
module TxGrowth {
  import opened Shifts
  import opened TxSplit

  /** Ethernet, IPv4 and UDP headers */
  const ENCAP := 42
  /** Ethernet, IPv4 and TCP headers, without which no packet is segmented */
  const TSO_HEAD := 54

  /** The packet has been encapsulated since its head was `sampled` bytes long. */
  predicate Grown(skb: Skb, sampled: nat) {
    SkbOk(skb) && skb.headLen <= sampled + ENCAP
  }

  /** A packet to be segmented has its headers in the head, asks for a checksum and has more payload than one segment holds. */
  predicate Segmentable(skb: Skb, sampled: nat) {
    skb.mss != 0 ==> TSO_HEAD <= sampled && skb.csumPartial && TSO_HEAD + skb.mss < sampled + FragBytes(skb.frags)
  }

  ghost predicate Fits(mac: Mac, skb: Skb, lastTso: bool, sampled: nat)
    requires SkbOk(skb)
  {
    Needed(mac, skb, lastTso) <= Reserve(mac, skb, lastTso, sampled) + 2
  }

  /** Every packet of this segment size fits after encapsulation. */
  ghost predicate AllFit(mss: nat) {
    forall mac, skb, lastTso, sampled {:trigger Fits(mac, skb, lastTso, sampled)} ::
      Grown(skb, sampled) && Segmentable(skb, sampled) && skb.mss == mss ==> Fits(mac, skb, lastTso, sampled)
  }

  // ---- counting buffers by their true size ---------------------------------------------------------------------------

  /** The size of a buffer that neither starts nor ends a part. */
  function SteadySize(p: Part): int {
    if p.dword && p.max % 8 == 4 then p.max - 4 else p.max
  }

  predicate Small(p: Part) {
    8 <= p.max <= 2015 && p.max % 4 == 0 && !p.shave
  }

  predicate Aligned(p: Part, offset: nat) {
    0 < offset && (p.dword ==> !Bit2Clear(p.base + offset - 1))
  }

  lemma SteadyPiece(p: Part, len: nat, offset: nat)
    requires PartOk(p, offset + len) && Small(p) && Aligned(p, offset) && p.max < len
    ensures PieceSize(p, len, offset) == SteadySize(p) && Aligned(p, offset + SteadySize(p))
  {
    hide Bit2Clear;
    Bit2Shift(p.base + offset - 1, p.max);
    Bit2Shift(p.base + offset - 1, p.max - 4);
  }

  /** A row of `n` steady buffers and the end. */
  lemma {:induction false} SteadyRow(p: Part, st: nat, n: nat, len: nat, offset: nat)
    requires PartOk(p, offset + len) && Small(p) && Aligned(p, offset) && st <= SteadySize(p) && len <= p.max + n * st
    ensures |Sizes(p, len, offset)| <= n + EndPieces(p)
    decreases n
  {
    hide Sizes, PieceSize, Bit2Clear;
    SizesUnfold(p, len, offset);
    if len == 0 {
    } else if len <= p.max {
      EndCount(p, len, offset);
    } else {
      SteadyPiece(p, len, offset);
      var s := SteadySize(p);
      assert n * st == (n - 1) * st + st;
      SteadyRow(p, st, n - 1, len - s, offset + s);
    }
  }

  lemma FirstPiece(p: Part, len: nat)
    requires PartOk(p, len) && Small(p) && 0 < len
    ensures var s := PieceSize(p, len, 0);
            (s < len ==> Aligned(p, s)) && (p.max < len ==> s >= if p.dword then p.max - 4 else p.max)
  {
    var s1 := Min(len, p.max);
    var s2 := if p.sentinel && s1 == len && s1 > 8 then s1 - 4 else s1;
    if p.dword && s2 > 4 && Bit2Clear(p.base + s2 - 1) {
      ShortenedIsAligned(p.base + s2 - 1);
    }
  }

  lemma HeadRow(p: Part, st: nat, n: nat, len: nat)
    requires PartOk(p, len) && Small(p) && st <= SteadySize(p)
    requires len <= (if p.dword then p.max - 4 else p.max) + p.max + n * st
    ensures |Sizes(p, len, 0)| <= 1 + n + EndPieces(p)
  {
    hide Sizes, PieceSize, Bit2Clear;
    SizesUnfold(p, len, 0);
    if 0 < len {
      FirstPiece(p, len);
      var s := PieceSize(p, len, 0);
      if s < len {
        SteadyRow(p, st, n, len - s, s);
      } else {
        SizesUnfold(p, 0, s);
      }
    }
  }

  // ---- segment sizes 5 to 15 -----------------------------------------------------------------------------------------

  lemma UseCount16(mss: nat, len: nat)
    requires 5 <= mss <= 7
    ensures UseCount(len, mss) == len / 16 + 1
  {
    assert Log2(20) == Log2(24) == Log2(28) == 4;
    assert TxdPwr(mss) == 4;
    assert Shr(len, 4) == Shr(len / 2, 3) == Shr(len / 2 / 2, 2) == Shr(len / 2 / 2 / 2, 1) == len / 2 / 2 / 2 / 2;
  }

  lemma {:induction false} Log2Of(m: nat)
    requires 32 <= m < 64
    ensures Log2(m) == 5
  {
    assert Log2(m) == 1 + Log2(m / 2) == 2 + Log2(m / 2 / 2) == 3 + Log2(m / 2 / 2 / 2) == 4 + Log2(m / 2 / 2 / 2 / 2);
  }

  lemma UseCount32(mss: nat, len: nat)
    requires 8 <= mss <= 15
    ensures UseCount(len, mss) == len / 32 + 1
  {
    Log2Of(4 * mss);
    assert Shr(len, 5) == Shr(len / 2, 4) == Shr(len / 2 / 2, 3) == Shr(len / 2 / 2 / 2, 2) == Shr(len / 2 / 2 / 2 / 2, 1) == len / 2 / 2 / 2 / 2 / 2;
  }

  /** The head takes at most two buffers more than its sampled length accounts for. */
  lemma GrownHead(mac: Mac, skb: Skb, lastTso: bool, sampled: nat)
    requires Grown(skb, sampled) && 5 <= skb.mss <= 15
    ensures var p := HeadPart(mac, skb, lastTso);
            |Sizes(p, skb.headLen, 0)| <= UseCount(sampled, skb.mss) + 1 + One(p.dword) + EndPieces(p)
  {
    hide Sizes, UseCount;
    var p := HeadPart(mac, skb, lastTso);
    if skb.mss <= 7 {
      UseCount16(skb.mss, sampled);
      if p.dword {
        HeadRow(p, 16, (sampled + 21) / 16, skb.headLen);
      } else {
        HeadRow(p, 20, (sampled + 21) / 20, skb.headLen);
      }
    } else {
      UseCount32(skb.mss, sampled);
      HeadRow(p, 32, (sampled + 13) / 32, skb.headLen);
    }
  }

  lemma SmallMssFits(mac: Mac, skb: Skb, lastTso: bool, sampled: nat)
    requires Grown(skb, sampled) && 5 <= skb.mss <= 15
    ensures Fits(mac, skb, lastTso, sampled)
  {
    hide Sizes, UseCount;
    GrownHead(mac, skb, lastTso, sampled);
    FragsFit(mac, skb, 0);
  }

  // ---- the others ----------------------------------------------------------------------------------------------------

  lemma UnitAtLeast64(mss: nat)
    requires mss == 0 || 16 <= mss
    ensures 64 <= Pow2(TxdPwr(mss))
  {
    var m := MaxPerTxd(mss);
    Log2Mono(64, m);
    assert Log2(64) == 6 by {
      assert Log2(4) == 2;
      assert Log2(16) == 4;
    }
    Pow2Mono(6, Log2(m));
    assert Pow2(3) == 8;
    assert Pow2(6) == 64;
  }

  /** Growth by encapsulation is covered from a segment size of 5 on, and without segmentation. */
  lemma EncapsulationFits(mac: Mac, skb: Skb, lastTso: bool, sampled: nat)
    requires Grown(skb, sampled) && (skb.mss == 0 || 5 <= skb.mss)
    ensures Fits(mac, skb, lastTso, sampled)
  {
    if 5 <= skb.mss <= 15 {
      SmallMssFits(mac, skb, lastTso, sampled);
    } else {
      hide Needed, Reserve, Pow2, TxdPwr;
      UnitAtLeast64(skb.mss);
      ReservationSuffices(mac, skb, lastTso, sampled);
    }
  }

  // ---- segment sizes 1 to 4 ------------------------------------------------------------------------------------------

  /** Without alignment all buffers before the end are full. */
  lemma {:induction false} FullPieces(p: Part, n: nat, len: nat, offset: nat, full: nat)
    requires PartOk(p, offset + len) && p.max <= 2015 && !p.dword && !p.shave && full == n * p.max < len
    ensures |Sizes(p, len, offset)| == n + |Sizes(p, len - full, offset + full)|
    decreases n
  {
    hide Sizes, PieceSize, Bit2Clear;
    if n > 0 {
      NextFull(p.max, n, full);
      FullPiece(p, len, offset);
      SizesUnfold(p, len, offset);
      FullPieces(p, n - 1, len - p.max, offset + p.max, full - p.max);
    }
  }

  lemma NextFull(max: nat, n: nat, full: nat)
    requires n > 0 && full == n * max
    ensures full >= max && full - max == (n - 1) * max
  {
  }

  lemma FullPiece(p: Part, len: nat, offset: nat)
    requires PartOk(p, offset + len) && p.max <= 2015 && !p.dword && !p.shave && p.max < len
    ensures PieceSize(p, len, offset) == p.max
  {
  }

  /** With it, 12-byte buffers from a start that ends in 5 shrink to 8. */
  lemma {:induction false} EightPieces(p: Part, n: nat, len: nat, offset: nat)
    requires p == Part(12, true, false, true, true, 5) && offset % 8 == 0 && 8 * n + 4 < len
    ensures |Sizes(p, len, offset)| == n + |Sizes(p, len - 8 * n, offset + 8 * n)|
    decreases n
  {
    hide Sizes, PieceSize, Bit2Clear;
    if n > 0 {
      EightPiece(p, len, offset);
      SizesUnfold(p, len, offset);
      EightPieces(p, n - 1, len - 8, offset + 8);
    }
  }

  lemma EightPiece(p: Part, len: nat, offset: nat)
    requires p == Part(12, true, false, true, true, 5) && offset % 8 == 0 && 12 < len
    ensures PieceSize(p, len, offset) == 8
  {
    assert (5 + offset + 11) / 4 == 2 * (offset / 8) + 4;
  }

  /** How many buffers the heads of the four failing packets take. */
  lemma TinyHeads()
    ensures |Sizes(Part(4, true, false, false, false, 0), 90, 0)| == 23
    ensures |Sizes(Part(8, true, false, false, false, 0), 91, 0)| == 12
    ensures |Sizes(Part(12, true, false, true, true, 5), 93, 0)| == 13
    ensures |Sizes(Part(16, true, false, false, false, 0), 105, 0)| == 8
  {
    hide Sizes, PieceSize, Bit2Clear;
    var p1, p2, p3, p4 := Part(4, true, false, false, false, 0), Part(8, true, false, false, false, 0),
                          Part(12, true, false, true, true, 5), Part(16, true, false, false, false, 0);
    FullPieces(p1, 22, 90, 0, 88);
    WholeEnd(p1, 2, 88);
    FullPieces(p2, 11, 91, 0, 88);
    WholeEnd(p2, 3, 88);
    EightPieces(p3, 11, 93, 0);
    ShiftedEnd(p3);
    FullPieces(p4, 6, 105, 0, 96);
    SplitEnd(p4, 96);
  }

  lemma WholeEnd(p: Part, len: nat, offset: nat)
    requires PartOk(p, offset + len) && 0 < len <= 8 && len <= p.max && !p.dword && !p.shave && 0 < offset
    ensures |Sizes(p, len, offset)| == 1
  {
    SizesUnfold(p, 0, offset + len);
  }

  /** Nine bytes at the end: the sentinel is split off. */
  lemma SplitEnd(p: Part, offset: nat)
    requires PartOk(p, offset + 9) && 12 <= p.max && p.sentinel && !p.shave && !p.dword && 0 < offset
    ensures |Sizes(p, 9, offset)| == 2
  {
    hide Sizes;
    assert PieceSize(p, 9, offset) == 5;
    SizesUnfold(p, 9, offset);
    assert PieceSize(p, 4, offset + 5) == 4;
    SizesUnfold(p, 4, offset + 5);
    SizesUnfold(p, 0, offset + 9);
  }

  /** Five bytes at the end: the last four are split off for their alignment. */
  lemma ShiftedEnd(p: Part)
    requires p == Part(12, true, false, true, true, 5)
    ensures |Sizes(p, 5, 88)| == 2
  {
    hide Sizes;
    assert PieceSize(p, 5, 88) == 1;
    SizesUnfold(p, 5, 88);
    assert PieceSize(p, 4, 89) == 4;
    SizesUnfold(p, 4, 89);
    SizesUnfold(p, 0, 93);
  }

  lemma TinyUseCounts()
    ensures UseCount(56, 1) == 15 && UseCount(57, 2) == 8 && UseCount(59, 3) == 8 && UseCount(63, 4) == 4
  {
    assert Log2(4) == 2 && Log2(8) == 3 && Log2(12) == 3 && Log2(16) == 4;
    assert Shr(56, 2) == Shr(28, 1) == 14;
    assert Shr(57, 3) == Shr(28, 2) == Shr(14, 1) == 7;
    assert Shr(59, 3) == Shr(29, 2) == Shr(14, 1) == 7;
    assert Shr(63, 4) == Shr(31, 3) == Shr(15, 2) == Shr(7, 1) == 3;
  }

  /** For every smaller segment size there is a packet with complete headers and more payload than one segment that, with the 34 or 42
      bytes of an encapsulation, needs more than was reserved. */
  lemma TinyMssDoesNotFit(mss: nat) returns (mac: Mac, skb: Skb, sampled: nat)
    requires 1 <= mss <= 4
    ensures Grown(skb, sampled) && Segmentable(skb, sampled) && skb.mss == mss && !Fits(mac, skb, false, sampled)
    ensures skb.headLen == sampled + 34 || skb.headLen == sampled + ENCAP
  {
    hide Sizes, UseCount;
    TinyHeads();
    TinyUseCounts();
    sampled := if mss == 1 then 56 else if mss == 2 then 57 else if mss == 3 then 59 else 63;
    var len := sampled + if mss == 4 then 42 else 34;
    var base := if mss == 3 then 5 else 0;
    mac, skb := Mac(mss == 3, mss == 3, mss == 3), Skb(0, base, len, [], mss, 0, true);
    assert FragDescs(mac, skb, 0) == 0 && FragReserve(mac, skb, 0) == 0;
    assert HeadPart(mac, skb, false) == Part(4 * mss, true, false, mss == 3, mss == 3, base);
  }

  /** Exactly the segment sizes 1 to 4 are too small. */
  lemma GrowthIsCovered(mss: nat)
    ensures AllFit(mss) <==> mss == 0 || 5 <= mss
  {
    hide Fits;
    if mss == 0 || 5 <= mss {
      forall mac, skb, lastTso, sampled {:trigger Fits(mac, skb, lastTso, sampled)} | Grown(skb, sampled) && Segmentable(skb, sampled) && skb.mss == mss
        ensures Fits(mac, skb, lastTso, sampled)
      {
        EncapsulationFits(mac, skb, lastTso, sampled);
      }
    } else {
      var mac, skb, sampled := TinyMssDoesNotFit(mss);
      assert !Fits(mac, skb, false, sampled);
    }
  }

  /** What a caller must see to: the head grew by less than one unit, or by no more than encapsulation adds, with a segment size for
      which that is covered. */
  predicate GrowthCovered(skb: Skb, sampled: nat) {
    || skb.headLen < sampled + Pow2(TxdPwr(skb.mss))
    || (skb.headLen <= sampled + ENCAP && (skb.mss == 0 || 5 <= skb.mss))
  }

  lemma CoveredFits(mac: Mac, skb: Skb, lastTso: bool, sampled: nat)
    requires SkbOk(skb) && GrowthCovered(skb, sampled)
    ensures Needed(mac, skb, lastTso) <= Reserve(mac, skb, lastTso, sampled) + 2
  {
    hide Needed, Reserve;
    if skb.headLen < sampled + Pow2(TxdPwr(skb.mss)) {
      ReservationSuffices(mac, skb, lastTso, sampled);
    } else {
      EncapsulationFits(mac, skb, lastTso, sampled);
      assert Fits(mac, skb, lastTso, sampled);
    }
  }
}
