/**
 How e1000_tx_map cuts a packet into descriptor buffers (e1000_main.c), with all errata adjustments, and why
 the number of descriptors never exceeds what e1000_xmit_frame reserves before it starts.
 */
module TxSplit {
  import opened Shifts

  /** E1000_MAX_DATA_PER_TXD */
  const MAX_DATA_PER_TXD := 4096
  const ETH_ZLEN := 60
  const MAX_SKB_FRAGS := 17
  const TX_WAKE_THRESHOLD := 32

  function Min(a: nat, b: nat): nat {
    if a < b then a else b
  }

  /** !(x & 4) */
  predicate Bit2Clear(x: nat) {
    x / 4 % 2 == 0
  }

  /** The parameters of one of the two splitting loops: the head or one fragment.
      - max: max_per_txd
      - sentinel: TSO packet and this is its last part, so a 4-byte sentinel is split off the end
      - shave: first buffer of a linear non-TSO packet after a TSO packet is shortened by 4
      - cap: PCI-X bus, first buffer is at most 2015 bytes
      - dword: 82544 on PCI-X, buffers must not end in an evenly aligned dword
      - base: address of the first byte */
  datatype Part = Part(max: nat, sentinel: bool, shave: bool, cap: bool, dword: bool, base: nat)

  /** What the callers guarantee: a linear packet has been padded, and only TSO lowers `max`. */
  predicate PartOk(p: Part, len: nat) {
    && 4 <= p.max <= MAX_DATA_PER_TXD
    && (p.shave ==> ETH_ZLEN <= len && p.max == MAX_DATA_PER_TXD && !p.sentinel)
  }

  /** The size of the buffer that starts at `offset` with `len` bytes to go. */
  function PieceSize(p: Part, len: nat, offset: nat): (s: nat)
    requires PartOk(p, offset + len) && 0 < len
    ensures 1 <= s <= len && s <= p.max
  {
    var first := offset == 0;
    var s0 := Min(len, p.max);
    var s1 := if p.shave && first then s0 - 4 else s0;
    var s2 := if p.sentinel && s1 == len && s1 > 8 then s1 - 4 else s1;
    var s3 := if p.cap && s2 > 2015 && first then 2015 else s2;
    if p.dword && Bit2Clear(p.base + offset + s3 - 1) && s3 > 4 then s3 - 4 else s3
  }

  /** The sizes of all buffers from `offset` on. */
  function Sizes(p: Part, len: nat, offset: nat): seq<nat>
    requires PartOk(p, offset + len)
    decreases len
  {
    if len == 0 then []
    else
      var s := PieceSize(p, len, offset);
      [s] + Sizes(p, len - s, offset + s)
  }

  function Sum(s: seq<nat>): nat {
    if s == [] then 0 else s[0] + Sum(s[1..])
  }

  /** The buffers partition the part: no byte is lost or sent twice, and no buffer is empty or too long. */
  lemma {:induction false} SizesPartition(p: Part, len: nat, offset: nat)
    requires PartOk(p, offset + len)
    ensures Sum(Sizes(p, len, offset)) == len
    ensures forall i :: 0 <= i < |Sizes(p, len, offset)| ==> 1 <= Sizes(p, len, offset)[i] <= p.max
    ensures 0 < len ==> 0 < |Sizes(p, len, offset)|
    decreases len
  {
    if len != 0 {
      var s := PieceSize(p, len, offset);
      SizesPartition(p, len - s, offset + s);
    }
  }

  // ---- how many buffers ----------------------------------------------------------------------------

  /** `q` is the power of two the reservation divides by: 1 << max_txd_pwr. */
  predicate UnitOk(max: nat, q: nat) {
    && 4 <= q <= max < 2 * q && max % 4 == 0 && q % 4 == 0
    && (q == 4 || q % 8 == 0)
  }

  /** From `offset` on, a buffer that does not reach the end of the part has at least `q` bytes. */
  predicate Steady(p: Part, q: nat, offset: nat) {
    0 < offset && (q < p.max || q == 4 || !p.dword || !Bit2Clear(p.base + offset - 1))
  }

  function EndPieces(p: Part): nat {
    if p.sentinel || p.dword then 2 else 1
  }

  lemma Bit2Shift(x: nat, k: nat)
    ensures k % 8 == 0 ==> (Bit2Clear(x + k) <==> Bit2Clear(x))
    ensures k % 8 == 4 ==> (Bit2Clear(x + k) <==> !Bit2Clear(x))
  {
    if k % 8 == 0 {
      assert (x + k) / 4 == x / 4 + 2 * (k / 8);
    }
    if k % 8 == 4 {
      assert (x + k) / 4 == x / 4 + 2 * (k / 8) + 1;
    }
  }

  /** A buffer that was shortened for alignment ends where the next may start. */
  lemma ShortenedIsAligned(x: nat)
    requires 4 <= x && Bit2Clear(x)
    ensures !Bit2Clear(x - 4)
  {
    Bit2Shift(x - 4, 4);
  }

  lemma SteadyStep(p: Part, q: nat, len: nat, offset: nat)
    requires PartOk(p, offset + len) && UnitOk(p.max, q) && Steady(p, q, offset) && p.max < len
    ensures q <= PieceSize(p, len, offset) && Steady(p, q, offset + PieceSize(p, len, offset))
  {
    var s := PieceSize(p, len, offset);
    if p.dword && q == p.max && q != 4 {
      Bit2Shift(p.base + offset - 1, p.max);
      assert s == p.max;
    }
  }

  /** The end of a part takes at most two buffers. */
  lemma EndCount(p: Part, len: nat, offset: nat)
    requires PartOk(p, offset + len) && 0 < offset && 0 < len <= p.max
    ensures |Sizes(p, len, offset)| <= EndPieces(p)
  {
    EndCountAny(p, len, offset);
  }

  lemma EndCountAny(p: Part, len: nat, offset: nat)
    requires PartOk(p, offset + len) && (0 < offset || (!p.shave && !p.cap)) && 0 < len <= p.max
    ensures |Sizes(p, len, offset)| <= EndPieces(p)
    ensures len <= 4 ==> |Sizes(p, len, offset)| == 1
  {
    var s := PieceSize(p, len, offset);
    var rest := len - s;
    assert rest == 0 || rest == 4 || rest == 8;
    if rest == 4 {
      assert PieceSize(p, 4, offset + s) == 4;
      assert Sizes(p, 4, offset + s) == [4] + Sizes(p, 0, offset + s + 4);
    }
    if rest == 8 {
      var x := p.base + offset + len - 5;
      ShortenedIsAligned(x);
      Bit2Shift(x - 4, 8);
      assert PieceSize(p, 8, offset + s) == 8;
      assert Sizes(p, 8, offset + s) == [8] + Sizes(p, 0, offset + s + 8);
    }
  }

  lemma {:induction false} SteadyCount(p: Part, q: nat, len: nat, offset: nat)
    requires PartOk(p, offset + len) && UnitOk(p.max, q) && Steady(p, q, offset)
    ensures |Sizes(p, len, offset)| <= Quot(len, q) + EndPieces(p)
    decreases len
  {
    if len == 0 {
    } else if len <= p.max {
      EndCount(p, len, offset);
    } else {
      var s := PieceSize(p, len, offset);
      SteadyStep(p, q, len, offset);
      SteadyCount(p, q, len - s, offset + s);
      QuotStep(len, s, q);
    }
  }

  /** After the first buffer the rest is steady. */
  lemma FirstThenSteady(p: Part, q: nat, len: nat)
    requires PartOk(p, len) && UnitOk(p.max, q) && 0 < len
    requires PieceSize(p, len, 0) < len
    ensures Steady(p, q, PieceSize(p, len, 0))
  {
    var s := PieceSize(p, len, 0);
    if p.dword && q == p.max && q != 4 {
      var s0 := Min(len, p.max);
      var s1 := if p.shave then s0 - 4 else s0;
      var s2 := if p.sentinel && s1 == len && s1 > 8 then s1 - 4 else s1;
      var s3 := if p.cap && s2 > 2015 then 2015 else s2;
      assert s3 > 4;
      if Bit2Clear(p.base + s3 - 1) {
        ShortenedIsAligned(p.base + s3 - 1);
      }
    }
  }

  lemma SizesUnfold(p: Part, len: nat, offset: nat)
    requires PartOk(p, offset + len)
    ensures 0 < len ==> |Sizes(p, len, offset)| == 1 + |Sizes(p, len - PieceSize(p, len, offset), offset + PieceSize(p, len, offset))|
    ensures len == 0 ==> |Sizes(p, len, offset)| == 0
  {
  }

  /** The head: one odd buffer at the front, whole ones, and the end. */
  lemma HeadCount(p: Part, q: nat, len: nat)
    requires PartOk(p, len) && UnitOk(p.max, q)
    ensures |Sizes(p, len, 0)| <= Quot(len, q) + 1 + EndPieces(p)
  {
    hide Sizes, PieceSize, Steady;
    SizesUnfold(p, len, 0);
    if 0 < len {
      var s := PieceSize(p, len, 0);
      if s < len {
        FirstThenSteady(p, q, len);
        SteadyCount(p, q, len - s, s);
        QuotMono(len - s, len, q);
      } else {
        SizesUnfold(p, 0, s);
      }
    }
  }

  /** Aligned from here on and buffers of exactly `q`: a last piece of at most 4 bytes stays whole. */
  lemma {:induction false} AlignedCount(p: Part, q: nat, len: nat, offset: nat)
    requires PartOk(p, offset + len) && UnitOk(p.max, q) && q == p.max && q != 4
    requires p.dword && 0 < offset && !Bit2Clear(p.base + offset - 1) && 0 < len
    ensures |Sizes(p, len, offset)| <= Quot(len + q - 5, q) + 1
    decreases len
  {
    if len <= p.max {
      EndCount(p, len, offset);
      EndCountAny(p, len, offset);
      if 4 < len {
        QuotMono(q, len + q - 5, q);
        assert Quot(q, q) == 1;
      }
    } else {
      var s := PieceSize(p, len, offset);
      Bit2Shift(p.base + offset - 1, p.max);
      assert s == q;
      AlignedCount(p, q, len - s, offset + s);
    }
  }

  lemma FirstFragSize(p: Part, q: nat, len: nat)
    requires PartOk(p, len) && UnitOk(p.max, q) && !p.shave && !p.cap && p.max < len
    ensures var s := PieceSize(p, len, 0);
            s < len && (q <= s || (p.dword && s == q - 4 && q == p.max && q != 4 && !Bit2Clear(p.base + s - 1)))
  {
    if p.dword && q == p.max && q != 4 && Bit2Clear(p.base + p.max - 1) {
      ShortenedIsAligned(p.base + p.max - 1);
    }
  }

  /** A fragment: nothing special about its first buffer except its alignment. */
  lemma FragCount(p: Part, q: nat, len: nat)
    requires PartOk(p, len) && UnitOk(p.max, q) && !p.shave && !p.cap
    ensures |Sizes(p, len, 0)| <= Quot(len, q) + EndPieces(p)
  {
    hide Sizes, PieceSize, Steady, Bit2Clear;
    SizesUnfold(p, len, 0);
    if len == 0 {
    } else if len <= p.max {
      EndCountAny(p, len, 0);
    } else {
      var s := PieceSize(p, len, 0);
      FirstFragSize(p, q, len);
      if q <= s {
        FirstThenSteady(p, q, len);
        SteadyCount(p, q, len - s, s);
        QuotStep(len, s, q);
      } else {
        AlignedCount(p, q, len - s, s);
        QuotMono(len - 1, len, q);
      }
    }
  }

  // ---- the whole packet ----------------------------------------------------------------------------

  /** The controller: PCI-X bus, the 82544-on-PCI-X work-around (pcix_82544), and mac_type == e1000_82544. */
  datatype Mac = Mac(pcix: bool, pcix82544: bool, is82544: bool)

  datatype Frag = Frag(size: nat, phys: nat)

  /** sk_buff as e1000_tx_map sees it. `mss` is gso_size, which is nonzero exactly for TSO packets. */
  datatype Skb = Skb(id: nat, headAddr: nat, headLen: nat, frags: seq<Frag>, mss: nat, gsoSegs: nat, csumPartial: bool)

  /** skb->data_len */
  function FragBytes(frags: seq<Frag>): nat {
    if frags == [] then 0 else frags[0].size + FragBytes(frags[1..])
  }

  /** skb->len */
  function SkbLen(skb: Skb): nat {
    skb.headLen + FragBytes(skb.frags)
  }

  /** After eth_skb_pad; the Ethernet header is in the head. */
  predicate SkbOk(skb: Skb) {
    0 < skb.headLen && ETH_ZLEN <= SkbLen(skb)
  }

  function MaxPerTxd(mss: nat): (m: nat)
    ensures 4 <= m <= MAX_DATA_PER_TXD && m % 4 == 0
  {
    if mss == 0 then MAX_DATA_PER_TXD else Min(4 * mss, MAX_DATA_PER_TXD)
  }

  /** max_txd_pwr */
  function TxdPwr(mss: nat): nat {
    Log2(MaxPerTxd(mss))
  }

  /** TXD_USE_COUNT (len, max_txd_pwr) */
  function UseCount(len: nat, mss: nat): nat {
    Shr(len, TxdPwr(mss)) + 1
  }

  lemma UnitIsOk(mss: nat)
    ensures UnitOk(MaxPerTxd(mss), Pow2(TxdPwr(mss)))
  {
    var m, k := MaxPerTxd(mss), TxdPwr(mss);
    Log2Bounds(m);
    Pow2Multiple(k);
    assert Pow2(0) == 1 && Pow2(1) == 2 && Pow2(2) == 4;
    assert k != 0 && k != 1;
  }

  predicate Shaved(skb: Skb, lastTso: bool) {
    FragBytes(skb.frags) == 0 && lastTso && skb.mss == 0
  }

  function HeadPart(mac: Mac, skb: Skb, lastTso: bool): Part {
    Part(MaxPerTxd(skb.mss), skb.mss != 0 && skb.frags == [], Shaved(skb, lastTso), mac.pcix, mac.pcix82544, skb.headAddr)
  }

  function FragPart(mac: Mac, skb: Skb, f: nat): Part
    requires f < |skb.frags|
  {
    Part(MaxPerTxd(skb.mss), skb.mss != 0 && f == |skb.frags| - 1, false, false, mac.pcix82544, skb.frags[f].phys)
  }

  function One(b: bool): nat {
    if b then 1 else 0
  }

  /** The offload context descriptor. */
  function Context(skb: Skb): nat {
    One(skb.mss != 0 || skb.csumPartial)
  }

  function FragDescs(mac: Mac, skb: Skb, f: nat): nat
    requires f <= |skb.frags|
    decreases |skb.frags| - f
  {
    if f == |skb.frags| then 0
    else |Sizes(FragPart(mac, skb, f), skb.frags[f].size, 0)| + FragDescs(mac, skb, f + 1)
  }

  /** All descriptors the packet takes. */
  function Needed(mac: Mac, skb: Skb, lastTso: bool): nat
    requires SkbOk(skb)
  {
    Context(skb) + |Sizes(HeadPart(mac, skb, lastTso), skb.headLen, 0)| + FragDescs(mac, skb, 0)
  }

  function FragReserve(mac: Mac, skb: Skb, f: nat): nat
    requires f <= |skb.frags|
    decreases |skb.frags| - f
  {
    if f == |skb.frags| then 0
    else UseCount(skb.frags[f].size, skb.mss) + One(mac.pcix82544) + FragReserve(mac, skb, f + 1)
  }

  /** What e1000_xmit_frame counts, with the head length `sampled` before encapsulation and padding. */
  function Reserve(mac: Mac, skb: Skb, lastTso: bool, sampled: nat): nat {
    One(skb.mss != 0 || skb.csumPartial) + 1 + One(Shaved(skb, lastTso)) + UseCount(sampled, skb.mss)
    + One(mac.pcix82544) + One(mac.pcix && sampled > 2015) + FragReserve(mac, skb, 0)
  }

  lemma {:induction false} FragsFit(mac: Mac, skb: Skb, f: nat)
    requires f <= |skb.frags|
    ensures FragDescs(mac, skb, f) <= FragReserve(mac, skb, f) + One(!mac.pcix82544 && skb.mss != 0 && f < |skb.frags|)
    decreases |skb.frags| - f
  {
    if f < |skb.frags| {
      var q, size := Pow2(TxdPwr(skb.mss)), skb.frags[f].size;
      UnitIsOk(skb.mss);
      FragCount(FragPart(mac, skb, f), q, size);
      ShrIsQuot(size, TxdPwr(skb.mss));
      FragsFit(mac, skb, f + 1);
    }
  }

  /** The reservation of count + 2 covers the packet as long as the head has not grown by a whole unit since its
      length was sampled. */
  lemma ReservationSuffices(mac: Mac, skb: Skb, lastTso: bool, sampled: nat)
    requires SkbOk(skb) && skb.headLen < sampled + Pow2(TxdPwr(skb.mss))
    ensures Needed(mac, skb, lastTso) <= Reserve(mac, skb, lastTso, sampled) + 2
  {
    var q, head := Pow2(TxdPwr(skb.mss)), HeadPart(mac, skb, lastTso);
    UnitIsOk(skb.mss);
    assert PartOk(head, skb.headLen);
    hide Sizes, Pow2, Log2, Shr, MaxPerTxd;
    HeadCount(head, q, skb.headLen);
    ShrIsQuot(sampled, TxdPwr(skb.mss));
    GrowthCount(skb.headLen, sampled, q);
    FragsFit(mac, skb, 0);
  }

  lemma GrowthCount(len: nat, sampled: nat, q: nat)
    requires 0 < q && len < sampled + q
    ensures Quot(len, q) <= Quot(sampled, q) + 1
  {
    QuotMono(len, sampled + q, q);
  }
}
