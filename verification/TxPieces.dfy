/**
 The pieces e1000_tx_map cuts a packet into are the packet: in order, without gap and without overlap.
 */
module TxPieces {
  import opened TxSplit
  import opened TxLayout

  /** The length of a part of a packet: the head, or a fragment. */
  function PartLen(skb: Skb, part: nat): nat
    requires part <= |skb.frags|
  {
    if part == 0 then skb.headLen else skb.frags[part - 1].size
  }

  /** Some piece holds byte `x` of part `part`. */
  ghost predicate HasByte(cs: seq<Chunk>, part: nat, x: nat) {
    exists i {:trigger cs[i]} :: 0 <= i < |cs| && cs[i].part == part && cs[i].offset <= x < cs[i].offset + cs[i].size
  }

  /** By part, and within a part by offset, without overlap. */
  predicate Before(c: Chunk, d: Chunk) {
    c.part < d.part || (c.part == d.part && c.offset + c.size <= d.offset)
  }

  ghost predicate InOrder(cs: seq<Chunk>) {
    forall i, j :: 0 <= i < j < |cs| ==> Before(cs[i], cs[j])
  }

  /** All pieces lie in part `part`, between `from` and `to`. */
  ghost predicate Within(cs: seq<Chunk>, part: nat, from: nat, to: nat, max: nat) {
    forall i {:trigger cs[i]} :: 0 <= i < |cs| ==>
      cs[i].part == part && 1 <= cs[i].size <= max && from <= cs[i].offset && cs[i].offset + cs[i].size <= to
  }

  /** The piece lies inside an existing part and respects max_per_txd. */
  predicate Inside(skb: Skb, c: Chunk) {
    c.part <= |skb.frags| && 1 <= c.size <= MaxPerTxd(skb.mss) && c.offset + c.size <= PartLen(skb, c.part)
  }

  ghost predicate AllInside(skb: Skb, cs: seq<Chunk>) {
    forall i {:trigger cs[i]} :: 0 <= i < |cs| ==> Inside(skb, cs[i])
  }

  lemma WithinIsInside(skb: Skb, cs: seq<Chunk>, part: nat, max: nat)
    requires part <= |skb.frags| && max == MaxPerTxd(skb.mss) && Within(cs, part, 0, PartLen(skb, part), max)
    ensures AllInside(skb, cs)
  {
  }

  ghost predicate PartsFrom(cs: seq<Chunk>, from: nat) {
    forall i {:trigger cs[i]} :: 0 <= i < |cs| ==> from <= cs[i].part
  }

  lemma HasByteConcat(a: seq<Chunk>, b: seq<Chunk>, part: nat, x: nat)
    ensures HasByte(a, part, x) || HasByte(b, part, x) ==> HasByte(a + b, part, x)
  {
    var c := a + b;
    if HasByte(a, part, x) {
      var i :| 0 <= i < |a| && a[i].part == part && a[i].offset <= x < a[i].offset + a[i].size;
      assert c[i] == a[i];
    }
    if HasByte(b, part, x) {
      var i :| 0 <= i < |b| && b[i].part == part && b[i].offset <= x < b[i].offset + b[i].size;
      assert c[|a| + i] == b[i];
    }
  }

  lemma InOrderConcat(a: seq<Chunk>, b: seq<Chunk>)
    requires InOrder(a) && InOrder(b) && forall i, j :: 0 <= i < |a| && 0 <= j < |b| ==> Before(a[i], b[j])
    ensures InOrder(a + b)
  {
  }

  lemma {:induction false} PartInOrder(p: Part, part: nat, len: nat, offset: nat)
    requires PartOk(p, offset + len)
    ensures Within(PartChunks(p, part, len, offset), part, offset, offset + len, p.max)
    ensures InOrder(PartChunks(p, part, len, offset))
    decreases len
  {
    hide PieceSize, PartChunks, PartOk;
    ChunksUnfold(p, part, len, offset);
    if len != 0 {
      var s := PieceSize(p, len, offset);
      PartInOrder(p, part, len - s, offset + s);
      InOrderConcat([Chunk(part, offset, s)], PartChunks(p, part, len - s, offset + s));
    }
  }

  lemma {:induction false} PartByte(p: Part, part: nat, len: nat, offset: nat, x: nat)
    requires PartOk(p, offset + len) && offset <= x < offset + len
    ensures HasByte(PartChunks(p, part, len, offset), part, x)
    decreases len
  {
    hide PieceSize, PartOk, PartChunks;
    ChunksUnfold(p, part, len, offset);
    var s := PieceSize(p, len, offset);
    var here: seq<Chunk> := [Chunk(part, offset, s)];
    if x < offset + s {
      assert here[0].offset <= x < here[0].offset + here[0].size;
    } else {
      PartByte(p, part, len - s, offset + s, x);
    }
    HasByteConcat(here, PartChunks(p, part, len - s, offset + s), part, x);
  }

  lemma {:induction false} FragsInOrder(mac: Mac, skb: Skb, f: nat)
    requires f <= |skb.frags|
    ensures InOrder(FragsChunks(mac, skb, f)) && PartsFrom(FragsChunks(mac, skb, f), f + 1) && AllInside(skb, FragsChunks(mac, skb, f))
    decreases |skb.frags| - f
  {
    hide PartChunks;
    if f < |skb.frags| {
      FragsInOrder(mac, skb, f + 1);
      PartInOrder(FragPart(mac, skb, f), f + 1, skb.frags[f].size, 0);
      WithinIsInside(skb, PartChunks(FragPart(mac, skb, f), f + 1, skb.frags[f].size, 0), f + 1, MaxPerTxd(skb.mss));
      InOrderConcat(PartChunks(FragPart(mac, skb, f), f + 1, skb.frags[f].size, 0), FragsChunks(mac, skb, f + 1));
    }
  }

  lemma {:induction false} FragByte(mac: Mac, skb: Skb, f: nat, part: nat, x: nat)
    requires f < part <= |skb.frags| && x < PartLen(skb, part)
    ensures HasByte(FragsChunks(mac, skb, f), part, x)
    decreases |skb.frags| - f
  {
    hide PartChunks, HasByte;
    if part == f + 1 {
      PartByte(FragPart(mac, skb, f), f + 1, skb.frags[f].size, 0, x);
    } else {
      FragByte(mac, skb, f + 1, part, x);
    }
    HasByteConcat(PartChunks(FragPart(mac, skb, f), f + 1, skb.frags[f].size, 0), FragsChunks(mac, skb, f + 1), part, x);
  }

  /** The pieces of a packet lie inside its parts, are in order and disjoint, none is empty or too long, and every byte of every part
      is in one. */
  lemma PacketCovered(mac: Mac, skb: Skb, lastTso: bool)
    requires SkbOk(skb)
    ensures InOrder(PacketChunks(mac, skb, lastTso)) && AllInside(skb, PacketChunks(mac, skb, lastTso))
    ensures forall part, x {:trigger HasByte(PacketChunks(mac, skb, lastTso), part, x)} ::
              0 <= part <= |skb.frags| && 0 <= x < PartLen(skb, part) ==> HasByte(PacketChunks(mac, skb, lastTso), part, x)
  {
    hide PartChunks, HasByte;
    var head, frags := PartChunks(HeadPart(mac, skb, lastTso), 0, skb.headLen, 0), FragsChunks(mac, skb, 0);
    PartInOrder(HeadPart(mac, skb, lastTso), 0, skb.headLen, 0);
    WithinIsInside(skb, head, 0, MaxPerTxd(skb.mss));
    FragsInOrder(mac, skb, 0);
    InOrderConcat(head, frags);
    forall part, x {:trigger HasByte(head + frags, part, x)} | 0 <= part <= |skb.frags| && 0 <= x < PartLen(skb, part)
      ensures HasByte(head + frags, part, x)
    {
      if part == 0 {
        PartByte(HeadPart(mac, skb, lastTso), 0, skb.headLen, 0, x);
      } else {
        FragByte(mac, skb, 0, part, x);
      }
      HasByteConcat(head, frags, part, x);
    }
  }

  // ---- bytes on the wire ---------------------------------------------------------------------------------------------

  /** The bytes of frames that each repeat the head and carry the payloads `ps`. */
  function WireBytes(head: nat, ps: seq<nat>): nat {
    if ps == [] then 0 else head + ps[0] + WireBytes(head, ps[1..])
  }

  lemma {:induction false} WireBytesAre(head: nat, ps: seq<nat>)
    ensures WireBytes(head, ps) == |ps| * head + Sum(ps)
  {
    if ps != [] {
      WireBytesAre(head, ps[1..]);
    }
  }

  /** However the payload is spread over the segments of a packet, the counted bytes are those of frames that each repeat the head. */
  lemma CountIsWireBytes(skb: Skb, ps: seq<nat>)
    requires |ps| == Segs(skb) && Sum(ps) == FragBytes(skb.frags)
    ensures ByteCount(skb) == WireBytes(skb.headLen, ps)
  {
    WireBytesAre(skb.headLen, ps);
  }
}
