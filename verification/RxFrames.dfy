/**
 Received frames: how a stream of descriptors falls into frames, which of them the driver passes on, and the layout of the
 receive ring.
 */
module RxFrames {
  import opened RingIndex

  const FRAME_ERR_MASK: bv8 := 0x97
  const ERR_CE: bv8 := 0x01
  const CARRIER_EXTENSION: bv8 := 0x0F
  const VLAN_TAG_SIZE := 4

  /** A receive descriptor after the hardware has written it: done, end of packet, VLAN tag present, error bits, length, and the
      buffer it points to. `stray` is the byte found where the length does not point into the buffer. */
  datatype RxDesc = RxDesc(dd: bool, eop: bool, vp: bool, errors: bv8, length: nat, data: seq<bv8>, stray: bv8)
  {
    /** The last byte of the frame. */
    function Last(): bv8 {
      if 0 < length <= |data| then data[length - 1] else stray
    }
  }

  /** What decides whether a frame is passed on. */
  datatype Filter = Filter(tbi: bool, minFrame: nat, maxFrame: nat, rxAll: bool, rxFcs: bool)

  /** What is passed on: data and the length of the packet in it. */
  datatype Packet = Packet(data: seq<bv8>, length: nat)

  /** Subtraction on u32 */
  function Sub32(a: nat, b: nat): nat {
    if b <= a then a - b else a + 0x1_0000_0000 - b % 0x1_0000_0000
  }

  /** e1000_tbi_should_accept */
  predicate TbiAccept(c: Filter, d: RxDesc) {
    && c.tbi && d.errors & FRAME_ERR_MASK == ERR_CE && d.Last() == CARRIER_EXTENSION
    && (if d.vp then d.length > Sub32(c.minFrame, VLAN_TAG_SIZE) && d.length <= c.maxFrame + 1
        else d.length > c.minFrame && d.length <= c.maxFrame + VLAN_TAG_SIZE + 1)
  }

  predicate Erroneous(d: RxDesc) {
    d.errors & FRAME_ERR_MASK != 0
  }

  predicate Accept(c: Filter, d: RxDesc) {
    !Erroneous(d) || TbiAccept(c, d) || c.rxAll
  }

  /** The carrier extension byte goes, and normally the checksum. */
  function Deliver(c: Filter, d: RxDesc): Packet {
    var length := if Erroneous(d) && TbiAccept(c, d) then Sub32(d.length, 1) else d.length;
    Packet(d.data, if c.rxFcs then length else Sub32(length, 4))
  }

  // ---- what is passed on, in terms of the frame ------------------------------------------------------------------------

  /** The bytes of a packet. */
  function Bytes(p: Packet): seq<bv8>
    requires p.length <= |p.data|
  {
    p.data[..p.length]
  }

  /** The frame as it came over the wire, with its checksum. */
  function Received(d: RxDesc): seq<bv8>
    requires d.length <= |d.data|
  {
    d.data[..d.length]
  }

  const FCS_LEN := 4

  /** Of a frame without a carrier byte the packet is all but the four checksum bytes, or all of it if those are wanted. Error-free
      frames never have one. */
  lemma DeliversFrame(c: Filter, d: RxDesc)
    requires (!Erroneous(d) || !TbiAccept(c, d)) && FCS_LEN <= d.length <= |d.data|
    ensures var p := Deliver(c, d);
            p.length <= |p.data|
            && if c.rxFcs then Bytes(p) == Received(d)
               else Received(d) == Bytes(p) + d.data[d.length - FCS_LEN..d.length]
  {
  }

  /** Of a frame kept by the TBI rule the last byte, a carrier extension, goes first. */
  lemma DeliversTbiFrame(c: Filter, d: RxDesc)
    requires TbiAccept(c, d) && FCS_LEN + 1 <= d.length <= |d.data|
    ensures var p := Deliver(c, d);
            p.length <= |p.data| && d.data[d.length - 1] == CARRIER_EXTENSION
            && if c.rxFcs then Received(d) == Bytes(p) + [CARRIER_EXTENSION]
               else Received(d) == Bytes(p) + d.data[d.length - 1 - FCS_LEN..d.length - 1] + [CARRIER_EXTENSION]
  {
    CarrierIsError(d.errors);
  }

  /** Less its carrier byte such a frame lies between the limits; without a tag it may be as much longer as a tag would have made it,
      with one that much shorter. */
  lemma TbiWithinLimits(c: Filter, d: RxDesc)
    requires TbiAccept(c, d) && VLAN_TAG_SIZE <= c.minFrame
    ensures 0 < d.length
    ensures var frame := d.length - 1;
            if d.vp then c.minFrame - VLAN_TAG_SIZE <= frame <= c.maxFrame else c.minFrame <= frame <= c.maxFrame + VLAN_TAG_SIZE
  {
  }

  lemma CarrierIsError(errors: bv8)
    requires errors & FRAME_ERR_MASK == ERR_CE
    ensures errors & FRAME_ERR_MASK != 0 && errors & 0x01 != 0
    ensures errors & 0x02 == 0 && errors & 0x04 == 0 && errors & 0x10 == 0 && errors & 0x80 == 0
  {
  }

  /** CRC, symbol, sequence, carrier extension or data error: each alone makes a frame erroneous, and nothing else does. */
  lemma ErrorBits(d: RxDesc)
    ensures Erroneous(d) <==> d.errors & 0x01 != 0 || d.errors & 0x02 != 0 || d.errors & 0x04 != 0 || d.errors & 0x10 != 0 || d.errors & 0x80 != 0
  {
    MaskBits(d.errors);
  }

  lemma MaskBits(errors: bv8)
    ensures errors & FRAME_ERR_MASK != 0 <==>
              errors & 0x01 != 0 || errors & 0x02 != 0 || errors & 0x04 != 0 || errors & 0x10 != 0 || errors & 0x80 != 0
  {
  }

  /** Unless all frames are wanted, an erroneous frame passes only by the TBI rule, and that only if the CRC error is its only one. */
  lemma ErrorsStop(c: Filter, d: RxDesc)
    requires Erroneous(d) && !c.rxAll
    ensures Accept(c, d) <==> TbiAccept(c, d)
    ensures Accept(c, d) ==>
              c.tbi && d.errors & 0x01 != 0 && d.errors & 0x02 == 0 && d.errors & 0x04 == 0 && d.errors & 0x10 == 0 && d.errors & 0x80 == 0
  {
    if TbiAccept(c, d) {
      CarrierIsError(d.errors);
    }
  }

  // ---- frames --------------------------------------------------------------------------------------------------------

  /** The descriptors after the last end of packet. */
  function Partial(ds: seq<RxDesc>): seq<RxDesc> {
    if ds == [] || ds[|ds| - 1].eop then [] else Partial(ds[..|ds| - 1]) + [ds[|ds| - 1]]
  }

  /** The complete frames of a stream. */
  function Frames(ds: seq<RxDesc>): seq<seq<RxDesc>> {
    if ds == [] then []
    else
      var init, d := ds[..|ds| - 1], ds[|ds| - 1];
      Frames(init) + if d.eop then [Partial(init) + [d]] else []
  }

  function Joined(fs: seq<seq<RxDesc>>): seq<RxDesc> {
    if fs == [] then [] else Joined(fs[..|fs| - 1]) + fs[|fs| - 1]
  }

  /** A frame ends with its only end of packet. */
  predicate IsFrame(f: seq<RxDesc>) {
    f != [] && f[|f| - 1].eop && forall i :: 0 <= i < |f| - 1 ==> !f[i].eop
  }

  lemma {:induction false} PartialHasNoEnd(ds: seq<RxDesc>)
    ensures forall d :: d in Partial(ds) ==> !d.eop
  {
    if ds != [] && !ds[|ds| - 1].eop {
      PartialHasNoEnd(ds[..|ds| - 1]);
    }
  }

  ghost predicate AllFrames(fs: seq<seq<RxDesc>>) {
    forall i {:trigger fs[i]} :: 0 <= i < |fs| ==> IsFrame(fs[i])
  }

  lemma JoinedSnoc(fs: seq<seq<RxDesc>>, f: seq<RxDesc>)
    ensures Joined(fs + [f]) == Joined(fs) + f
  {
    assert (fs + [f])[..|fs|] == fs;
  }

  lemma EndsFrame(p: seq<RxDesc>, d: RxDesc)
    requires d.eop && forall x :: x in p ==> !x.eop
    ensures IsFrame(p + [d])
  {
    var f := p + [d];
    forall i | 0 <= i < |f| - 1
      ensures !f[i].eop
    {
      assert f[i] == p[i] && p[i] in p;
    }
  }

  /** Nothing is lost or reordered: the frames and the rest are the stream, and every frame is one. */
  lemma {:induction false} FramesPartition(ds: seq<RxDesc>)
    ensures Joined(Frames(ds)) + Partial(ds) == ds && AllFrames(Frames(ds))
  {
    hide IsFrame, Joined;
    if ds == [] {
      NoFrames();
    } else {
      var init, d := ds[..|ds| - 1], ds[|ds| - 1];
      FramesPartition(init);
      assert ds == init + [d];
      if d.eop {
        PartialHasNoEnd(init);
        EndsFrame(Partial(init), d);
        JoinedSnoc(Frames(init), Partial(init) + [d]);
        assert (Joined(Frames(init)) + Partial(init)) + [d] == Joined(Frames(init)) + (Partial(init) + [d]);
      } else {
        assert Frames(ds) == Frames(init);
        assert (Joined(Frames(init)) + Partial(init)) + [d] == Joined(Frames(init)) + (Partial(init) + [d]);
      }
    }
  }

  lemma NoFrames()
    ensures Joined([]) == []
  {
  }

  /** The single-descriptor frames that pass the filter, in order. */
  function Passed(c: Filter, fs: seq<seq<RxDesc>>): seq<Packet> {
    if fs == [] then []
    else
      var f := fs[|fs| - 1];
      Passed(c, fs[..|fs| - 1]) + if |f| == 1 && Accept(c, f[0]) then [Deliver(c, f[0])] else []
  }

  function Expected(c: Filter, ds: seq<RxDesc>): seq<Packet> {
    Passed(c, Frames(ds))
  }

  /** One more descriptor. */
  lemma ExpectedStep(c: Filter, ds: seq<RxDesc>, d: RxDesc)
    ensures Partial(ds + [d]) == if d.eop then [] else Partial(ds) + [d]
    ensures Expected(c, ds + [d]) == Expected(c, ds) + if d.eop && Partial(ds) == [] && Accept(c, d) then [Deliver(c, d)] else []
  {
    var e := ds + [d];
    assert e[..|ds|] == ds && e[|e| - 1] == d;
    if d.eop {
      var fs := Frames(ds) + [Partial(ds) + [d]];
      assert Frames(e) == fs && fs[..|fs| - 1] == Frames(ds);
    } else {
      assert Frames(e) == Frames(ds);
    }
  }

  // ---- the ring ------------------------------------------------------------------------------------------------------

  /** Seen from the clean position `at`: first the finished descriptors `ready`, then those the hardware still owns, `owned` in
      all, and the rest is free. Whatever the hardware may use has a buffer. */
  ghost predicate RingOk(desc: seq<RxDesc>, buf: seq<bool>, at: nat, ready: seq<RxDesc>, owned: nat) {
    && |desc| == |buf| && at < |desc| && owned < |desc| && (ready == [] || |ready| < owned)
    && (forall k {:trigger Idx(|desc|, at, k)} :: 0 <= k < |desc| ==>
          var i := Idx(|desc|, at, k);
          && (k < |ready| ==> desc[i] == ready[k])
          && (desc[i].dd <==> k < |ready|)
          && (k < owned ==> buf[i]))
  }

  /** The descriptor at the clean position is processed; its buffer may be gone. */
  lemma CleanStep(desc: seq<RxDesc>, buf: seq<bool>, at: nat, ready: seq<RxDesc>, owned: nat, keep: bool)
    requires RingOk(desc, buf, at, ready, owned) && ready != []
    ensures RingOk(desc[at := desc[at].(dd := false)], buf[at := keep], Idx(|desc|, at, 1), ready[1..], owned - 1)
    ensures Idx(|desc|, Idx(|desc|, at, 1), owned - 1) == Idx(|desc|, at, owned)
    ensures Idx(|desc|, Idx(|desc|, at, 1), |ready| - 1) == Idx(|desc|, at, |ready|)
    ensures owned - 1 > 0 ==> Idx(|desc|, Idx(|desc|, at, 1), owned - 2) == Idx(|desc|, at, owned - 1)
    ensures desc[at] == ready[0]
  {
    var n, at' := |desc|, Idx(|desc|, at, 1);
    var desc', ready' := desc[at := desc[at].(dd := false)], ready[1..];
    IdxZero(n, at);
    assert desc[Idx(n, at, 0)] == ready[0];
    IdxAdd(n, at, 1, owned - 1);
    IdxAdd(n, at, 1, |ready| - 1);
    forall k {:trigger Idx(n, at', k)} | 0 <= k < n
      ensures var i := Idx(n, at', k);
              (k < |ready'| ==> desc'[i] == ready'[k]) && (desc'[i].dd <==> k < |ready'|) && (k < owned - 1 ==> buf[at := keep][i])
    {
      if k < n - 1 {
        IdxAdd(n, at, 1, k);
        IdxInjective(n, at, 0, k + 1);
        assert Idx(n, at', k) == Idx(n, at, k + 1);
      } else {
        assert Idx(n, at', k) == at;
      }
    }
  }

  /** One more descriptor is given to the hardware. */
  lemma GrantStep(desc: seq<RxDesc>, buf: seq<bool>, at: nat, ready: seq<RxDesc>, owned: nat)
    requires RingOk(desc, buf, at, ready, owned) && owned + 1 < |desc|
    ensures RingOk(desc, buf[Idx(|desc|, at, owned) := true], at, ready, owned + 1)
    ensures Idx(|desc|, Idx(|desc|, at, owned), 1) == Idx(|desc|, at, owned + 1)
  {
    IdxAdd(|desc|, at, owned, 1);
  }

  /** The hardware writes a descriptor back. */
  lemma ArriveStep(desc: seq<RxDesc>, buf: seq<bool>, at: nat, ready: seq<RxDesc>, owned: nat, d: RxDesc)
    requires RingOk(desc, buf, at, ready, owned) && |ready| + 1 < owned && d.dd
    ensures RingOk(desc[Idx(|desc|, at, |ready|) := d], buf, at, ready + [d], owned)
    ensures Idx(|desc|, Idx(|desc|, at, |ready|), 1) == Idx(|desc|, at, |ready| + 1)
  {
    var n, h := |desc|, Idx(|desc|, at, |ready|);
    var desc', ready' := desc[h := d], ready + [d];
    IdxAdd(n, at, |ready|, 1);
    forall k {:trigger Idx(n, at, k)} | 0 <= k < n
      ensures var i := Idx(n, at, k); (k < |ready'| ==> desc'[i] == ready'[k]) && (desc'[i].dd <==> k < |ready'|)
    {
      if k != |ready| {
        IdxInjective(n, at, k, |ready|);
      }
    }
  }

  /** Behind the `owned` descriptors come those that are with the driver, and `free` tells which of them have a buffer. */
  ghost predicate FreeOk(buf: seq<bool>, at: nat, owned: nat, free: seq<bool>) {
    && at < |buf| == owned + |free|
    && forall k {:trigger Idx(|buf|, at, k)} :: owned <= k < |buf| ==> buf[Idx(|buf|, at, k)] == free[k - owned]
  }

  /** A cleaned descriptor comes last. */
  lemma FreeClean(buf: seq<bool>, at: nat, owned: nat, free: seq<bool>, keep: bool)
    requires FreeOk(buf, at, owned, free) && 0 < owned
    ensures FreeOk(buf[at := keep], Idx(|buf|, at, 1), owned - 1, free + [keep])
  {
    var n, at', buf', free' := |buf|, Idx(|buf|, at, 1), buf[at := keep], free + [keep];
    forall k {:trigger Idx(n, at', k)} | owned - 1 <= k < n
      ensures buf'[Idx(n, at', k)] == free'[k - (owned - 1)]
    {
      if k < n - 1 {
        IdxAdd(n, at, 1, k);
        IdxZero(n, at);
        IdxInjective(n, at, 0, k + 1);
        assert Idx(n, at', k) == Idx(n, at, k + 1);
      } else {
        assert Idx(n, at', k) == at;
      }
    }
  }

  /** The first one is given away. */
  lemma FreeGrant(buf: seq<bool>, at: nat, owned: nat, free: seq<bool>)
    requires FreeOk(buf, at, owned, free) && free != []
    ensures buf[Idx(|buf|, at, owned)] == free[0]
    ensures FreeOk(buf[Idx(|buf|, at, owned) := true], at, owned + 1, free[1..])
  {
    var n, i := |buf|, Idx(|buf|, at, owned);
    forall k {:trigger Idx(n, at, k)} | owned + 1 <= k < n
      ensures buf[i := true][Idx(n, at, k)] == free[1..][k - (owned + 1)]
    {
      IdxInjective(n, at, owned, k);
    }
  }
}
