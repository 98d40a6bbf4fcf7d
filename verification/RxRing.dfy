/**
 The receive ring (e1000_main.c): descriptors and buffers in fixed arrays, shared with the hardware, which writes finished
 descriptors between its head and its tail register at any time.
 */
module RxRing {
  import opened RingIndex
  import opened RxFrames
  import opened RxModel

  /** struct e1000_rx_ring, with `out` for what has been passed up, and the hardware's registers. */
  class Ring {
    const desc: array<RxDesc>
    /** whether buffer_info[i].rxbuf.data is there */
    const buf: array<bool>
    const filter: Filter
    var nextToUse: nat
    var nextToClean: nat
    var discarding: bool
    var rdh: nat
    var rdt: nat
    var out: seq<Packet>

    /** The clean position, also in the middle of a poll. */
    ghost var at: nat
    /** The descriptors that have been cleaned, those that are finished, and how many the driver has given away. */
    ghost var seen: seq<RxDesc>
    ghost var ready: seq<RxDesc>
    ghost var owned: nat
    /** For each of the others, in the order they will be given away, whether it has a buffer. */
    ghost var free: seq<bool>

    ghost predicate Inv()
      reads this, desc, buf
    {
      && RingOk(desc[..], buf[..], at, ready, owned) && FreeOk(buf[..], at, owned, free) && Registers() && Passing()
    }

    /** What the ring stands for. */
    ghost function AsRx(): Rx
      reads `seen, `ready, `free
    {
      Rx(seen, ready, free)
    }

    ghost predicate Registers()
      reads `at, `owned, `free, `ready, `nextToUse, `rdh, `rdt
    {
      && at < desc.Length == buf.Length && owned + |free| == desc.Length && owned < desc.Length && |ready| < desc.Length
      && nextToUse == Idx(desc.Length, at, owned) && rdh == Idx(desc.Length, at, |ready|)
      && rdt == (if owned == 0 then at else Idx(desc.Length, at, owned - 1))
    }

    ghost predicate Passing()
      reads `out, `seen, `discarding
    {
      out == Expected(filter, seen) && (discarding <==> Partial(seen) != [])
    }

    ghost predicate Valid()
      reads this, desc, buf
    {
      Inv() && nextToClean == at
    }

    constructor (count: nat, filter: Filter)
      requires count > 0
      ensures Valid() && fresh(desc) && fresh(buf) && AsRx() == Bare(count)
      ensures desc.Length == count && this.filter == filter
    {
      desc := new RxDesc[count](_ => RxDesc(false, false, false, 0, 0, [], 0));
      buf := new bool[count](_ => false);
      this.filter := filter;
      nextToUse, nextToClean, rdh, rdt, discarding, out := 0, 0, 0, 0, false, [];
      at, seen, ready, owned, free := 0, [], [], 0, Bare(count).free;
    }

    lemma Extent()
      requires Inv()
      ensures at < desc.Length == buf.Length && owned < desc.Length && |free| == desc.Length - owned
    {
    }

    /** The hardware writes one descriptor at its head. */
    method ArriveOne(d: RxDesc)
      requires Inv() && d.dd && rdh != rdt
      modifies `rdh, `ready, desc
      ensures Inv() && ready == old(ready) + [d] && |ready| < owned
    {
      hide RingOk, FreeOk, Passing;
      RoomFor(desc[..], buf[..], at, ready, owned);
      ArriveStep(desc[..], buf[..], at, ready, owned, d);
      ghost var was := desc[..];
      desc[rdh] := d;
      assert desc[..] == was[rdh := d];
      rdh := if rdh + 1 == desc.Length then 0 else rdh + 1;
      ready := ready + [d];
    }

    /** The hardware writes descriptors until its head meets its tail; what does not fit is lost on the wire. */
    method Arrive(ds: seq<RxDesc>)
      requires Inv() && forall d :: d in ds ==> d.dd
      modifies `rdh, `ready, desc
      ensures Inv() && AsRx() == Arrived(desc.Length, old(AsRx()), ds)
      ensures |ready| == |old(ready)| + |ds| || rdh == rdt
    {
      hide RingOk, FreeOk, Passing, Registers;
      Extent();
      ghost var taken: seq<RxDesc> := [];
      var i := 0;
      while i < |ds| && rdh != rdt
        invariant Inv() && 0 <= i <= |ds| && taken == ds[..i] && ready == old(ready) + taken && (0 < i ==> |ready| < owned)
      {
        ArriveOne(ds[i]);
        taken := taken + [ds[i]];
        i := i + 1;
      }
      assert ds[..|ds|] == ds;
      Stopped();
    }

    /** The head stops only at the tail. */
    lemma Stopped()
      requires Inv()
      ensures rdh == rdt ==> Room(desc.Length, AsRx()) == 0
    {
      HeadAtTail(desc[..], buf[..], at, ready, owned);
    }

    /** The descriptor at `i` is made ready for the hardware, unless it has no buffer and gets none. */
    method GiveOne(i: nat, ok: bool, ghost given: nat, ghost rest: seq<bool>) returns (done: bool)
      requires RingOk(desc[..], buf[..], at, ready, given) && FreeOk(buf[..], at, given, rest)
      requires at < desc.Length == buf.Length && given + 1 < desc.Length && rest != [] && i == Idx(desc.Length, at, given)
      modifies buf
      ensures done == (rest[0] || ok) && (!done ==> buf[..] == old(buf[..]))
      ensures done ==> RingOk(desc[..], buf[..], at, ready, given + 1) && FreeOk(buf[..], at, given + 1, rest[1..])
      ensures Idx(desc.Length, i, 1) == Idx(desc.Length, at, given + 1)
    {
      hide RingOk, FreeOk;
      GrantStep(desc[..], buf[..], at, ready, given);
      FreeGrant(buf[..], at, given, rest);
      ghost var was := buf[..];
      done := true;
      if !buf[i] {
        if !ok {
          return false;
        }
        buf[i] := true;
      }
      assert buf[..] == was[i := true];
    }

    /** The loop of e1000_alloc_rx_buffers. */
    method GiveMany(cleanedCount: nat, alloc: nat -> bool) returns (i: nat, ghost given: nat, ghost rest: seq<bool>)
      requires Inv() && owned + cleanedCount < desc.Length
      modifies buf
      ensures at < desc.Length && owned <= given < desc.Length && i == Idx(desc.Length, at, given)
      ensures RingOk(desc[..], buf[..], at, ready, given) && FreeOk(buf[..], at, given, rest)
      ensures rest == free[Grant(free, cleanedCount, alloc)..] && given + |rest| == desc.Length
    {
      hide RingOk, FreeOk, Passing, Grant, Idx;
      i := nextToUse;
      var n := cleanedCount;
      given, rest := owned, free;
      while n > 0
        invariant 0 <= n && owned <= given && given + n < desc.Length && given + |rest| == desc.Length
        invariant i == Idx(desc.Length, at, given) && RingOk(desc[..], buf[..], at, ready, given) && FreeOk(buf[..], at, given, rest)
        invariant free[Grant(free, cleanedCount, alloc)..] == rest[Grant(rest, n, alloc)..]
        decreases n
      {
        GrantNext(rest, n, alloc);
        var done := GiveOne(i, alloc(n), given, rest);
        if !done {
          return;
        }
        i := NextIndex(i);
        given, n, rest := given + 1, n - 1, rest[1..];
      }
      GrantNone(rest, alloc);
    }

    method NextIndex(i: nat) returns (j: nat)
      requires i < desc.Length
      ensures j == Idx(desc.Length, i, 1)
    {
      j := if i + 1 == desc.Length then 0 else i + 1;
    }

    /** e1000_alloc_rx_buffers; `alloc` says which allocations succeed. */
    method AllocRxBuffers(cleanedCount: nat, alloc: nat -> bool)
      requires Inv() && owned + cleanedCount < desc.Length
      modifies `nextToUse, `rdt, `owned, `free, buf
      ensures Inv() && AsRx() == Refilled(old(AsRx()), cleanedCount, alloc)
    {
      hide RingOk, FreeOk, Passing, Grant;
      var i, given, rest := GiveMany(cleanedCount, alloc);
      Tail(desc.Length, at, owned, given);
      if nextToUse != i {
        nextToUse := i;
        rdt := if i == 0 then desc.Length - 1 else i - 1;
      }
      owned, free := given, rest;
    }

    /** The packet of one finished descriptor is passed up or dropped. */
    method Dispatch(d: RxDesc)
      requires Passing()
      modifies `discarding, `out, `seen
      ensures Passing() && seen == old(seen) + [d]
    {
      hide TbiAccept, Erroneous;
      ExpectedStep(filter, seen, d);
      seen := seen + [d];
      if !d.eop {
        discarding := true;
      }
      if discarding {
        if d.eop {
          discarding := false;
        }
        return;
      }
      var length := d.length;
      if Erroneous(d) {
        if TbiAccept(filter, d) {
          length := Sub32(length, 1);
        } else if !filter.rxAll {
          return;
        }
      }
      if !filter.rxFcs {
        length := Sub32(length, 4);
      }
      out := out + [Packet(d.data, length)];
    }

    /** One turn of the loop of e1000_clean_rx_irq, behind the tests. A copied packet leaves the buffer in the ring. */
    method CleanOne(i: nat, copied: bool) returns (i': nat)
      requires Inv() && i == at && ready != []
      modifies `discarding, `out, `seen, `ready, `owned, `free, `at, desc, buf
      ensures Inv() && i' == at && AsRx() == Cleaned(old(AsRx()), copied) && owned == old(owned) - 1
    {
      hide RingOk, FreeOk, Passing;
      CleanStep(desc[..], buf[..], at, ready, owned, copied);
      Bounded(desc[..], buf[..], at, ready, owned);
      FreeClean(buf[..], at, owned, free, copied);
      ghost var ds, bs := desc[..], buf[..];
      var d := desc[i];
      if !copied {
        buf[i] := false;
      }
      i' := if i + 1 == desc.Length then 0 else i + 1;
      Dispatch(d);
      desc[i] := desc[i].(dd := false);
      assert desc[..] == ds[i := ds[i].(dd := false)];
      assert buf[..] == bs[i := copied];
      at, ready, owned, free := i', ready[1..], owned - 1, free + [copied];
    }

    /** One cleaning turn, with the refill that follows every sixteenth. */
    method CleanTurn(p: Poll, t: nat, i: nat, count: nat) returns (i': nat, count': nat)
      requires Inv() && i == at && ready != [] && owned + count < desc.Length && count == t % E1000_RX_BUFFER_WRITE
      modifies `discarding, `out, `seen, `ready, `owned, `free, `at, `nextToUse, `rdt, desc, buf
      ensures Inv() && i' == at && owned + count' < desc.Length && count' == (t + 1) % E1000_RX_BUFFER_WRITE
      ensures AsRx() == Turned(p, old(AsRx()), t)
    {
      hide RingOk, FreeOk, Passing, Registers, Refilled, Cleaned;
      Extent();
      i' := CleanOne(i, p.turn(t).copied);
      count' := count + 1;
      if count' >= E1000_RX_BUFFER_WRITE {
        AllocRxBuffers(count', p.alloc(t));
        count' := 0;
        Extent();
      }
    }

    /** e1000_clean_rx_irq; `workDone` also counts a turn for which no packet could be built. */
    method CleanRxIrq(p: Poll) returns (cleaned: bool, workDone: nat)
      requires Valid() && PollDone(p)
      modifies this, desc, buf
      ensures Valid() && AsRx() == Polled(desc.Length, p, old(AsRx()), 0)
      ensures cleaned <==> |seen| > |old(seen)|
      ensures workDone == |seen| - |old(seen)| + if ready != [] && |seen| - |old(seen)| < p.workToDo then 1 else 0
    {
      hide RingOk, FreeOk, Passing, Registers, PollDone, Arrived, Turned, Ended;
      cleaned := false;
      Extent();
      var i, cleanedCount := nextToClean, 0;
      workDone := 0;
      while true
        invariant Inv() && i == at && owned + cleanedCount < desc.Length && cleanedCount == workDone % E1000_RX_BUFFER_WRITE
        invariant |seen| == |old(seen)| + workDone && workDone <= p.workToDo && (cleaned <==> workDone > 0)
        invariant Polled(desc.Length, p, AsRx(), workDone) == Polled(desc.Length, p, old(AsRx()), 0)
        decreases p.workToDo - workDone
      {
        ghost var a := AsRx();
        var turn := p.turn(workDone);
        AllDone(p, workDone);
        Arrive(turn.arriving);
        ArrivedKeeps(desc.Length, a, turn.arriving);
        Finished(desc[..], buf[..], at, ready, owned);
        if !desc[i].dd || workDone >= p.workToDo {
          break;
        }
        workDone := workDone + 1;
        if !turn.copied && !turn.built {
          break;
        }
        TurnKeepsStream(p, AsRx(), workDone - 1);
        i, cleanedCount := CleanTurn(p, workDone - 1, i, cleanedCount);
        cleaned := true;
      }
      nextToClean := i;
      Refill(p);
    }

    /** The end of a poll: all unused descriptors but one are given to the hardware. */
    method Refill(p: Poll)
      requires Valid()
      modifies `nextToUse, `rdt, `owned, `free, buf
      ensures Valid() && AsRx() == Ended(p, old(AsRx()))
    {
      FirstFill(p.lastAlloc);
    }

    method FirstFill(alloc: nat -> bool)
      requires Valid()
      modifies `nextToUse, `rdt, `owned, `free, buf
      ensures Valid() && AsRx() == Refilled(old(AsRx()), |old(free)| - 1, alloc) && |old(free)| > 0
    {
      hide RingOk, FreeOk, Passing;
      var unused := (if nextToClean > nextToUse then 0 else desc.Length) + nextToClean - nextToUse - 1;
      assert unused == |free| - 1;
      if unused != 0 {
        AllocRxBuffers(unused, alloc);
      }
    }
  }

  /** The head has not met the tail. */
  lemma RoomFor(desc: seq<RxDesc>, buf: seq<bool>, at: nat, ready: seq<RxDesc>, owned: nat)
    requires RingOk(desc, buf, at, ready, owned)
    requires Idx(|desc|, at, |ready|) != if owned == 0 then at else Idx(|desc|, at, owned - 1)
    ensures |ready| + 1 < owned
  {
    IdxZero(|desc|, at);
  }

  lemma Tail(count: nat, at: nat, owned: nat, given: nat)
    requires at < count && owned <= given < count
    ensures Idx(count, at, owned) == Idx(count, at, given) <==> owned == given
    ensures given > 0 ==> Idx(count, at, given - 1) == if Idx(count, at, given) == 0 then count - 1 else Idx(count, at, given) - 1
  {
  }

  lemma Bounded(desc: seq<RxDesc>, buf: seq<bool>, at: nat, ready: seq<RxDesc>, owned: nat)
    requires RingOk(desc, buf, at, ready, owned) && ready != []
    ensures |ready| < owned && at < |buf| && buf[at]
  {
    assert Idx(|desc|, at, 0) == at;
  }

  /** The done bit at the clean position tells whether anything is finished. */
  lemma Finished(desc: seq<RxDesc>, buf: seq<bool>, at: nat, ready: seq<RxDesc>, owned: nat)
    requires RingOk(desc, buf, at, ready, owned)
    ensures at < |desc| && (desc[at].dd <==> ready != [])
  {
    assert Idx(|desc|, at, 0) == at;
  }

  lemma HeadAtTail(desc: seq<RxDesc>, buf: seq<bool>, at: nat, ready: seq<RxDesc>, owned: nat)
    requires RingOk(desc, buf, at, ready, owned)
    ensures |ready| < |desc| && owned < |desc|
    ensures Idx(|desc|, at, |ready|) == (if owned == 0 then at else Idx(|desc|, at, owned - 1)) ==> owned <= |ready| + 1
  {
    if owned > 0 {
      IdxInjective(|desc|, at, |ready|, owned - 1);
    }
  }

  lemma AllDone(p: Poll, t: nat)
    requires PollDone(p)
    ensures forall d :: d in p.turn(t).arriving ==> d.dd
  {
  }

  lemma ArrivedKeeps(count: nat, a: Rx, ds: seq<RxDesc>)
    ensures Arrived(count, a, ds).seen == a.seen && Arrived(count, a, ds).free == a.free
  {
  }

  /** The whole life of a ring. However the stream is cut into polls and whatever is allocated when, the ring is as described without
      indices and registers: all that arrives while there is room is taken in, cleaned in that order, and the packets passed up are
      the accepted single-descriptor frames of what has been cleaned. */
  method Run(count: nat, filter: Filter, alloc: nat -> bool, ps: seq<Poll>) returns (r: Ring)
    requires count > 0 && forall p :: p in ps ==> PollDone(p)
    ensures r.Valid() && r.filter == filter && r.AsRx() == Outcome(count, alloc, ps)
    ensures r.seen + r.ready == Stream(count, alloc, ps) && r.out == Expected(filter, r.seen)
    ensures Joined(Frames(r.seen)) + Partial(r.seen) == r.seen
  {
    hide RingOk, FreeOk, Ring.Registers, PollDone, Polled, Refilled;
    r := new Ring(count, filter);
    r.FirstFill(alloc);
    for i := 0 to |ps|
      invariant r.Valid() && fresh(r) && fresh(r.desc) && fresh(r.buf) && r.filter == filter && r.desc.Length == count
      invariant r.AsRx() == Outcome(count, alloc, ps[..i])
    {
      assert ps[i] in ps && ps[..i + 1][..i] == ps[..i];
      var _, _ := r.CleanRxIrq(ps[i]);
    }
    assert ps[..|ps|] == ps;
    RunKeepsStream(count, alloc, ps);
    FramesPartition(r.seen);
  }
}
