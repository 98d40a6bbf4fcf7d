/**
 Receiving without rings and registers: what the hardware takes in, what is cleaned, and which buffers a refill gets, as functions of
 the polls.
 */
module RxModel {
  import opened RxFrames

  const E1000_RX_BUFFER_WRITE := 16

  /** What happens around one turn of the clean loop: frames that arrive before it, whether the packet is copied out of the
      buffer, and whether a packet could be built around the buffer. */
  datatype Turn = Turn(arriving: seq<RxDesc>, copied: bool, built: bool)

  /** One poll: the budget, the turns of its loop, and which buffer allocations succeed in a refill after a turn and in the refill at
      its end; allocations are numbered by how many are still to come. */
  datatype Poll = Poll(workToDo: nat, turn: nat -> Turn, alloc: nat -> nat -> bool, lastAlloc: nat -> bool)

  ghost predicate PollDone(p: Poll) {
    forall k, d :: d in p.turn(k).arriving ==> d.dd
  }

  /** The descriptors cleaned so far, those finished and not yet cleaned, and for each descriptor that is with the driver, from the next
      to be given away on, whether it still has a buffer. */
  datatype Rx = Rx(seen: seq<RxDesc>, ready: seq<RxDesc>, free: seq<bool>)

  // ---- the hardware --------------------------------------------------------------------------------------------------

  /** How many descriptors of a ring of `count` the hardware can write. */
  function Room(count: nat, a: Rx): nat {
    if |a.ready| + 1 + |a.free| < count then count - |a.free| - 1 - |a.ready| else 0
  }

  /** All of `ds` if there is room, and as much as there is room for if not. */
  function Taken(count: nat, a: Rx, ds: seq<RxDesc>): seq<RxDesc> {
    if |ds| <= Room(count, a) then ds else ds[..Room(count, a)]
  }

  function Arrived(count: nat, a: Rx, ds: seq<RxDesc>): Rx {
    a.(ready := a.ready + Taken(count, a, ds))
  }

  // ---- the driver ----------------------------------------------------------------------------------------------------

  /** Of `n` descriptors, those before the first that has no buffer and gets none. */
  function Grant(free: seq<bool>, n: nat, alloc: nat -> bool): (g: nat)
    ensures g <= n && g <= |free|
  {
    if n == 0 || free == [] || (!free[0] && !alloc(n)) then 0 else 1 + Grant(free[1..], n - 1, alloc)
  }

  lemma GrantNext(free: seq<bool>, n: nat, alloc: nat -> bool)
    requires n > 0 && free != []
    ensures if free[0] || alloc(n)
            then Grant(free, n, alloc) == 1 + Grant(free[1..], n - 1, alloc)
                 && free[Grant(free, n, alloc)..] == free[1..][Grant(free[1..], n - 1, alloc)..]
            else Grant(free, n, alloc) == 0 && free[Grant(free, n, alloc)..] == free
  {
  }

  lemma GrantNone(free: seq<bool>, alloc: nat -> bool)
    ensures Grant(free, 0, alloc) == 0 && free[0..] == free
  {
  }

  function Refilled(a: Rx, n: nat, alloc: nat -> bool): Rx {
    a.(free := a.free[Grant(a.free, n, alloc)..])
  }

  /** The oldest finished descriptor is cleaned; a copied packet leaves its buffer behind. */
  function Cleaned(a: Rx, copied: bool): Rx
    requires a.ready != []
  {
    Rx(a.seen + [a.ready[0]], a.ready[1..], a.free + [copied])
  }

  /** Turn `t` of a poll that cleans, with the refill after every sixteenth. */
  function Turned(p: Poll, a: Rx, t: nat): Rx
    requires a.ready != []
  {
    var b := Cleaned(a, p.turn(t).copied);
    if (t + 1) % E1000_RX_BUFFER_WRITE == 0 then Refilled(b, E1000_RX_BUFFER_WRITE, p.alloc(t)) else b
  }

  /** Turn `t` cleans: something is finished, the budget is not used up, and there is a packet for it. */
  predicate Cleans(p: Poll, a: Rx, t: nat) {
    a.ready != [] && t < p.workToDo && (p.turn(t).copied || p.turn(t).built)
  }

  /** The refill at the end: all but one of the descriptors that are with the driver. */
  function Ended(p: Poll, a: Rx): Rx {
    Refilled(a, if a.free == [] then 0 else |a.free| - 1, p.lastAlloc)
  }

  /** A poll, from its turn `t` on. */
  function Polled(count: nat, p: Poll, a: Rx, t: nat): Rx
    decreases if t < p.workToDo then p.workToDo - t else 0
  {
    var b := Arrived(count, a, p.turn(t).arriving);
    if Cleans(p, b, t) then Polled(count, p, Turned(p, b, t), t + 1) else Ended(p, b)
  }

  /** A ring without buffers. */
  function Bare(count: nat): Rx {
    Rx([], [], seq(count, _ => false))
  }

  /** The first fill and then the polls. */
  function Outcome(count: nat, alloc: nat -> bool, ps: seq<Poll>): Rx
    requires 0 < count
  {
    if ps == [] then Refilled(Bare(count), count - 1, alloc) else Polled(count, ps[|ps| - 1], Outcome(count, alloc, ps[..|ps| - 1]), 0)
  }

  // ---- properties ----------------------------------------------------------------------------------------------------

  /** All the hardware takes in during a poll. */
  function Intake(count: nat, p: Poll, a: Rx, t: nat): seq<RxDesc>
    decreases if t < p.workToDo then p.workToDo - t else 0
  {
    var more := Taken(count, a, p.turn(t).arriving);
    var b := Arrived(count, a, p.turn(t).arriving);
    more + if Cleans(p, b, t) then Intake(count, p, Turned(p, b, t), t + 1) else []
  }

  /** A poll loses, repeats and reorders nothing: what has been cleaned and what is finished grow by what the hardware took in, and only
      up to the budget is cleaned, in order. */
  lemma {:induction false} PollKeepsStream(count: nat, p: Poll, a: Rx, t: nat)
    ensures var b := Polled(count, p, a, t);
            a.seen <= b.seen && b.seen + b.ready == a.seen + a.ready + Intake(count, p, a, t)
            && |b.seen| <= |a.seen| + if t < p.workToDo then p.workToDo - t else 0
    decreases if t < p.workToDo then p.workToDo - t else 0
  {
    hide Taken, Refilled;
    var more := Taken(count, a, p.turn(t).arriving);
    var b := Arrived(count, a, p.turn(t).arriving);
    assert b.seen + b.ready == a.seen + a.ready + more;
    if Cleans(p, b, t) {
      var c := Turned(p, b, t);
      TurnKeepsStream(p, b, t);
      PollKeepsStream(count, p, c, t + 1);
      var rest := Intake(count, p, c, t + 1);
      assert a.seen + a.ready + more + rest == a.seen + a.ready + (more + rest);
    } else {
      RefillKeepsStream(b, if b.free == [] then 0 else |b.free| - 1, p.lastAlloc);
      assert more + [] == more;
    }
  }

  lemma RefillKeepsStream(a: Rx, n: nat, alloc: nat -> bool)
    ensures Refilled(a, n, alloc).seen == a.seen && Refilled(a, n, alloc).ready == a.ready
  {
  }

  lemma TurnKeepsStream(p: Poll, a: Rx, t: nat)
    requires a.ready != []
    ensures var b := Turned(p, a, t); b.seen == a.seen + [a.ready[0]] && b.ready == a.ready[1..] && b.seen + b.ready == a.seen + a.ready
  {
  }

  /** A poll with room for all that arrives takes in all of it: its turns are those of `offered`. */
  lemma {:induction false} IntakeIsAll(count: nat, p: Poll, a: Rx, t: nat)
    requires Fits(count, p, a, t)
    ensures Intake(count, p, a, t) == Offered(count, p, a, t)
    decreases if t < p.workToDo then p.workToDo - t else 0
  {
    var b := Arrived(count, a, p.turn(t).arriving);
    if Cleans(p, b, t) {
      IntakeIsAll(count, p, Turned(p, b, t), t + 1);
    }
  }

  /** There is room in every turn of the poll. */
  predicate Fits(count: nat, p: Poll, a: Rx, t: nat)
    decreases if t < p.workToDo then p.workToDo - t else 0
  {
    && |p.turn(t).arriving| <= Room(count, a)
    && var b := Arrived(count, a, p.turn(t).arriving);
       Cleans(p, b, t) ==> Fits(count, p, Turned(p, b, t), t + 1)
  }

  /** What arrives in the turns of the poll. */
  function Offered(count: nat, p: Poll, a: Rx, t: nat): seq<RxDesc>
    decreases if t < p.workToDo then p.workToDo - t else 0
  {
    var b := Arrived(count, a, p.turn(t).arriving);
    p.turn(t).arriving + if Cleans(p, b, t) then Offered(count, p, Turned(p, b, t), t + 1) else []
  }

  /** If every allocation succeeds a refill gets all it asks for. */
  lemma {:induction false} GrantAll(free: seq<bool>, n: nat, alloc: nat -> bool)
    requires n <= |free| && forall k :: alloc(k)
    ensures Grant(free, n, alloc) == n
  {
    if n > 0 {
      GrantAll(free[1..], n - 1, alloc);
    }
  }

  /** A descriptor that gets no buffer stops the refill: all before it have one, and it has none. */
  lemma {:induction false} GrantStops(free: seq<bool>, n: nat, alloc: nat -> bool)
    requires n <= |free|
    ensures var g := Grant(free, n, alloc);
            && (forall i {:trigger free[i]} :: 0 <= i < g ==> free[i] || alloc(n - i))
            && (g < n ==> !free[g] && !alloc(n - g))
  {
    if n > 0 && (free[0] || alloc(n)) {
      GrantStops(free[1..], n - 1, alloc);
      var g := Grant(free[1..], n - 1, alloc);
      forall i {:trigger free[i]} | 0 <= i < 1 + g
        ensures free[i] || alloc(n - i)
      {
        if i > 0 {
          assert free[1..][i - 1] == free[i];
          assert n - 1 - (i - 1) == n - i;
        }
      }
      assert g < n - 1 ==> free[1..][g] == free[g + 1] && n - 1 - g == n - (1 + g);
    }
  }

  /** Over a whole run the stream is the intakes of the polls, one behind the other. */
  function Stream(count: nat, alloc: nat -> bool, ps: seq<Poll>): seq<RxDesc>
    requires 0 < count
  {
    if ps == [] then [] else
      var before := ps[..|ps| - 1];
      Stream(count, alloc, before) + Intake(count, ps[|ps| - 1], Outcome(count, alloc, before), 0)
  }

  lemma {:induction false} RunKeepsStream(count: nat, alloc: nat -> bool, ps: seq<Poll>)
    requires 0 < count
    ensures var a := Outcome(count, alloc, ps); a.seen + a.ready == Stream(count, alloc, ps)
  {
    hide Polled, Intake;
    if ps != [] {
      var before := ps[..|ps| - 1];
      RunKeepsStream(count, alloc, before);
      PollKeepsStream(count, ps[|ps| - 1], Outcome(count, alloc, before), 0);
    }
  }
}
