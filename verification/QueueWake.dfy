/**
 Stopping and waking the transmit queue (e1000_main.c): e1000_xmit_frame with e1000_maybe_stop_tx on one processor,
 e1000_clean_tx_irq on another, and the controller, step by step in every order.

 Each step reads or writes one shared item: the number of descriptors in flight (the distance from next_to_clean to
 next_to_use), the finished descriptors, or the stopped flag. Memory is sequentially consistent; that is what the two
 barriers in the source are for.
 */
module QueueWake {
  import opened TxSplit

  const E1000_MIN_TXD := 48
  const NEXT_SEND := MAX_SKB_FRAGS + 2

  /** Where e1000_xmit_frame is.
      - Ready: the check for `size` descriptors has passed
      - Full: it has failed, the queue is about to be stopped
      - Recheck: the queue has been stopped, the second check comes next
      - Reprieve: the second check has passed, the queue is about to be started again
      - Sent: the packet is queued, the check for the next one comes next
      `sending` tells whether a packet is waiting behind the check. */
  datatype Producer = Idle | Ready(size: nat) | Full(size: nat, sending: bool) | Recheck(size: nat, sending: bool)
                    | Reprieve(size: nat, sending: bool) | Sent

  /** Where e1000_clean_tx_irq is: with `n` > 0 descriptors cleaned but next_to_clean not yet written, with it written,
      past the check for room, or past the check of the flag. */
  datatype Cleaner = Resting | Cleaned(n: nat) | Published | Roomy | Waking

  datatype State = State(count: nat, inflight: nat, finished: nat, stopped: bool, p: Producer, c: Cleaner)

  /** E1000_DESC_UNUSED */
  function Unused(s: State): int {
    s.count - 1 - s.inflight
  }

  // ---- the steps -----------------------------------------------------------------------------------

  /** A packet arrives that needs `size` descriptors, no more than an empty ring has. */
  ghost predicate Arrive(s: State, t: State, size: nat) {
    && s.p.Idle? && size < s.count
    && t == s.(p := if Unused(s) >= size then Ready(size) else Full(size, true))
  }

  /** The packet takes `n` descriptors. */
  ghost predicate Send(s: State, t: State, n: nat) {
    s.p.Ready? && 0 < n <= s.p.size && t == s.(inflight := s.inflight + n, p := Sent)
  }

  ghost predicate CheckNext(s: State, t: State) {
    s.p.Sent? && t == s.(p := if Unused(s) >= NEXT_SEND then Idle else Full(NEXT_SEND, false))
  }

  ghost predicate Stop(s: State, t: State) {
    s.p.Full? && t == s.(stopped := true, p := Recheck(s.p.size, s.p.sending))
  }

  ghost predicate CheckAgain(s: State, t: State) {
    s.p.Recheck? && t == s.(p := if Unused(s) < s.p.size then Idle else Reprieve(s.p.size, s.p.sending))
  }

  ghost predicate Start(s: State, t: State) {
    s.p.Reprieve? && t == s.(stopped := false, p := if s.p.sending then Ready(s.p.size) else Idle)
  }

  ghost predicate ProducerStep(s: State, t: State) {
    || (exists size :: Arrive(s, t, size)) || (exists n :: Send(s, t, n))
    || CheckNext(s, t) || Stop(s, t) || CheckAgain(s, t) || Start(s, t)
  }

  function BeingCleaned(s: State): nat {
    if s.c.Cleaned? then s.c.n else 0
  }

  /** The controller finishes `n` more descriptors. */
  ghost predicate Finish(s: State, t: State, n: nat) {
    s.finished + BeingCleaned(s) + n <= s.inflight && t == s.(finished := s.finished + n)
  }

  /** The cleaner takes `n` finished descriptors; with none it does nothing at all. */
  ghost predicate Clean(s: State, t: State, n: nat) {
    s.c.Resting? && 0 < n <= s.finished && t == s.(finished := s.finished - n, c := Cleaned(n))
  }

  ghost predicate Publish(s: State, t: State) {
    s.c.Cleaned? && s.c.n <= s.inflight && t == s.(inflight := s.inflight - s.c.n, c := Published)
  }

  ghost predicate CheckRoom(s: State, t: State) {
    s.c.Published? && t == s.(c := if Unused(s) >= TX_WAKE_THRESHOLD then Roomy else Resting)
  }

  ghost predicate CheckStopped(s: State, t: State) {
    s.c.Roomy? && t == s.(c := if s.stopped then Waking else Resting)
  }

  ghost predicate Wake(s: State, t: State) {
    s.c.Waking? && t == s.(stopped := false, c := Resting)
  }

  /** A step of the controller or the cleaner. */
  ghost predicate DrainStep(s: State, t: State) {
    || (exists n :: Finish(s, t, n)) || (exists n :: Clean(s, t, n))
    || Publish(s, t) || CheckRoom(s, t) || CheckStopped(s, t) || Wake(s, t)
  }

  ghost predicate Step(s: State, t: State) {
    ProducerStep(s, t) || DrainStep(s, t)
  }

  ghost predicate Init(s: State) {
    E1000_MIN_TXD <= s.count && s == State(s.count, 0, 0, false, Idle, Resting)
  }

  ghost predicate IsRun(r: seq<State>) {
    r != [] && Init(r[0]) && forall i {:trigger r[i]} :: 0 < i < |r| ==> Step(r[i - 1], r[i])
  }

  // ---- no lost wake-up -----------------------------------------------------------------------------

  /** The producer will look at the ring again before it rests. */
  predicate WillRecheck(p: Producer) {
    p.Recheck? || p.Reprieve?
  }

  /** The cleaner has published and will still look at the flag if there is room. */
  predicate WillWake(c: Cleaner) {
    c.Published? || c.Roomy? || c.Waking?
  }

  predicate ProducerOk(s: State) {
    match s.p
    case Idle => true
    case Sent => true
    case Ready(size) => size <= Unused(s)
    case Full(size, _) => size < s.count
    case Recheck(size, _) => size < s.count
    case Reprieve(size, _) => size <= Unused(s)
  }

  predicate CleanerOk(s: State) {
    && s.finished + BeingCleaned(s) <= s.inflight
    && (s.c.Cleaned? ==> 0 < s.c.n)
  }

  /** A stopped queue has work in flight, or someone who will look again. */
  predicate Attended(s: State) {
    s.stopped ==> 0 < s.inflight || WillRecheck(s.p) || WillWake(s.c)
  }

  predicate Inv(s: State) {
    E1000_MIN_TXD <= s.count && s.inflight < s.count && ProducerOk(s) && CleanerOk(s) && Attended(s)
  }

  lemma ProducerKeeps(s: State, t: State)
    requires Inv(s) && ProducerStep(s, t)
    ensures Inv(t)
  {
  }

  lemma DrainKeeps(s: State, t: State)
    requires Inv(s) && DrainStep(s, t)
    ensures Inv(t)
  {
  }

  /** In every state of every run a stopped queue is attended. */
  lemma {:induction false} NoLostWakeup(r: seq<State>, i: nat)
    requires IsRun(r) && i < |r|
    ensures Inv(r[i])
    ensures r[i].stopped && !WillRecheck(r[i].p) && r[i].c.Resting? ==> 0 < r[i].inflight
    decreases i
  {
    if i != 0 {
      NoLostWakeup(r, i - 1);
      assert Step(r[i - 1], r[i]);
      if ProducerStep(r[i - 1], r[i]) {
        ProducerKeeps(r[i - 1], r[i]);
      } else {
        DrainKeeps(r[i - 1], r[i]);
      }
    }
  }

  // ---- and the wake-up comes -----------------------------------------------------------------------

  ghost predicate IsDrain(r: seq<State>) {
    r != [] && forall i {:trigger r[i]} :: 0 < i < |r| ==> DrainStep(r[i - 1], r[i])
  }

  lemma Extend(r: seq<State>, t: State)
    requires IsDrain(r) && DrainStep(r[|r| - 1], t)
    ensures IsDrain(r + [t])
  {
  }

  /** The next step of a cleaner that has begun. */
  function Onward(s: State): State {
    match s.c
    case Resting => s
    case Cleaned(n) => if n <= s.inflight then s.(inflight := s.inflight - n, c := Published) else s
    case Published => s.(c := if Unused(s) >= TX_WAKE_THRESHOLD then Roomy else Resting)
    case Roomy => s.(c := if s.stopped then Waking else Resting)
    case Waking => s.(stopped := false, c := Resting)
  }

  function ToGo(c: Cleaner): nat {
    match c
    case Resting => 0
    case Cleaned(_) => 4
    case Published => 3
    case Roomy => 2
    case Waking => 1
  }

  lemma OnwardIsStep(s: State)
    requires Inv(s) && !s.c.Resting?
    ensures DrainStep(s, Onward(s)) && ToGo(Onward(s).c) < ToGo(s.c)
  {
    assert Publish(s, Onward(s)) || CheckRoom(s, Onward(s)) || CheckStopped(s, Onward(s)) || Wake(s, Onward(s));
  }

  lemma Prepend(s: State, r: seq<State>)
    requires IsDrain(r) && DrainStep(s, r[0])
    ensures IsDrain([s] + r)
  {
    var r' := [s] + r;
    forall i {:trigger r'[i]} | 0 < i < |r'|
      ensures DrainStep(r'[i - 1], r'[i])
    {
      if i > 1 {
        assert DrainStep(r[i - 2], r[i - 1]);
      }
    }
  }

  /** Let the cleaner finish what it has begun. */
  lemma {:induction false} RestCleaner(s: State) returns (r: seq<State>)
    requires Inv(s)
    ensures IsDrain(r) && r[0] == s
    ensures var t := r[|r| - 1]; Inv(t) && t.c.Resting? && t.p == s.p && t.count == s.count && (!s.stopped ==> !t.stopped)
    decreases ToGo(s.c)
  {
    hide Inv, DrainStep;
    if s.c.Resting? {
      r := [s];
    } else {
      OnwardIsStep(s);
      DrainKeeps(s, Onward(s));
      var rest := RestCleaner(Onward(s));
      Prepend(s, rest);
      r := [s] + rest;
    }
  }

  lemma Append(r: seq<State>, s: State, t: State) returns (r': seq<State>, t': State)
    requires IsDrain(r) && r[|r| - 1] == s && Inv(s) && DrainStep(s, t)
    ensures IsDrain(r') && r'[0] == r[0] && r'[|r'| - 1] == t == t' && Inv(t)
  {
    Extend(r, t);
    DrainKeeps(s, t);
    r', t' := r + [t], t;
  }

  /** Whenever the producer rests, the controller and the cleaner alone get the queue running again. */
  lemma QueueCanBeWoken(s: State) returns (r: seq<State>)
    requires Inv(s) && !WillRecheck(s.p)
    ensures IsDrain(r) && r[0] == s && !r[|r| - 1].stopped
  {
    r := RestCleaner(s);
    var t := r[|r| - 1];
    if t.stopped {
      var u := t.(finished := t.inflight);
      assert Finish(t, u, t.inflight - t.finished);
      r, t := Append(r, t, u);
      u := t.(finished := 0, c := Cleaned(t.inflight));
      assert Clean(t, u, t.inflight);
      r, t := Append(r, t, u);
      u := t.(inflight := 0, c := Published);
      assert Publish(t, u);
      r, t := Append(r, t, u);
      u := t.(c := Roomy);
      assert CheckRoom(t, u);
      r, t := Append(r, t, u);
      u := t.(c := Waking);
      assert CheckStopped(t, u);
      r, t := Append(r, t, u);
      u := t.(stopped := false, c := Resting);
      assert Wake(t, u);
      r, t := Append(r, t, u);
    }
  }

  // ---- whatever order controller and cleaner take ----------------------------------------------------------------------

  /** What controller and cleaner still have to do at most. */
  function Work(s: State): int {
    7 * (s.inflight - s.finished - BeingCleaned(s)) + 6 * s.finished + ToGo(s.c)
  }

  lemma DrainProgress(s: State, t: State)
    requires Inv(s) && DrainStep(s, t) && s != t
    ensures 0 <= Work(t) < Work(s)
  {
    DrainKeeps(s, t);
  }

  /** Neither controller nor cleaner can do anything more. */
  ghost predicate Drained(s: State) {
    forall t :: DrainStep(s, t) ==> t == s
  }

  /** With nothing left to do and a sender that will not look again, the queue is running. */
  lemma DrainedIsAwake(s: State)
    requires Inv(s) && !WillRecheck(s.p) && Drained(s)
    ensures !s.stopped && s.inflight == 0 && s.c.Resting?
  {
    if !s.c.Resting? || s.inflight > 0 {
      var t := GoOn(s);
    }
  }

  /** There is something to do as long as work is in flight or the cleaner has begun. */
  lemma GoOn(s: State) returns (t: State)
    requires Inv(s) && (!s.c.Resting? || s.inflight > 0)
    ensures DrainStep(s, t) && t != s
  {
    if !s.c.Resting? {
      OnwardIsStep(s);
      t := Onward(s);
    } else if s.finished > 0 {
      t := s.(finished := 0, c := Cleaned(s.finished));
      assert Clean(s, t, s.finished);
    } else {
      t := s.(finished := s.inflight);
      assert Finish(s, t, s.inflight);
    }
  }

  /** Every step of the run does something. */
  ghost predicate Progressing(r: seq<State>) {
    IsDrain(r) && forall i {:trigger r[i]} :: 0 < i < |r| ==> r[i - 1] != r[i]
  }

  lemma {:induction false} DrainKeepsOn(r: seq<State>, i: nat)
    requires Progressing(r) && Inv(r[0]) && i < |r|
    ensures Inv(r[i]) && r[i].p == r[0].p && (!r[0].stopped ==> !r[i].stopped) && 0 <= Work(r[i]) <= Work(r[0]) - i
    decreases i
  {
    if i > 0 {
      DrainKeepsOn(r, i - 1);
      assert DrainStep(r[i - 1], r[i]) && r[i - 1] != r[i];
      DrainKeeps(r[i - 1], r[i]);
      DrainProgress(r[i - 1], r[i]);
    }
  }

  /** Every run of controller and cleaner that does something at each step is short, and when it can go no further the queue is awake. */
  lemma EveryDrainWakes(r: seq<State>)
    requires Progressing(r) && Inv(r[0]) && !WillRecheck(r[0].p)
    ensures |r| - 1 <= Work(r[0])
    ensures Drained(r[|r| - 1]) ==> !r[|r| - 1].stopped
  {
    hide Inv, Progressing, DrainStep, Work, Drained;
    var last := |r| - 1;
    NotEmpty(r);
    DrainKeepsOn(r, last);
    if Drained(r[last]) {
      DrainedIsAwake(r[last]);
    }
  }

  lemma NotEmpty(r: seq<State>)
    requires Progressing(r)
    ensures r != []
  {
  }
}
