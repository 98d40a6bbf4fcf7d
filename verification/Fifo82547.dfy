/**
 The transmit FIFO of the 82547 (e1000_main.c): the driver mirrors where the hardware writes next, and in half duplex holds back
 packets that would cross the end of the FIFO by too much until the FIFO has drained.
 */
module Fifo82547 {
  import TxGrowth

  const FIFO_HDR := 0x10
  const PAD_LEN := 0x3E0
  const PBA_40K := 40
  const PBA_30K := 30
  const RXBUFFER_8192 := 8192
  const MINIMUM_FRAME := 64
  const MAX_JUMBO_FRAME := 0x3F00
  const ENET_HEADER_SIZE := 14
  const FCS_SIZE := 4

  function Align(x: nat): (a: nat)
    ensures x <= a < x + FIFO_HDR && a % FIFO_HDR == 0
  {
    (x + FIFO_HDR - 1) / FIFO_HDR * FIFO_HDR
  }

  /** The room a packet takes in the FIFO. */
  function FifoLen(len: nat): (n: nat)
    ensures len + FIFO_HDR <= n < len + 2 * FIFO_HDR && n % FIFO_HDR == 0
  {
    Align(len + FIFO_HDR)
  }

  /** The packet buffer split of e1000_reset: larger frames leave more to the transmitter. */
  function FifoSize(maxFrame: nat): nat {
    (PBA_40K - if maxFrame > RXBUFFER_8192 then PBA_30K - 8 else PBA_30K) * 1024
  }

  /** Of the 40 KB, 10 KB are for the transmitter, or 18 KB with frames beyond 8 KB. */
  lemma FifoSizes(maxFrame: nat)
    ensures FifoSize(maxFrame) == if maxFrame <= 8192 then 10 * 1024 else 18 * 1024
  {
  }

  /** The position `n` bytes behind the start of a FIFO. */
  function Wrap(n: nat, size: nat): (p: nat)
    requires size > 0
    ensures p < size
  {
    if n < size then n else Wrap(n - size, size)
  }

  /** One subtraction is enough to wrap once more. */
  lemma {:induction false} WrapAdd(n: nat, d: nat, size: nat)
    requires d < size
    ensures var p := Wrap(n, size) + d; Wrap(n + d, size) == if p >= size then p - size else p
  {
    if n >= size {
      WrapAdd(n - size, d, size);
    }
  }

  /** The frames the stack may send. */
  predicate Sendable(maxFrame: nat, len: nat) {
    len <= maxFrame + TxGrowth.ENCAP
  }

  predicate FrameOk(maxFrame: nat) {
    MINIMUM_FRAME <= maxFrame <= MAX_JUMBO_FRAME
  }

  /** Every packet fits the FIFO it is meant for. */
  lemma PacketFits(maxFrame: nat, len: nat)
    requires FrameOk(maxFrame) && Sendable(maxFrame, len)
    ensures FifoLen(len) < FifoSize(maxFrame)
  {
  }

  class Fifo {
    var maxFrame: nat
    var head: nat
    var size: nat
    var stall: bool
    /** Bytes the hardware has been given since its pointers were last at the start. */
    ghost var written: nat

    /** The driver knows where the hardware writes next. */
    ghost predicate Valid()
      reads this
    {
      FrameOk(maxFrame) && size == FifoSize(maxFrame) && head == Wrap(written, size)
    }

    constructor (maxFrame: nat)
      requires FrameOk(maxFrame)
      ensures Valid() && this.maxFrame == maxFrame && head == 0 && !stall && written == 0
    {
      this.maxFrame, head, size, stall, written := maxFrame, 0, FifoSize(maxFrame), false, 0;
    }

    /** The part of e1000_reset for this chip. */
    method Reset()
      requires FrameOk(maxFrame)
      modifies `head, `size, `stall, `written
      ensures Valid() && head == 0 && !stall && written == 0
    {
      var pba := PBA_30K;
      if maxFrame > RXBUFFER_8192 {
        pba := pba - 8;
      }
      head, size, stall, written := 0, (PBA_40K - pba) * 1024, false, 0;
    }

    /** e1000_change_mtu; false is -EINVAL */
    method ChangeMtu(mtu: int) returns (ok: bool)
      requires Valid()
      modifies this
      ensures Valid() && ok == (MINIMUM_FRAME <= mtu + ENET_HEADER_SIZE + FCS_SIZE <= MAX_JUMBO_FRAME)
      ensures if ok then maxFrame == mtu + ENET_HEADER_SIZE + FCS_SIZE && head == 0 && !stall && written == 0 else unchanged(this)
    {
      var frame := mtu + ENET_HEADER_SIZE + FCS_SIZE;
      if frame < MINIMUM_FRAME || frame > MAX_JUMBO_FRAME {
        return false;
      }
      maxFrame := frame;
      Reset();
      return true;
    }

    /** e1000_82547_fifo_workaround: true if the packet may be queued. In half duplex an accepted packet passes the end of the
        FIFO by less than the pad; a refused one would pass it by at least that, or the FIFO is being drained. */
    method Send(len: nat, half: bool) returns (ok: bool)
      requires Valid() && Sendable(maxFrame, len)
      modifies `head, `stall, `written
      ensures Valid() && head < size
      ensures ok <==> !half || (!old(stall) && old(head) + FifoLen(len) < size + PAD_LEN)
      ensures ok ==> written == old(written) + FifoLen(len) && stall == old(stall)
      ensures ok && half && old(head) + FifoLen(len) >= size ==> head < PAD_LEN
      ensures !ok ==> stall && head == old(head) && written == old(written)
    {
      PacketFits(maxFrame, len);
      var space := size - head;
      var n := FifoLen(len);
      if half {
        if stall {
          return false;
        }
        if n >= PAD_LEN + space {
          stall := true;
          return false;
        }
      }
      WrapAdd(written, n, size);
      head := head + n;
      if head >= size {
        head := head - size;
      }
      written := written + n;
      return true;
    }

    /** e1000_82547_tx_fifo_stall_task; `empty` says that all hardware pointers have met. The result is whether to try again. */
    method StallTask(empty: bool, down: bool) returns (again: bool)
      requires Valid()
      modifies `head, `stall, `written
      ensures Valid() && again == (old(stall) && !empty && !down)
      ensures if old(stall) && empty then head == 0 && !stall && written == 0
              else head == old(head) && stall == old(stall) && written == old(written)
    {
      if stall {
        if empty {
          head, written, stall := 0, 0, false;
        } else {
          return !down;
        }
      }
      return false;
    }

    /** A packet that was held back goes out after the drain. */
    method DrainThenSend(len: nat, half: bool)
      requires Valid() && stall && Sendable(maxFrame, len)
      modifies `head, `stall, `written
      ensures Valid() && !stall && written == FifoLen(len) == head
    {
      var _ := StallTask(true, false);
      PacketFits(maxFrame, len);
      var ok := Send(len, half);
    }
  }

  datatype Event = ResetNow | Mtu(mtu: int) | Packet(len: nat, half: bool) | Task(empty: bool, down: bool)

  /** The workaround without positions: the frame size, whether packets are held back, and the bytes given to the hardware since its
      pointers were last at the start. */
  datatype Track = Track(maxFrame: nat, stall: bool, written: nat)

  /** A packet may go: in full duplex always, in half duplex if nothing is held back and it passes the end of the FIFO by less than the
      pad. */
  predicate Accepts(t: Track, len: nat, half: bool) {
    var size := FifoSize(t.maxFrame);
    !half || (!t.stall && Wrap(t.written, size) + FifoLen(len) < size + PAD_LEN)
  }

  function FrameOf(mtu: int): int {
    mtu + ENET_HEADER_SIZE + FCS_SIZE
  }

  /** What an event does; a packet larger than the frame size allows is not offered by the stack. */
  function After(t: Track, e: Event): Track {
    match e
    case ResetNow => t.(stall := false, written := 0)
    case Mtu(mtu) => if MINIMUM_FRAME <= FrameOf(mtu) <= MAX_JUMBO_FRAME then Track(FrameOf(mtu), false, 0) else t
    case Packet(len, half) =>
      if !Sendable(t.maxFrame, len) then t
      else if Accepts(t, len, half) then t.(written := t.written + FifoLen(len))
      else t.(stall := true)
    case Task(empty, down) => if t.stall && empty then t.(stall := false, written := 0) else t
  }

  function Outcome(maxFrame: nat, es: seq<Event>): Track {
    if es == [] then Track(maxFrame, false, 0) else After(Outcome(maxFrame, es[..|es| - 1]), es[|es| - 1])
  }

  /** Over every run the driver holds back and lets go exactly the packets of the description without positions, and its head is inside
      the FIFO, where the hardware writes next. */
  method Run(maxFrame: nat, es: seq<Event>) returns (f: Fifo)
    requires FrameOk(maxFrame)
    ensures f.Valid() && Track(f.maxFrame, f.stall, f.written) == Outcome(maxFrame, es)
    ensures f.size == FifoSize(f.maxFrame) && f.head == Wrap(Outcome(maxFrame, es).written, f.size) < f.size
  {
    f := new Fifo(maxFrame);
    for i := 0 to |es|
      invariant f.Valid() && fresh(f) && Track(f.maxFrame, f.stall, f.written) == Outcome(maxFrame, es[..i])
    {
      assert es[..i + 1][..i] == es[..i];
      match es[i]
      case ResetNow => f.Reset();
      case Mtu(mtu) => var _ := f.ChangeMtu(mtu);
      case Packet(len, half) =>
        if Sendable(f.maxFrame, len) {
          var _ := f.Send(len, half);
        }
      case Task(empty, down) => var _ := f.StallTask(empty, down);
    }
    assert es[..|es|] == es;
  }
}
