/** The serial port as the device struct: two index rings over fixed buffers. */
module UartDevice {
  import opened Words
  import opened UartStream

  /** Index of the `i`-th queued byte of a ring of `n`. */
  function Slot(head: nat, i: nat, n: nat): (k: nat)
    requires n > 0
    ensures k < n
  {
    (head + i) % n
  }

  /** The queued bytes of a ring, oldest first. */
  function Ring(buffer: seq<u8>, head: nat, count: nat): (q: seq<u8>)
    requires |buffer| > 0
    ensures |q| == count
  {
    seq(count, i requires 0 <= i < count => buffer[Slot(head, i, |buffer|)])
  }

  lemma AtDistinct(head: nat, i: nat, j: nat, n: nat)
    requires n > 0 && i < n && j < n && Slot(head, i, n) == Slot(head, j, n)
    ensures i == j
  {
    var a, b := (head + i) / n, (head + j) / n;
    assert i - j == (a - b) * n;
    MulAway(a - b, n);
  }

  lemma RingPush(buffer: seq<u8>, head: nat, count: nat, b: u8)
    requires count < |buffer|
    ensures Ring(buffer[Slot(head, count, |buffer|) := b], head, count + 1) == Ring(buffer, head, count) + [b]
  {
    hide Slot;
    var n := |buffer|;
    var after := buffer[Slot(head, count, n) := b];
    forall i | 0 <= i < count + 1 ensures Ring(after, head, count + 1)[i] == (Ring(buffer, head, count) + [b])[i] {
      if i < count && Slot(head, i, n) == Slot(head, count, n) {
        AtDistinct(head, i, count, n);
      }
    }
  }

  lemma AtNext(head: nat, i: nat, n: nat)
    requires n > 0
    ensures Slot(Slot(head, 1, n), i, n) == Slot(head, i + 1, n)
  {
    var x := head + 1;
    ModUnique(x % n + i, n, (x + i) / n - x / n, (x + i) % n);
    assert x == x / n * n + x % n;
    assert x + i == (x + i) / n * n + (x + i) % n;
    assert ((x + i) / n - x / n) * n == (x + i) / n * n - x / n * n;
  }

  lemma AtStart(head: nat, n: nat)
    requires head < n
    ensures Slot(head, 0, n) == head
  {
  }

  lemma RingPop(buffer: seq<u8>, head: nat, count: nat)
    requires 0 < count <= |buffer| && head < |buffer|
    ensures Ring(buffer, Slot(head, 1, |buffer|), count - 1) == Ring(buffer, head, count)[1..]
    ensures Ring(buffer, head, count)[0] == buffer[head]
  {
    hide Slot;
    var n := |buffer|;
    AtStart(head, n);
    forall i | 0 <= i < count - 1
      ensures Ring(buffer, Slot(head, 1, n), count - 1)[i] == Ring(buffer, head, count)[1..][i]
    {
      AtNext(head, i, n);
    }
  }

  class Serial {
    const tx: array<u8>
    var txHead: nat
    var txCount: nat
    const rx: array<u8>
    var rxHead: nat
    var rxTail: nat
    var rxCount: nat
    var control: nat
    var emitted: nat
    var dropped: nat
    var rxDropped: nat
    /** What the host's sink callback has been given. */
    var sink: seq<u8>

    ghost predicate Valid()
      reads this
    {
      && tx != rx && tx.Length == TX_RING && rx.Length == RX_RING
      && txHead < TX_RING && txCount <= TX_RING
      && rxHead < RX_RING && rxCount <= RX_RING && rxTail == Slot(rxHead, rxCount, RX_RING)
    }

    ghost function View(): Uart
      requires Valid()
      reads this, tx, rx
    {
      Uart(control, Ring(tx[..], txHead, txCount), sink, emitted, dropped, Ring(rx[..], rxHead, rxCount), rxDropped)
    }

    constructor ()
      ensures Valid() && View() == Reset()
    {
      tx := new u8[TX_RING](i => 0);
      rx := new u8[RX_RING](i => 0);
      txHead, txCount, rxHead, rxTail, rxCount := 0, 0, 0, 0, 0;
      control, emitted, dropped, rxDropped, sink := 0x180, 0, 0, 0, [];
    }

    /** Queues a byte, over the oldest one when the ring is full. */
    method Push(b: u8)
      requires Valid() && Fifo(View())
      modifies this`txHead, this`txCount, this`dropped, tx
      ensures Valid() && View() == Transmit(old(View()), b)
    {
      hide Slot, Ring, Fifo, Bit;
      if txCount >= TX_RING {
        RingPop(tx[..], txHead, txCount);
        txHead := Slot(txHead, 1, TX_RING);
        txCount := txCount - 1;
        dropped := dropped + 1;
      }
      RingPush(tx[..], txHead, txCount, b);
      tx[Slot(txHead, txCount, TX_RING)] := b;
      txCount := txCount + 1;
    }

    method Inject(b: u8) returns (s: Status)
      requires Valid()
      modifies this`rxTail, this`rxCount, rx
      ensures Valid() && (View(), s) == UartStream.Inject(old(View()), b)
    {
      hide Ring, Bit;
      if !Bit(control, 1) || !Bit(control, 0x200) {
        return STATE;
      }
      if rxCount >= RX_RING {
        return FULL;
      }
      RingPush(rx[..], rxHead, rxCount, b);
      rx[rxTail] := b;
      rxTail := (rxTail + 1) % RX_RING;
      rxCount := rxCount + 1;
      return OK;
    }

    method WriteDr(b: u8)
      requires Valid()
      modifies this, tx, rx
      ensures Valid() && View() == WriteData(old(View()), b)
    {
      hide Ring, Slot, Bit;
      if !Bit(control, 0x10) {
        sink := sink + [b];
        emitted := emitted + 1;
      } else {
        Push(b);
      }
      if Bit(control, 0x80) && Bit(control, 0x200) {
        var s := Inject(b);
        if s != OK {
          rxDropped := rxDropped + 1;
        }
      }
    }

    method ReadDr() returns (b: u8)
      requires Valid()
      modifies this`rxHead, this`rxCount
      ensures Valid() && (View(), b) == ReadData(old(View()))
    {
      hide Ring;
      if rxCount == 0 {
        EmptyRing(rx[..], rxHead);
        return 0;
      }
      RingPop(rx[..], rxHead, rxCount);
      AtNext(rxHead, rxCount - 1, RX_RING);
      b := rx[rxHead];
      rxHead := (rxHead + 1) % RX_RING;
      rxCount := rxCount - 1;
    }

    /** Hands every queued byte to the sink, oldest first. */
    method PumpAll() returns (count: nat)
      requires Valid()
      modifies this`txHead, this`txCount, this`emitted, this`sink
      ensures Valid() && View() == Drain(old(View())) && count == |old(View()).queue|
    {
      hide Ring;
      count := 0;
      while txCount != 0
        invariant Valid() && Drain(View()) == Drain(old(View()))
        invariant count + txCount == |old(View()).queue|
        decreases txCount
      {
        RingPop(tx[..], txHead, txCount);
        ghost var queue := View().queue;
        var b := tx[txHead];
        txHead := (txHead + 1) % TX_RING;
        txCount := txCount - 1;
        sink := sink + [b];
        emitted := emitted + 1;
        count := count + 1;
        HeadFirst(queue, sink[..|sink| - 1]);
      }
      EmptyRing(tx[..], txHead);
    }

    method WriteCr(v: nat)
      requires Valid()
      modifies this`control
      ensures Valid() && View() == Step(old(View()), ControlWrite(v))
    {
      control := v;
    }
  }

  lemma EmptyRing(buffer: seq<u8>, head: nat)
    requires |buffer| > 0
    ensures Ring(buffer, head, 0) == []
  {
  }

  lemma HeadFirst(queue: seq<u8>, sink: seq<u8>)
    requires queue != []
    ensures (sink + [queue[0]]) + queue[1..] == sink + queue
  {
  }
}
