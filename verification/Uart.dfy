/** The serial port's data path: a transmit ring that drops its oldest byte, and a receive ring that refuses. */
module UartStream {
  import opened Words

  const TX_RING: nat := 65536
  const RX_RING: nat := 16

  /** `sink` is the stream of bytes handed to the host. */
  datatype Uart = Uart(control: nat, queue: seq<u8>, sink: seq<u8>, emitted: nat, dropped: nat,
                         rx: seq<u8>, rxDropped: nat)

  /** The reset control word has TXE and LBE set. */
  function Reset(): Uart {
    Uart(0x180, [], [], 0, 0, [], 0)
  }

  predicate Fifo(u: Uart) {
    Bit(u.control, 0x10)
  }

  predicate Receiving(u: Uart) {
    Bit(u.control, 1) && Bit(u.control, 0x200)
  }

  /** Host-side delivery of one byte. */
  function Inject(u: Uart, b: u8): (Uart, Status) {
    if !Receiving(u) then (u, STATE)
    else if |u.rx| >= RX_RING then (u, FULL)
    else (u.(rx := u.rx + [b]), OK)
  }

  /** The transmit half of a DR write: straight through without the FIFO, else queued over the oldest byte. */
  function Transmit(u: Uart, b: u8): Uart {
    if !Fifo(u) then u.(sink := u.sink + [b], emitted := u.emitted + 1)
    else if |u.queue| >= TX_RING then u.(queue := u.queue[1..] + [b], dropped := u.dropped + 1)
    else u.(queue := u.queue + [b])
  }

  predicate LoopsBack(u: Uart) {
    Bit(u.control, 0x80) && Bit(u.control, 0x200)
  }

  function WriteData(u: Uart, b: u8): Uart {
    var t := Transmit(u, b);
    if !LoopsBack(t) then t else
    var (r, s) := Inject(t, b);
    if s == OK then r else t.(rxDropped := t.rxDropped + 1)
  }

  /** The byte read, 0 when there is none. */
  function ReadData(u: Uart): (Uart, u8) {
    if u.rx == [] then (u, 0) else (u.(rx := u.rx[1..]), u.rx[0])
  }

  function Drain(u: Uart): Uart {
    u.(queue := [], sink := u.sink + u.queue, emitted := u.emitted + |u.queue|)
  }

  datatype Event = DataWrite(b: u8) | ControlWrite(v: nat) | DataRead | Pump | HostByte(b: u8)

  function Step(u: Uart, e: Event): Uart {
    match e
    case DataWrite(b) => WriteData(u, b)
    case ControlWrite(v) => u.(control := v)
    case DataRead => ReadData(u).0
    case Pump => Drain(u)
    case HostByte(b) => Inject(u, b).0
  }

  function After(es: seq<Event>): Uart {
    if es == [] then Reset() else Step(After(es[..|es| - 1]), es[|es| - 1])
  }

  /** The stream the guest wrote to DR. */
  function Written(es: seq<Event>): seq<u8> {
    if es == [] then [] else
    var e := es[|es| - 1];
    Written(es[..|es| - 1]) + if e.DataWrite? then [e.b] else []
  }

  lemma StepConserves(u: Uart, e: Event)
    requires |u.queue| <= TX_RING
    ensures
      var r := Step(u, e);
      && |r.queue| <= TX_RING
      && r.emitted + r.dropped + |r.queue| == u.emitted + u.dropped + |u.queue| + if e.DataWrite? then 1 else 0
  {
    hide Bit;
  }

  /** In every run each written byte is emitted, dropped or still queued. */
  lemma {:induction false} Conservation(es: seq<Event>)
    ensures |Written(es)| == After(es).emitted + After(es).dropped + |After(es).queue|
    ensures |After(es).queue| <= TX_RING
  {
    hide Step;
    if es != [] {
      Conservation(es[..|es| - 1]);
      StepConserves(After(es[..|es| - 1]), es[|es| - 1]);
    }
  }

  /** The bytes of `w` that `kept` keeps. */
  function Select(w: seq<u8>, kept: seq<bool>): seq<u8>
    requires |w| == |kept|
  {
    if w == [] then [] else
    var last := |w| - 1;
    Select(w[..last], kept[..last]) + if kept[last] then [w[last]] else []
  }

  function Lost(kept: seq<bool>): nat {
    if kept == [] then 0 else Lost(kept[..|kept| - 1]) + if kept[|kept| - 1] then 0 else 1
  }

  function AllKept(n: nat): (k: seq<bool>)
    ensures |k| == n
  {
    seq(n, i => true)
  }

  lemma SelectSnoc(w: seq<u8>, kept: seq<bool>, b: u8, keep: bool)
    requires |w| == |kept|
    ensures Select(w + [b], kept + [keep]) == Select(w, kept) + if keep then [b] else []
    ensures Lost(kept + [keep]) == Lost(kept) + if keep then 0 else 1
  {
    assert (w + [b])[..|w|] == w && (kept + [keep])[..|kept|] == kept;
  }

  lemma {:induction false} SelectAll(w: seq<u8>, kept: seq<bool>, more: seq<u8>)
    requires |w| == |kept|
    ensures Select(w + more, kept + AllKept(|more|)) == Select(w, kept) + more
    ensures Lost(kept + AllKept(|more|)) == Lost(kept)
    decreases |more|
  {
    if more == [] {
      assert w + more == w && kept + AllKept(0) == kept;
    } else {
      var last := |more| - 1;
      SelectAll(w, kept, more[..last]);
      SelectSnoc(w + more[..last], kept + AllKept(last), more[last], true);
      assert w + more == (w + more[..last]) + [more[last]];
      assert kept + AllKept(|more|) == (kept + AllKept(last)) + [true];
      assert more == more[..last] + [more[last]];
    }
  }

  /** A byte written past the FIFO while others still wait in it. */
  predicate Overtakes(u: Uart, e: Event) {
    e.DataWrite? && !Fifo(u) && u.queue != []
  }

  /** Which bytes leave the queue in a step, and whether they are emitted or overwritten by overflow. */
  function KeptBy(u: Uart, e: Event): seq<bool> {
    match e
    case DataWrite(_) => if !Fifo(u) then [true] else if |u.queue| >= TX_RING then [false] else []
    case Pump => AllKept(|u.queue|)
    case _ => []
  }

  function Kept(es: seq<Event>): seq<bool> {
    if es == [] then [] else
    Kept(es[..|es| - 1]) + KeptBy(After(es[..|es| - 1]), es[|es| - 1])
  }

  /** The line's history: what left the queue, in written order, is the sink's stream and the drops; the rest is
      queued. */
  ghost predicate InOrder(u: Uart, written: seq<u8>, kept: seq<bool>) {
    && |kept| <= |written| && Lost(kept) == u.dropped
    && Select(written[..|kept|], kept) == u.sink && u.queue == written[|kept|..]
  }

  /** A step that keeps the order: it overtakes nothing, or only copies of its own byte. */
  predicate Harmless(u: Uart, e: Event) {
    Overtakes(u, e) ==> forall x :: x in u.queue ==> x == e.b
  }

  predicate HarmlessRun(es: seq<Event>) {
    forall k :: 0 <= k < |es| ==> Harmless(After(es[..k]), es[k])
  }

  /** Some account of what was kept and dropped puts the sink's stream and then the queue in written order. */
  ghost predicate Ordered(es: seq<Event>) {
    exists kept :: InOrder(After(es), Written(es), kept)
  }

  /** Over a harmless run the sink's stream and then the queue are the written stream less the overflow drops. */
  lemma {:induction false} StreamInOrder(es: seq<Event>)
    requires HarmlessRun(es)
    ensures InOrder(After(es), Written(es), Kept(es))
  {
    hide Harmless, Step, InOrder;
    if es == [] {
      EmptyInOrder();
    } else {
      var n := |es| - 1;
      HarmlessPrefix(es, n);
      StreamInOrder(es[..n]);
      StepInOrderExactly(After(es[..n]), es[n], Written(es[..n]), Kept(es[..n]));
    }
  }

  lemma HarmlessPrefix(es: seq<Event>, n: nat)
    requires HarmlessRun(es) && n <= |es|
    ensures HarmlessRun(es[..n])
  {
    hide Harmless, After;
    forall k | 0 <= k < n ensures Harmless(After(es[..n][..k]), es[..n][k]) {
      assert es[..n][..k] == es[..k];
    }
  }

  /** The console is in written order throughout a run if and only if every step of it is harmless. */
  lemma StreamInOrderExactly(es: seq<Event>)
    ensures (forall k :: 0 <= k <= |es| ==> Ordered(es[..k])) <==> HarmlessRun(es)
  {
    hide Harmless, Step, InOrder, After, Written, Kept;
    if HarmlessRun(es) {
      forall k | 0 <= k <= |es| ensures Ordered(es[..k]) {
        HarmlessPrefix(es, k);
        StreamInOrder(es[..k]);
      }
    } else {
      var k := FirstHarm(es);
      HarmlessUpTo(es, k);
      StreamInOrder(es[..k]);
      StepInOrderExactly(After(es[..k]), es[k], Written(es[..k]), Kept(es[..k]));
      assert es[..k + 1] == es[..k] + [es[k]];
      OneMore(es[..k], es[k]);
      assert !Ordered(es[..k + 1]);
    }
  }

  /** The first step of a run that breaks the order. */
  lemma FirstHarm(es: seq<Event>) returns (k: nat)
    requires !HarmlessRun(es)
    ensures k < |es| && !Harmless(After(es[..k]), es[k])
    ensures forall j :: 0 <= j < k ==> Harmless(After(es[..j]), es[j])
  {
    hide Harmless, After;
    k := 0;
    while Harmless(After(es[..k]), es[k])
      invariant k < |es| && forall j :: 0 <= j < k ==> Harmless(After(es[..j]), es[j])
      decreases |es| - k
    {
      k := k + 1;
    }
  }

  lemma HarmlessUpTo(es: seq<Event>, n: nat)
    requires n <= |es| && forall j :: 0 <= j < n ==> Harmless(After(es[..j]), es[j])
    ensures HarmlessRun(es[..n])
  {
    hide Harmless, After;
    forall k | 0 <= k < n ensures Harmless(After(es[..n][..k]), es[..n][k]) {
      assert es[..n][..k] == es[..k];
    }
  }

  lemma EmptyInOrder()
    ensures InOrder(Reset(), [], [])
  {
  }

  /** One step from an ordered state leaves an ordered one if and only if it is harmless; otherwise no account of what
      was kept and dropped restores the order. */
  lemma StepInOrderExactly(u: Uart, e: Event, w: seq<u8>, kept: seq<bool>)
    requires InOrder(u, w, kept)
    ensures
      var w' := w + if e.DataWrite? then [e.b] else [];
      && (Harmless(u, e) <==> InOrder(Step(u, e), w', kept + KeptBy(u, e)))
      && (Harmless(u, e) <==> exists any :: InOrder(Step(u, e), w', any))
  {
    hide Fifo, LoopsBack, Receiving, InOrder;
    match e {
      case DataWrite(b) =>
        LoopbackApart(u, b);
        if Overtakes(u, e) {
          OvertakenInOrder(u, b, w, kept);
        } else if !Fifo(u) {
          DirectInOrder(u, b, w, kept);
        } else {
          QueuedInOrder(u, b, w, kept);
        }
      case Pump => DrainInOrder(u, w, kept);
      case _ =>
        assert kept + [] == kept && w + [] == w;
        SameLine(u, Step(u, e), w, kept);
    }
  }

  /** The order is a matter of the queue, the sink and the drops alone. */
  lemma SameLine(u: Uart, v: Uart, w: seq<u8>, kept: seq<bool>)
    requires u.queue == v.queue && u.sink == v.sink && u.dropped == v.dropped
    ensures InOrder(u, w, kept) <==> InOrder(v, w, kept)
  {
  }

  lemma LoopbackApart(u: Uart, b: u8)
    ensures forall w, kept :: InOrder(WriteData(u, b), w, kept) <==> InOrder(Transmit(u, b), w, kept)
  {
    hide Fifo, LoopsBack, Receiving, InOrder;
    forall w, kept ensures InOrder(WriteData(u, b), w, kept) <==> InOrder(Transmit(u, b), w, kept) {
      SameLine(WriteData(u, b), Transmit(u, b), w, kept);
    }
  }

  /** A queue that is its own tail followed by `b` holds nothing but `b`. */
  lemma Rotated(q: seq<u8>, b: u8)
    requires q != []
    ensures q == q[1..] + [b] <==> forall x :: x in q ==> x == b
  {
    if q == q[1..] + [b] {
      forall i | 0 <= i < |q| ensures q[i] == b {
        RotatedAt(q, b, i);
      }
    }
    if forall x :: x in q ==> x == b {
      forall i | 0 <= i < |q| ensures q[i] == (q[1..] + [b])[i] {
        assert q[i] in q;
        assert i + 1 < |q| ==> q[i + 1] in q;
      }
      assert q == q[1..] + [b];
    }
  }

  lemma {:induction false} RotatedAt(q: seq<u8>, b: u8, i: nat)
    requires i < |q| && q == q[1..] + [b]
    ensures q[i] == b
    decreases |q| - i
  {
    if i + 1 < |q| {
      RotatedAt(q, b, i + 1);
      assert q[i] == (q[1..] + [b])[i];
    } else {
      assert q[i] == (q[1..] + [b])[i];
    }
  }

  lemma Shifted(w: seq<u8>, k: nat, b: u8)
    requires k < |w|
    ensures (w + [b])[..k + 1] == w[..k] + [w[k]] && (w + [b])[k + 1..] == w[k..][1..] + [b] && w[k] == w[k..][0]
  {
  }

  /** A byte that passes the queue leaves the order exactly when the queue holds nothing but copies of it. */
  lemma OvertakenInOrder(u: Uart, b: u8, w: seq<u8>, kept: seq<bool>)
    requires InOrder(u, w, kept) && !Fifo(u) && u.queue != []
    ensures InOrder(Transmit(u, b), w + [b], kept + [true]) <==> forall x :: x in u.queue ==> x == b
    ensures (exists any :: InOrder(Transmit(u, b), w + [b], any)) ==> forall x :: x in u.queue ==> x == b
  {
    hide InOrder, Fifo, Transmit;
    forall any | InOrder(Transmit(u, b), w + [b], any) ensures forall x :: x in u.queue ==> x == b {
      OvertakenQueue(u, b, w, kept, any);
    }
    if forall x :: x in u.queue ==> x == b {
      OvertakenCopies(u, b, w, kept);
    }
  }

  lemma OvertakenQueue(u: Uart, b: u8, w: seq<u8>, kept: seq<bool>, any: seq<bool>)
    requires InOrder(u, w, kept) && !Fifo(u) && u.queue != [] && InOrder(Transmit(u, b), w + [b], any)
    ensures forall x :: x in u.queue ==> x == b
  {
    hide Fifo, Lost, Select;
    Rotated(u.queue, b);
    Shifted(w, |kept|, b);
    SameLength(u.queue, w + [b], |any|, |kept| + 1);
  }

  lemma OvertakenCopies(u: Uart, b: u8, w: seq<u8>, kept: seq<bool>)
    requires InOrder(u, w, kept) && !Fifo(u) && u.queue != [] && forall x :: x in u.queue ==> x == b
    ensures InOrder(Transmit(u, b), w + [b], kept + [true])
  {
    hide Fifo, Lost, Select;
    Rotated(u.queue, b);
    Shifted(w, |kept|, b);
    SelectSnoc(w[..|kept|], kept, b, true);
    assert u.queue[0] in u.queue;
  }

  lemma SameLength(q: seq<u8>, w: seq<u8>, i: nat, j: nat)
    requires i <= |w| && j <= |w| && q == w[i..] && |q| == |w| - j
    ensures q == w[j..]
  {
  }

  lemma DirectInOrder(u: Uart, b: u8, w: seq<u8>, kept: seq<bool>)
    requires InOrder(u, w, kept) && !Fifo(u) && u.queue == []
    ensures InOrder(Transmit(u, b), w + [b], kept + [true])
  {
    hide Fifo, Lost, Select;
    assert w[..|kept|] == w;
    SelectSnoc(w, kept, b, true);
    assert (w + [b])[..|kept + [true]|] == w + [b];
  }

  lemma QueuedInOrder(u: Uart, b: u8, w: seq<u8>, kept: seq<bool>)
    requires InOrder(u, w, kept) && Fifo(u)
    ensures InOrder(Transmit(u, b), w + [b], kept + if |u.queue| >= TX_RING then [false] else [])
  {
    hide Fifo, Lost, Select;
    var k := |kept|;
    assert (w + [b])[..k] == w[..k];
    if |u.queue| >= TX_RING {
      SelectSnoc(w[..k], kept, w[k], false);
      assert (w + [b])[..k + 1] == w[..k] + [w[k]];
      assert (w + [b])[k + 1..] == w[k..][1..] + [b];
    } else {
      assert (w + [b])[k..] == w[k..] + [b];
      assert kept + [] == kept;
    }
  }

  lemma DrainInOrder(u: Uart, w: seq<u8>, kept: seq<bool>)
    requires InOrder(u, w, kept)
    ensures InOrder(Drain(u), w + [], kept + AllKept(|u.queue|))
  {
    hide Lost, Select;
    var k := |kept|;
    SelectAll(w[..k], kept, u.queue);
    assert w + [] == w && w[..k] + u.queue == w && w[..|kept + AllKept(|u.queue|)|] == w;
  }

  /** The failing family: an overtaking byte comes out before everything that was waiting. */
  lemma OvertakenOrder(u: Uart, b: u8)
    requires Overtakes(u, DataWrite(b))
    ensures Drain(Transmit(u, b)).sink == u.sink + [b] + u.queue
  {
  }

  lemma OneMore(es: seq<Event>, e: Event)
    ensures After(es + [e]) == Step(After(es), e)
    ensures Written(es + [e]) == Written(es) + if e.DataWrite? then [e.b] else []
  {
    assert (es + [e])[..|es|] == es;
  }

  /** The states of the run below, one event at a time. */
  lemma ReorderSteps()
    ensures
      var on := Reset().(control := 0x10);
      var off := Reset().(queue := [1]);
      && Step(Reset(), ControlWrite(0x10)) == on
      && Step(on, DataWrite(1)) == on.(queue := [1])
      && Step(on.(queue := [1]), ControlWrite(0)) == off.(control := 0)
      && Step(off.(control := 0), DataWrite(2)) == off.(control := 0, sink := [2], emitted := 1)
  {
    assert [] + [1 as u8] == [1] && [] + [2 as u8] == [2];
  }

  /** Turning the FIFO off with bytes queued reorders the console: written 1, 2; heard 2, 1. */
  lemma FifoOffReorders()
    ensures
      var es := [ControlWrite(0x10), DataWrite(1), ControlWrite(0), DataWrite(2), Pump];
      Written(es) == [1, 2] && After(es).sink == [2, 1]
  {
    hide After, Written, Step, Reset;
    var a, b, c, d := [ControlWrite(0x10)], DataWrite(1), ControlWrite(0), DataWrite(2);
    Fresh();
    ReorderSteps();
    assert [] + a == a;
    OneMore([], ControlWrite(0x10));
    OneMore(a, b);
    OneMore(a + [b], c);
    OneMore(a + [b] + [c], d);
    OneMore(a + [b] + [c] + [d], Pump);
    PumpLast(After(a + [b] + [c] + [d]));
    assert a + [b] + [c] + [d] + [Pump] == [ControlWrite(0x10), b, c, d, Pump];
  }

  lemma PumpLast(u: Uart)
    ensures Step(u, Pump).sink == u.sink + u.queue
  {
  }

  lemma Fresh()
    ensures After([]) == Reset() && Written([]) == []
  {
  }

  /** The byte a step lets into the receiver, from the host or looped back. */
  function AcceptedBy(u: Uart, e: Event): seq<u8> {
    match e
    case DataWrite(b) => if LoopsBack(u) && Inject(Transmit(u, b), b).1 == OK then [b] else []
    case HostByte(b) => if Inject(u, b).1 == OK then [b] else []
    case _ => []
  }

  /** The byte a step takes out of it. */
  function ReadBy(u: Uart, e: Event): seq<u8> {
    if e.DataRead? && u.rx != [] then [ReadData(u).1] else []
  }

  function Accepted(es: seq<Event>): seq<u8> {
    if es == [] then [] else Accepted(es[..|es| - 1]) + AcceptedBy(After(es[..|es| - 1]), es[|es| - 1])
  }

  function ReadBack(es: seq<Event>): seq<u8> {
    if es == [] then [] else ReadBack(es[..|es| - 1]) + ReadBy(After(es[..|es| - 1]), es[|es| - 1])
  }

  lemma ReceiveStep(u: Uart, e: Event)
    requires |u.rx| <= RX_RING
    ensures ReadBy(u, e) + Step(u, e).rx == u.rx + AcceptedBy(u, e) && |Step(u, e).rx| <= RX_RING
  {
    hide Bit;
  }

  lemma Threaded(read: seq<u8>, rx: seq<u8>, out: seq<u8>, rx': seq<u8>, take: seq<u8>)
    requires out + rx' == rx + take
    ensures (read + rx) + take == (read + out) + rx'
  {
    assert (read + rx) + take == read + (rx + take);
    assert (read + out) + rx' == read + (out + rx');
  }

  /** Accepted bytes are read back in order, each once: what was read and then what is waiting is what was accepted. */
  lemma {:induction false} ReceiveInOrder(es: seq<Event>)
    ensures Accepted(es) == ReadBack(es) + After(es).rx && |After(es).rx| <= RX_RING
  {
    hide Step, AcceptedBy, ReadBy;
    if es != [] {
      var u, e := After(es[..|es| - 1]), es[|es| - 1];
      ReceiveInOrder(es[..|es| - 1]);
      ReceiveStep(u, e);
      Threaded(ReadBack(es[..|es| - 1]), u.rx, ReadBy(u, e), Step(u, e).rx, AcceptedBy(u, e));
    }
  }
}
