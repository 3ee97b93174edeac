/** The serial port as guest and host see it: which control bits do what, how much waits, and what is lost. */
module UartMeaning {
  import opened Words
  import opened UartStream

  predicate On(u: Uart, bit: nat)
    requires bit > 0
  {
    u.control / bit % 2 == 1
  }

  /** A written byte goes out at once with the FIFO enable, bit 4, clear; otherwise it waits behind the bytes before it,
      of which at most 65536 are kept and the oldest is the one lost. */
  lemma WriteMeans(u: Uart, b: u8)
    ensures
      var r := Step(u, DataWrite(b));
      if !On(u, 0x10) then
        r.sink == u.sink + [b] && r.emitted == u.emitted + 1 && r.queue == u.queue && r.dropped == u.dropped
      else
        && r.sink == u.sink && r.emitted == u.emitted
        && if |u.queue| < 65536 then r.queue == u.queue + [b] && r.dropped == u.dropped
           else r.queue == u.queue[1..] + [b] && r.dropped == u.dropped + 1
  {
  }

  /** With the loop-back, bit 7, and the receiver, bit 9, both on, the byte is also received: if the port, bit 0, is on
      and fewer than sixteen bytes wait; else it is counted as lost. Without either nothing is received or lost. */
  lemma LoopbackMeans(u: Uart, b: u8)
    ensures
      var r := Step(u, DataWrite(b));
      if !On(u, 0x80) || !On(u, 0x200) then r.rx == u.rx && r.rxDropped == u.rxDropped
      else if On(u, 1) && |u.rx| < 16 then r.rx == u.rx + [b] && r.rxDropped == u.rxDropped
      else r.rx == u.rx && r.rxDropped == u.rxDropped + 1
  {
  }

  /** A byte from the host: refused while the port or its receiver is off, and while sixteen wait. */
  lemma HostMeans(u: Uart, b: u8)
    ensures
      var (r, s) := Inject(u, b);
      && s == (if !On(u, 1) || !On(u, 0x200) then STATE else if |u.rx| >= 16 then FULL else OK)
      && r == if s == OK then u.(rx := u.rx + [b]) else u
  {
  }

  function Writes(bs: seq<u8>): (es: seq<Event>)
    ensures |es| == |bs|
  {
    seq(|bs|, i requires 0 <= i < |bs| => DataWrite(bs[i]))
  }

  /** The early console: whatever is written from reset on is heard at once and in order, and nothing is received or
      lost, although the loop-back is on. */
  lemma {:induction false} EarlyConsole(bs: seq<u8>)
    ensures After(Writes(bs)) == Reset().(sink := bs, emitted := |bs|)
  {
    hide Step, Reset;
    if bs != [] {
      var n := |bs| - 1;
      AtReset();
      EarlyConsole(bs[..n]);
      assert Writes(bs) == Writes(bs[..n]) + [DataWrite(bs[n])];
      OneMore(Writes(bs[..n]), DataWrite(bs[n]));
      Straight(Reset().(sink := bs[..n], emitted := n), bs[n]);
      assert bs[..n] + [bs[n]] == bs;
    } else {
      assert Writes(bs) == [];
      AtReset();
    }
  }

  lemma AtReset()
    ensures Reset().sink == [] && Reset().emitted == 0 && Reset().control == 0x180
  {
  }

  lemma Straight(u: Uart, b: u8)
    requires u.control == 0x180
    ensures Step(u, DataWrite(b)) == u.(sink := u.sink + [b], emitted := u.emitted + 1)
  {
  }

  /** A port set up to queue, then pumped: up to 65536 bytes written in between are heard, in order, and none is
      lost. */
  lemma QueuedConsole(bs: seq<u8>, control: nat)
    requires |bs| <= 65536 && control / 0x10 % 2 == 1
    ensures
      var u := After([ControlWrite(control)] + Writes(bs) + [Pump]);
      u.sink == bs && u.queue == [] && u.dropped == 0 && u.emitted == |bs|
  {
    hide Step;
    var es := [ControlWrite(control)] + Writes(bs);
    Queues(bs, control);
    OneMore(es, Pump);
    PumpMeans(After(es));
  }

  lemma PumpMeans(u: Uart)
    ensures
      var r := Step(u, Pump);
      && r.sink == u.sink + u.queue && r.queue == [] && r.emitted == u.emitted + |u.queue|
      && r.dropped == u.dropped && r.rx == u.rx && r.control == u.control
  {
  }

  lemma {:induction false} Queues(bs: seq<u8>, control: nat)
    requires |bs| <= 65536 && control / 0x10 % 2 == 1
    ensures
      var u := After([ControlWrite(control)] + Writes(bs));
      u.queue == bs && u.sink == [] && u.dropped == 0 && u.emitted == 0 && u.control == control
  {
    hide Step;
    var head := [ControlWrite(control)];
    if bs == [] {
      OneMore([], ControlWrite(control));
      assert [] + head == head && head + Writes(bs) == head;
      SetUp(control);
    } else {
      var n := |bs| - 1;
      Queues(bs[..n], control);
      var es := head + Writes(bs[..n]);
      OneMore(es, DataWrite(bs[n]));
      assert Writes(bs) == Writes(bs[..n]) + [DataWrite(bs[n])];
      assert es + [DataWrite(bs[n])] == head + Writes(bs);
      WriteMeans(After(es), bs[n]);
      KeepsControl(After(es), bs[n]);
      assert bs[..n] + [bs[n]] == bs;
    }
  }

  lemma KeepsControl(u: Uart, b: u8)
    ensures Step(u, DataWrite(b)).control == u.control
  {
  }

  lemma SetUp(control: nat)
    ensures Step(After([]), ControlWrite(control)) == Uart(control, [], [], 0, 0, [], 0)
  {
  }
}
