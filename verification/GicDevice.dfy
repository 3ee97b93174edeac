/** The interrupt controller as the device struct: per-line arrays changed in place. */
module GicDevice {
  import opened Words
  import opened GicProtocol

  class Device {
    const lines: nat
    const enable: array<bool>
    const pending: array<bool>
    const active: array<bool>
    const priority: array<Byte>
    const target: array<Byte>
    var ctl: nat
    var cpuCtl: nat
    var pmr: Byte
    /** A cache of the running priority; 0 at reset, and stale after bank writes. */
    var running: nat

    ghost predicate Valid()
      reads this
    {
      && (lines == 32 || lines == 64)
      && enable.Length == LINES && pending.Length == LINES && active.Length == LINES
      && priority.Length == LINES && target.Length == LINES
      && enable != pending && enable != active && pending != active && priority != target
    }

    ghost function View(): (g: Gic)
      requires Valid()
      reads this, enable, pending, active, priority, target
      ensures Shaped(g)
    {
      Gic(lines, enable[..], pending[..], active[..], priority[..], target[..], ctl, cpuCtl, pmr)
    }

    constructor (lines: nat)
      requires lines == 32 || lines == 64
      ensures Valid() && View() == Reset(lines) && running == 0
      ensures fresh(enable) && fresh(pending) && fresh(active) && fresh(priority) && fresh(target)
    {
      this.lines := lines;
      enable := new bool[LINES](i => false);
      pending := new bool[LINES](i => false);
      active := new bool[LINES](i => false);
      priority := new Byte[LINES](i => 0x80);
      target := new Byte[LINES](i => 1);
      ctl, cpuCtl, pmr, running := 0, 0, 0, 0;
      new;
      assert enable[..] == Reset(lines).enable;
      assert pending[..] == Reset(lines).pending;
      assert active[..] == Reset(lines).active;
      assert priority[..] == Reset(lines).priority;
      assert target[..] == Reset(lines).target;
    }

    method RunningPriority() returns (best: nat)
      requires Valid()
      ensures best == Running(View())
    {
      best := IDLE;
      var i := 0;
      while i < LINES
        invariant 0 <= i <= LINES && best == FloorUpTo(View(), i)
      {
        if active[i] && priority[i] < best {
          best := priority[i];
        }
        i := i + 1;
      }
    }

    /** The decision: one pass that keeps the best line so far and its priority. */
    method Scan() returns (best: nat)
      requires Valid()
      ensures best == Pick(View())
    {
      hide FloorUpTo;
      var floor := RunningPriority();
      best := SPURIOUS;
      var bestPriority := floor;
      var i := 0;
      while i < lines
        invariant 0 <= i <= lines && best == PickUpTo(View(), i)
        invariant bestPriority == if best == SPURIOUS then Running(View()) else View().priority[best]
      {
        if enable[i] && pending[i] && !active[i] && target[i] % 2 != 0 &&
           priority[i] < pmr && priority[i] < bestPriority {
          bestPriority := priority[i];
          best := i;
        }
        i := i + 1;
      }
    }

    method ReadIar() returns (id: nat)
      requires Valid()
      modifies active, pending, this`running
      ensures Valid() && id == Pick(old(View())) && View() == Step(old(View()), Event.ReadIar)
      ensures running == Cached(old(View()), old(running), Event.ReadIar)
    {
      hide PickUpTo, FloorUpTo;
      id := Scan();
      if id == SPURIOUS {
        return;
      }
      assert Eligible(View(), id);
      active[id] := true;
      pending[id] := false;
      running := RunningPriority();
    }

    method CpuWrite(offset: nat, v: u32)
      requires Valid()
      modifies this`cpuCtl, this`pmr, this`running, active
      ensures Valid() && View() == Step(old(View()), Event.CpuWrite(offset, v))
      ensures running == Cached(old(View()), old(running), Event.CpuWrite(offset, v))
    {
      hide FloorUpTo;
      var reg := offset / 4 * 4;
      if reg == 0 {
        cpuCtl := v % 2;
      } else if reg == 4 {
        pmr := v % 0x100;
      } else if reg == 0x10 {
        var id := v % 0x400;
        if id < LINES {
          active[id] := false;
        }
        running := RunningPriority();
      }
    }

    method DistWrite(offset: nat, v: u32)
      requires Valid()
      modifies this`ctl, enable, pending, active, priority, target
      ensures Valid() && View() == Step(old(View()), Event.DistWrite(offset, v))
      ensures running == Cached(old(View()), old(running), Event.DistWrite(offset, v))
    {
      hide Poked, Reprioritised;
      if 0x80 <= offset < 0xA0 {
      } else if 0x100 <= offset < 0x180 {
        Poke(enable, BankBase(offset, 0x100), v, true);
      } else if 0x180 <= offset < 0x200 {
        Poke(enable, BankBase(offset, 0x180), v, false);
      } else if 0x200 <= offset < 0x280 {
        Poke(pending, BankBase(offset, 0x200), v, true);
      } else if 0x280 <= offset < 0x300 {
        Poke(pending, BankBase(offset, 0x280), v, false);
      } else if 0x300 <= offset < 0x380 {
        Poke(active, BankBase(offset, 0x300), v, true);
      } else if 0x380 <= offset < 0x400 {
        Poke(active, BankBase(offset, 0x380), v, false);
      } else if 0x400 <= offset < 0x500 {
        WritePriorities((offset - 0x400) / 4 * 4, v);
      } else if 0x800 <= offset < 0x800 + 4 * lines {
        var line := (offset - 0x800) / 4;
        if 32 <= line < lines {
          target[line] := v % 0x100;
        }
      } else if offset / 4 * 4 == 0 {
        ctl := v % 0x40;
      }
    }

    method WritePriorities(first: nat, v: u32)
      requires priority.Length == LINES
      modifies priority
      ensures priority[..] == Reprioritised(old(priority[..]), first, v)
    {
      var b := 0;
      while b < 4
        invariant 0 <= b <= 4
        invariant forall i :: 0 <= i < LINES ==>
                    priority[i] == if first <= i < first + b then (v / Pow256(i - first) % 0x100) as Byte
                      else old(priority[i])
      {
        if first + b < LINES {
          priority[first + b] := v / Pow256(b) % 0x100;
        }
        b := b + 1;
      }
      assert priority[..] == Reprioritised(old(priority[..]), first, v);
    }

    method SetPending(id: nat, level: bool)
      requires Valid()
      modifies pending
      ensures Valid() && View() == Step(old(View()), Drive(id, level))
      ensures running == Cached(old(View()), old(running), Drive(id, level))
    {
      if id < LINES {
        pending[id] := level;
      }
    }

    method Level() returns (raised: bool)
      requires Valid()
      ensures raised == IrqLevel(View())
    {
      if ctl % 2 == 0 || cpuCtl % 2 == 0 {
        return false;
      }
      var id := Scan();
      return id != SPURIOUS;
    }

    /** The guest's service loop: acknowledge, stop at the spurious id, complete. */
    method ServiceAll() returns (ids: seq<nat>)
      requires Valid() && NoneActive(View())
      modifies active, pending, this`running, this`cpuCtl, this`pmr
      ensures Valid() && NoneActive(View()) && Pick(View()) == SPURIOUS
      ensures ids == Drain(old(View()))
    {
      hide Pick, FloorUpTo, Drain, Acknowledged, NoneActive, Best, Cached;
      ids := [];
      NextRound(View());
      var id: nat := ReadIar();
      while id != SPURIOUS
        invariant Valid()
        invariant id == SPURIOUS ==> NoneActive(View()) && Pick(View()) == SPURIOUS && ids == Drain(old(View()))
        invariant id != SPURIOUS ==>
                    && id < LINES && NoneActive(Completed(View(), id))
                    && ids + [id] + Drain(Completed(View(), id)) == Drain(old(View()))
        decreases if id == SPURIOUS then 0 else 1 + PendingUpTo(pending[..], LINES)
      {
        CpuWrite(0x10, id);
        ids := ids + [id];
        ghost var g := View();
        NextRound(g);
        id := ReadIar();
      }
    }
  }

  /** The cached running priority is refreshed by a real acknowledge and by EOIR alone: after a line is activated
      through its bank the field still reads 0, while the floor every decision recomputes is that line's priority. */
  method ActivatedBehindTheCache() returns (device: Device)
    ensures fresh(device) && device.Valid() && device.running == 0 && Running(device.View()) == 0x80
  {
    hide FloorUpTo;
    device := new Device(32);
    ghost var before := device.View();
    device.DistWrite(0x300, 1);
    assert Pow2(0) == 1;
    FirstIsFloor(device.View());
  }

  lemma FirstIsFloor(g: Gic)
    requires Shaped(g) && g.active[0] && g.priority[0] == 0x80
    requires forall i :: 0 <= i < LINES ==> g.priority[i] == 0x80
    ensures Running(g) == 0x80
  {
    hide FloorUpTo;
    assert FloorUpTo(g, LINES) <= g.priority[0];
  }

  lemma NextRound(g: Gic)
    requires Shaped(g) && NoneActive(g)
    ensures Step(g, ReadIar) == Acknowledged(g)
    ensures Pick(g) == SPURIOUS ==> Drain(g) == [] && Acknowledged(g) == g
    ensures Pick(g) != SPURIOUS ==>
              var done := Completed(Acknowledged(g), Pick(g));
              && Pick(g) < LINES && NoneActive(done) && Drain(g) == [Pick(g)] + Drain(done)
              && PendingUpTo(Acknowledged(g).pending, LINES) < PendingUpTo(g.pending, LINES)
  {
    hide PickUpTo, Drain;
    DrainUnfolds(g);
    if Pick(g) != SPURIOUS {
      OneRound(g);
      assert Eligible(g, Pick(g));
      PendingDrops(g.pending, LINES, Pick(g));
    }
  }

  /** A banked register write: lines named by the mask are forced, the rest are untouched. */
  method Poke(state: array<bool>, base: nat, mask: u32, level: bool)
    requires state.Length == LINES
    modifies state
    ensures state[..] == Poked(old(state[..]), base, mask, level)
  {
    hide MaskBit;
    var b := 0;
    while b < 32
      invariant 0 <= b <= 32
      invariant forall i :: 0 <= i < LINES ==>
                  state[i] == if Named(base, mask, i) && i < base + b then level else old(state[i])
    {
      if MaskBit(mask, b) && base + b < LINES {
        state[base + b] := level;
      }
      b := b + 1;
    }
    assert state[..] == Poked(old(state[..]), base, mask, level);
  }
}
