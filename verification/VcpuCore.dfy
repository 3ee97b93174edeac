/** The virtual CPU object: the step and the bounded run loop over the live registers. */
module VcpuCore {
  import opened Words
  import opened ExceptionState
  import opened SystemRegisters
  import opened ExceptionCore
  import opened VcpuRun

  class VirtualCpu {
    const core: Core
    var left: nat
    var quantum: nat
    var event: bool

    ghost function View(): Vcpu
      reads this, core
    {
      Vcpu(core.View(), left, quantum, event)
    }

    /** A boot at EL0 or EL1 begins in a guest state with a full quantum. */
    constructor (el: Level, entry: u64, stack: u64, quantum: nat)
      requires el != 2
      ensures fresh(core) && left == quantum && this.quantum == quantum && !event
      ensures core.pstate == Boot(el) && core.pc == entry && core.sp == stack && core.slots == RESET
      ensures core.pstate == Psr(el != 0, false, el, false, false, true, true, true, true, 0, false, 0, 0, 0)
      ensures core.nzcv == 0
      ensures core.vbar == [0, 0, 0, 0] && core.elr == [0, 0, 0, 0] && core.counter == 0
      ensures el <= 1 ==> Guest(View())
    {
      core := new Core(el, entry, stack);
      left, this.quantum, event := quantum, quantum, false;
    }

    /** The entry point in front of it: no EL2, and no empty quantum. */
    static method Create(el: Level, entry: u64, stack: u64, quantum: nat) returns (s: Status, cpu: VirtualCpu?)
      ensures s == (if el == 2 || quantum == 0 then INVALID_ARG else OK) && (s == OK <==> cpu != null)
      ensures cpu != null ==>
                && fresh(cpu) && fresh(cpu.core) && cpu.left == quantum && cpu.quantum == quantum && !cpu.event
                && cpu.core.pstate == Boot(el) && cpu.core.pc == entry && cpu.core.sp == stack
                && cpu.core.slots == RESET && (el <= 1 ==> Guest(cpu.View()))
    {
      if el == 2 || quantum == 0 {
        return INVALID_ARG, null;
      }
      s := OK;
      cpu := new VirtualCpu(el, entry, stack, quantum);
    }

    method Rearm()
      modifies this`left
      ensures View() == old(View()).(left := quantum)
    {
      left := quantum;
    }

    method TakePending(irq: bool, fiq: bool) returns (taken: bool)
      modifies core
      ensures
        var s := old(core.View());
        var kind := Pending(s.pstate, irq, fiq);
        && taken == kind.Some?
        && core.View() == if taken then Taken(s, kind.value, Route(s.pstate.el), 0, None) else s
    {
      hide Taken;
      var kind := Pending(core.pstate, irq, fiq);
      if kind.None? {
        return false;
      }
      core.Take(kind.value, Route(core.pstate.el), 0, None);
      return true;
    }

    method Advance()
      modifies core
      ensures core.View() == Advanced(old(core.View()))
    {
      core.pc := Wrap(core.pc + 4);
    }

    method MsrImmediate(op2: nat, imm4: nat, word: nat)
      modifies core
      ensures core.View() == VcpuRun.MsrImmediate(old(core.View()), op2, imm4, word)
    {
      hide Bool, Taken, Put;
      if op2 == 5 {
        if core.pstate.el == 0 {
          return;
        }
        core.SwitchSp(core.pstate.(h := Bool(imm4)));
      } else if op2 == 6 || op2 == 7 {
        if core.pstate.el == 0 {
          return;
        }
        core.pstate := Remasked(core.pstate, op2 == 6, imm4);
      } else if op2 == 0 || op2 > 7 {
        core.Undefine(word);
        return;
      }
      Advance();
    }

    method DoSys(action: SysAction, word: nat)
      requires core.pstate.el != 2
      modifies core
      ensures core.View() == Dispatched(old(core.View()), Sys(action), word)
    {
      hide Taken, Esr, RowAt, Returned, WriteBacking, ReadBacking, Put, Undefined;
      match action {
        case Maintenance => Advance();
        case Trap => core.Undefine(word);
        case Probe(par) =>
          core.par := par;
          Advance();
        case LineFault(esr, far) => core.Take(Sync, Route(core.pstate.el), esr, Some(far));
      }
    }

    /** Delivers what the shared switch came to. */
    method Retire(retire: VcpuRun.Retire, word: nat)
      requires core.pstate.el != 2
      modifies core
      ensures core.View() == Dispatched(old(core.View()), Other(retire), word)
    {
      hide Taken, Esr, RowAt, Returned, WriteBacking, ReadBacking, Put, Undefined;
      match retire {
        case Retired(pc, sp, nzcv) => core.pc, core.sp, core.nzcv := pc, sp, nzcv;
        case DataFault(esr, far) => core.Take(Sync, Route(core.pstate.el), esr, Some(far));
        case Unsupported => core.Undefine(word);
      }
    }

    method Dispatch(insn: Insn, word: nat)
      requires core.pstate.el != 2
      modifies core
      ensures core.View() == Dispatched(old(core.View()), insn, word)
    {
      hide Taken, Esr, RowAt, Returned, WriteBacking, ReadBacking, Put, Undefined, SystemCall;
      match insn {
        case Svc(imm) => core.Svc(imm);
        case Brk(imm) => core.Take(Sync, Route(core.pstate.el), Esr(0x3C, imm % 0x1_0000), None);
        case Hlt => core.Take(Sync, Route(core.pstate.el), Esr(0x30, 0x100_0004), None);
        case Conduit(hvc, imm, served) =>
          if served {
            Advance();
          } else if hvc {
            Advance();
            core.Undefine(0xD400_0002 + 32 * (imm % 0x1_0000));
          } else {
            core.Undefine(0xD400_0003 + 32 * (imm % 0x1_0000));
          }
        case Eret => core.Eret();
        case Mrs(sel) =>
          if ReadReg(core.View(), sel).None? {
            core.Undefine(word);
          } else {
            Advance();
          }
        case Msr(sel, value) =>
          var s := core.WriteSysreg(sel, value);
          if s != OK {
            core.Undefine(word);
          } else {
            Advance();
          }
        case MsrImm(op2, imm4) => MsrImmediate(op2, imm4, word);
        case Sys(action) => DoSys(action, word);
        case Wait(_) => Advance();
        case Send => Advance();
        case Other(retire) => Retire(retire, word);
      }
    }

    /** Arms the event register for SEV, and decides whether a WFI or WFE parks. */
    method WaitOrRun(input: Input) returns (runs: bool)
      requires input.fetch.Fetched?
      modifies this`event
      ensures runs <==> !Parks(old(View()), input)
      ensures event == if runs then EventAfter(old(event), input.fetch.insn) else old(event)
    {
      var insn := input.fetch.insn;
      if insn.Send? {
        event := true;
      }
      if insn.Wait? {
        if !(input.irq || input.fiq || (insn.forEvent && event)) {
          return false;
        }
        if insn.forEvent {
          event := false;
        }
      }
      return true;
    }

    /** The fetch and what follows it; false when the core parks. */
    method Proceed(input: Input) returns (ran: bool)
      requires core.pstate.el != 2
      modifies this`event, core
      ensures ran <==> !(input.fetch.Fetched? && Parks(old(View()), input))
      ensures core.View() == if ran then Proceeded(old(core.View()), input) else old(core.View())
      ensures event == if ran && input.fetch.Fetched? then EventAfter(old(event), input.fetch.insn) else old(event)
    {
      hide Taken, Esr, Dispatched, EventAfter, Undefined, Route;
      match input.fetch {
        case NoFetch(esr, far) =>
          core.Take(Sync, Route(core.pstate.el), esr, Some(far));
        case NoDecode =>
          core.Undefine(input.word);
        case Fetched(insn) =>
          var runs := WaitOrRun(input);
          if !runs {
            return false;
          }
          Dispatch(insn, input.word);
      }
      return true;
    }

    /** One step: count, interrupts, fetch, wait-or-park, dispatch. */
    method StepOnce(input: Input) returns (s: Status)
      requires core.pstate.el != 2
      modifies this`left, this`event, core
      ensures (View(), s) == Step(old(View()), input)
    {
      hide Taken, Esr, Proceeded, EventAfter, Pending, Route;
      if left == 0 {
        return TIMEOUT;
      }
      core.counter := Wrap(core.counter + 1);
      var taken := TakePending(input.irq, input.fiq);
      if !taken {
        var ran := Proceed(input);
        if !ran {
          return BLOCKED;
        }
      }
      left := left - 1;
      return OK;
    }

    /** The run loop: until the budget is spent, the guest stops, or a step does not complete. */
    method Run(inputs: seq<Input>, max: nat) returns (done: nat, s: Status)
      requires Guest(View()) && max < |inputs|
      modifies this`left, this`event, core
      ensures Ended(View(), done, s) == RunFrom(old(View()), inputs, 0, max)
    {
      hide Step;
      done := 0;
      while done < max
        invariant 0 <= done <= max && Guest(View())
        invariant RunFrom(View(), inputs, done, max) == RunFrom(old(View()), inputs, 0, max)
      {
        if inputs[done].halted {
          return done, OK;
        }
        StepStaysGuest(View(), inputs[done]);
        s := StepOnce(inputs[done]);
        if s != OK {
          return;
        }
        done := done + 1;
      }
      return done, if inputs[max].halted then OK else TIMEOUT;
    }
  }
}
