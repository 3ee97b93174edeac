/** What each trap of a guest looks like to its kernel: vector, syndrome, fault address and return address, in literal
    terms. */
module TrapMeaning {
  import opened Words
  import opened ExceptionState
  import opened SystemRegisters
  import opened VcpuRun

  /** An exception from a guest level, as the EL1 handler finds it. */
  predicate Lands(s: State, e: State, place: nat, resume: u64) {
    && e.pc == (s.vbar[1] + (if s.pstate.el == 0 then 0x400 else if s.pstate.h then 0x200 else 0) + place) % TWO64
    && e.elr[1] == resume && e.spsr[1] == s.pstate.(flags := s.nzcv) && e.pstate.el == 1 && e.pstate.h
    && e.pstate.f && e.pstate.i && e.pstate.a && e.pstate.d
  }

  /** A synchronous one, with its syndrome. */
  predicate Traps(s: State, e: State, syndrome: nat, resume: u64) {
    Lands(s, e, 0, resume) && e.esr[1] == syndrome
  }

  /** The syndromes of the trapping instructions, and where each of them resumes: past a call, at anything else. */
  lemma TrapSyndromes(s: State, insn: Insn, word: nat)
    requires GuestState(s.pstate)
    ensures
      var e := Dispatched(s, insn, word);
      var next := (s.pc + 4) % TWO64;
      match insn
      case Svc(imm) => Traps(s, e, 0x5600_0000 + imm % 0x1_0000, next)
      case Brk(imm) => Traps(s, e, 0xF200_0000 + imm % 0x1_0000, s.pc)
      case Hlt => Traps(s, e, 0xC300_0004, s.pc)
      case Conduit(hvc, imm, served) =>
        if served then e == s.(pc := next)
        else if hvc then Traps(s, e, 0x0200_0002 + 0x20 * (imm % 0x1_0000), next)
        else Traps(s, e, 0x0200_0003 + 0x20 * (imm % 0x1_0000), s.pc)
      case Eret => s.pstate.el == 0 ==> Traps(s, e, 0x029F_03E0, s.pc)
      case Mrs(sel) => ReadReg(s, sel).None? ==> Traps(s, e, 0x0200_0000 + word % 0x200_0000, s.pc)
      case Msr(sel, v) => WriteReg(s, sel, v).None? ==> Traps(s, e, 0x0200_0000 + word % 0x200_0000, s.pc)
      case MsrImm(op2, _) => (op2 == 0 || op2 > 7) ==> Traps(s, e, 0x0200_0000 + word % 0x200_0000, s.pc)
      case Wait(_) => e == s.(pc := next)
      case Send => e == s.(pc := next)
      case _ => true
  {
    hide Taken, ReadReg, WriteReg;
    match insn {
      case Svc(imm) => SyncTraps(s, Advanced(s), 0x15, imm % 0x1_0000, None);
      case Brk(imm) => SyncTraps(s, s, 0x3C, imm % 0x1_0000, None);
      case Hlt => SyncTraps(s, s, 0x30, 0x100_0004, None);
      case Conduit(hvc, imm, served) =>
        SyncTraps(s, Advanced(s), 0, 0xD400_0002 + 32 * (imm % 0x1_0000), None);
        SyncTraps(s, s, 0, 0xD400_0003 + 32 * (imm % 0x1_0000), None);
      case Eret => SyncTraps(s, s, 0, ERET_WORD, None);
      case Mrs(_) => SyncTraps(s, s, 0, word, None);
      case Msr(_, _) => SyncTraps(s, s, 0, word, None);
      case MsrImm(_, _) => SyncTraps(s, s, 0, word, None);
      case _ =>
    }
  }

  /** The same for the SYS space. */
  lemma SysTraps(s: State, action: SysAction, word: nat)
    requires GuestState(s.pstate)
    ensures
      var e := Dispatched(s, Sys(action), word);
      match action
      case Maintenance => e == s.(pc := (s.pc + 4) % TWO64)
      case Trap => Traps(s, e, 0x0200_0000 + word % 0x200_0000, s.pc)
      case Probe(par) => e == s.(pc := (s.pc + 4) % TWO64, par := par)
      case LineFault(esr, far) => Traps(s, e, esr, s.pc) && e.far[1] == far
  {
    hide Taken;
    SyncTraps(s, s, 0, word, None);
    if action.LineFault? {
      FaultTraps(s, action.esr, action.far);
    }
  }

  /** And for everything else: a data fault arrives with its record, an unsupported encoding is Undefined. */
  lemma RetireTraps(s: State, retire: Retire, word: nat)
    requires GuestState(s.pstate)
    ensures
      var e := Dispatched(s, Other(retire), word);
      match retire
      case Retired(pc, sp, nzcv) => e == s.(pc := pc, sp := sp, nzcv := nzcv)
      case DataFault(esr, far) => Traps(s, e, esr, s.pc) && e.far[1] == far
      case Unsupported => Traps(s, e, 0x0200_0000 + word % 0x200_0000, s.pc)
  {
    hide Taken;
    SyncTraps(s, s, 0, word, None);
    if retire.DataFault? {
      FaultTraps(s, retire.esr, retire.far);
    }
  }

  lemma SyncTraps(s: State, at: State, ec: nat, iss: nat, far: Option<u64>)
    requires GuestState(s.pstate) && at == s.(pc := at.pc) && ec < 64
    ensures Traps(s, Taken(at, Sync, Route(s.pstate.el), Esr(ec, iss), far),
                  0x400_0000 * ec + 0x200_0000 + iss % 0x200_0000, at.pc)
  {
    EntryVector(at, Sync, 1, Esr(ec, iss), far);
    EntryShape(at, Sync, 1, Esr(ec, iss), far);
  }

  lemma FaultTraps(s: State, esr: u64, far: u64)
    requires GuestState(s.pstate)
    ensures
      var e := Taken(s, Sync, Route(s.pstate.el), esr, Some(far));
      Traps(s, e, esr, s.pc) && e.far[1] == far
  {
    EntryVector(s, Sync, 1, esr, Some(far));
    EntryShape(s, Sync, 1, esr, Some(far));
  }

  /** A guest step meets interrupts first, FIQ before IRQ, each only when its own mask is clear, each at its own vector
      with ESR and FAR as they were; what it interrupts resumes where it stood. */
  lemma InterruptVector(v: Vcpu, input: Input)
    requires Guest(v) && v.left > 0
    ensures
      var s, r := v.core, Step(v, input).0.core;
      && (input.fiq && !s.pstate.f ==>
            Lands(s, r, 0x100, s.pc) && r.esr == s.esr && r.far == s.far && Step(v, input).0.left == v.left - 1)
      && (input.irq && !s.pstate.i && !(input.fiq && !s.pstate.f) ==>
            Lands(s, r, 0x80, s.pc) && r.esr == s.esr && r.far == s.far && Step(v, input).0.left == v.left - 1)
  {
    hide Taken, Proceeded, EventAfter;
    var s := v.core.(counter := Wrap(v.core.counter + 1));
    EntryVector(s, Irq, 1, 0, None);
    EntryShape(s, Irq, 1, 0, None);
    EntryVector(s, Fiq, 1, 0, None);
    EntryShape(s, Fiq, 1, 0, None);
    if Pending(s.pstate, input.irq, input.fiq).Some? {
      UntouchedSyndromes(s, Pending(s.pstate, input.irq, input.fiq).value);
    }
  }

  lemma UntouchedSyndromes(s: State, kind: Kind)
    requires kind == Irq || kind == Fiq
    ensures Taken(s, kind, 1, 0, None).esr == s.esr && Taken(s, kind, 1, 0, None).far == s.far
  {
  }

  /** With nothing pending, a fetch that fails is the abort it names, and a word without meaning is Undefined. */
  lemma FetchTraps(v: Vcpu, input: Input)
    requires Guest(v) && v.left > 0 && !input.fetch.Fetched?
    requires (input.irq ==> v.core.pstate.i) && (input.fiq ==> v.core.pstate.f)
    ensures
      var s, r := v.core, Step(v, input).0.core;
      if input.fetch.NoFetch? then Traps(s, r, input.fetch.esr, s.pc) && r.far[1] == input.fetch.far
      else Traps(s, r, 0x0200_0000 + input.word % 0x200_0000, s.pc)
  {
    hide Taken, EventAfter;
    var s := v.core.(counter := Wrap(v.core.counter + 1));
    SyncTraps(s, s, 0, input.word, None);
    if input.fetch.NoFetch? {
      FaultTraps(s, input.fetch.esr, input.fetch.far);
    }
  }

  /** DAIFSet sets and DAIFClr clears the masks its immediate names -- F, I, A, D from bit 0 up -- and moves nothing
      else. */
  lemma MaskImmediateMeans(s: State, mask: bool, imm4: nat, word: nat)
    requires s.pstate.el == 1 && imm4 < 16
    ensures
      var r := Dispatched(s, MsrImm(if mask then 6 else 7, imm4), word);
      && r == s.(pc := (s.pc + 4) % TWO64, pstate := r.pstate)
      && r.pstate == s.pstate.(f := r.pstate.f, i := r.pstate.i, a := r.pstate.a, d := r.pstate.d)
      && r.pstate.f == (if imm4 % 2 == 1 then mask else s.pstate.f)
      && r.pstate.i == (if imm4 / 2 % 2 == 1 then mask else s.pstate.i)
      && r.pstate.a == (if imm4 / 4 % 2 == 1 then mask else s.pstate.a)
      && r.pstate.d == (if imm4 / 8 % 2 == 1 then mask else s.pstate.d)
  {
  }

  /** SPSel takes bit 0 and with it the live stack pointer; the other implemented selectors are stepped over. */
  lemma SelectImmediateMeans(s: State, op2: nat, imm4: nat, word: nat)
    requires s.pstate.el == 1 && 1 <= op2 <= 5
    ensures
      var r := Dispatched(s, MsrImm(op2, imm4), word);
      && r.pc == (s.pc + 4) % TWO64 && Stacks(r) == Stacks(s)
      && r.pstate == (if op2 == 5 then s.pstate.(h := imm4 % 2 == 1) else s.pstate)
  {
    hide Stacks, Put;
    SwitchKeepsStacks(s, s.pstate.(h := Bool(imm4)));
    var t := Switched(s, s.pstate.(h := Bool(imm4)));
    SameStacks(t, Advanced(t));
    SameStacks(s, Advanced(s));
  }

  /** A wait parks exactly when nothing wakes it: no pin is up, masked or not, and for WFE no event is remembered. WFE
      spends the event, SEV arms it, and nothing else touches it. */
  lemma WaitMeans(v: Vcpu, input: Input)
    requires Guest(v) && v.left > 0 && input.fetch.Fetched?
    requires (input.irq ==> v.core.pstate.i) && (input.fiq ==> v.core.pstate.f)
    ensures
      var insn, r := input.fetch.insn, Step(v, input);
      && (r.1 == BLOCKED <==> insn.Wait? && !input.irq && !input.fiq && !(insn.forEvent && v.event))
      && (r.1 == BLOCKED ==> r.0.core.pc == v.core.pc && r.0.left == v.left && r.0.event == v.event)
      && (r.1 != BLOCKED ==>
            r.0.event == (insn.Send? || (v.event && !(insn.Wait? && insn.forEvent))) && r.0.left == v.left - 1)
  {
    hide Dispatched;
  }

  /** When a step delivers an interrupt. */
  lemma DeliveryIs(v: Vcpu, input: Input)
    ensures Delivers(v, input) <==>
            v.left != 0 && ((input.fiq && !v.core.pstate.f) || (input.irq && !v.core.pstate.i))
  {
  }

  /** How a run ends: TIMEOUT after all its steps, OK where the stop flag is met, and else with the status of the step
      that did not complete -- BLOCKED, or TIMEOUT with the quantum spent. */
  lemma {:induction false} RunEnds(v: Vcpu, inputs: seq<Input>, done: nat, max: nat)
    requires Guest(v) && done <= max < |inputs|
    ensures
      var r := RunFrom(v, inputs, done, max);
      && done <= r.done <= max && (forall k :: done <= k < r.done ==> !inputs[k].halted)
      && (r.status == OK <==> inputs[r.done].halted)
      && (r.done == max && !inputs[max].halted ==> r.status == TIMEOUT)
      && (r.done < max && r.status != OK ==> r.status == BLOCKED || (r.status == TIMEOUT && r.vcpu.left == 0))
    decreases max - done
  {
    hide Step;
    if done < max && !inputs[done].halted {
      StepStaysGuest(v, inputs[done]);
      StepAccounts(v, inputs[done]);
      if Step(v, inputs[done]).1 == OK {
        RunEnds(Step(v, inputs[done]).0, inputs, done + 1, max);
      }
    }
  }
}
