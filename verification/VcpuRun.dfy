/** One guest step and a bounded run, as functions of what the pins, the bus and the decoder answer. */
module VcpuRun {
  import opened Words
  import opened ExceptionState
  import opened SystemRegisters

  /** What the shared instruction switch does to the registers kept here. */
  datatype Retire = Retired(pc: u64, sp: u64, nzcv: Flags) | DataFault(esr: u64, far: u64) | Unsupported

  /** A cache, TLB or address-translation instruction. */
  datatype SysAction = Maintenance | Trap | Probe(par: u64) | LineFault(esr: u64, far: u64)

  datatype Insn =
    | Svc(imm: nat) | Brk(imm: nat) | Hlt | Conduit(hvc: bool, imm: nat, served: bool) | Eret
    | Mrs(sel: int) | Msr(sel: int, value: u64) | MsrImm(op2: nat, imm4: nat) | Sys(action: SysAction)
    | Wait(forEvent: bool) | Send | Other(retire: Retire)

  datatype Fetch = NoFetch(esr: u64, far: u64) | NoDecode | Fetched(insn: Insn)

  /** Everything a step learns from outside: the pins, the stop flag, the fetched word and its meaning. */
  datatype Input = Input(irq: bool, fiq: bool, halted: bool, word: nat, fetch: Fetch)

  datatype Vcpu = Vcpu(core: State, left: nat, quantum: nat, event: bool)

  /** The interrupt to take, if any: FIQ first, and a masked pin is not pending. */
  function Pending(p: Psr, irq: bool, fiq: bool): Option<Kind> {
    if fiq && !p.f then Some(Kind.Fiq) else if irq && !p.i then Some(Kind.Irq) else None
  }

  function Advanced(s: State): State {
    s.(pc := Wrap(s.pc + 4))
  }

  function SyncTaken(s: State, ec: nat, iss: nat): State
    requires ec < 64
  {
    Taken(s, Sync, Route(s.pstate.el), Esr(ec, iss), None)
  }

  /** MSR (immediate): a refusal at EL0 is reported as if an exception had been delivered, and nothing is. */
  function MsrImmediate(s: State, op2: nat, imm4: nat, word: nat): State {
    if op2 == 5 then
      if s.pstate.el == 0 then s else Advanced(Switched(s, s.pstate.(h := Bool(imm4))))
    else if op2 == 6 || op2 == 7 then
      if s.pstate.el == 0 then s else Advanced(s.(pstate := Remasked(s.pstate, op2 == 6, imm4)))
    else if 1 <= op2 <= 4 then Advanced(s)
    else Undefined(s, word)
  }

  /** DAIFSet and DAIFClr: the bits of the immediate named are set or cleared. */
  function Remasked(p: Psr, mask: bool, imm4: nat): Psr {
    p.(f := if Bool(imm4) then mask else p.f, i := if Bool(imm4 / 2) then mask else p.i,
       a := if Bool(imm4 / 4) then mask else p.a, d := if Bool(imm4 / 8) then mask else p.d)
  }

  /** One decoded instruction with system-mode semantics. */
  function Dispatched(s: State, insn: Insn, word: nat): State
    requires s.pstate.el != 2
  {
    match insn
    case Svc(imm) => SystemCall(s, imm)
    case Brk(imm) => SyncTaken(s, 0x3C, imm % 0x1_0000)
    case Hlt => SyncTaken(s, 0x30, 0x100_0004)
    case Conduit(hvc, imm, served) =>
      if served then Advanced(s)
      else if hvc then Undefined(Advanced(s), 0xD400_0002 + 32 * (imm % 0x1_0000))
      else Undefined(s, 0xD400_0003 + 32 * (imm % 0x1_0000))
    case Eret => Returned(s)
    case Mrs(sel) => if ReadReg(s, sel).None? then Undefined(s, word) else Advanced(s)
    case Msr(sel, v) => if WriteReg(s, sel, v).None? then Undefined(s, word) else Advanced(WriteReg(s, sel, v).value)
    case MsrImm(op2, imm4) => MsrImmediate(s, op2, imm4, word)
    case Sys(Maintenance) => Advanced(s)
    case Sys(Trap) => Undefined(s, word)
    case Sys(Probe(par)) => Advanced(s.(par := par))
    case Sys(LineFault(esr, far)) => Taken(s, Sync, Route(s.pstate.el), esr, Some(far))
    case Wait(_) => Advanced(s)
    case Send => Advanced(s)
    case Other(Retired(pc, sp, nzcv)) => s.(pc := pc, sp := sp, nzcv := nzcv)
    case Other(DataFault(esr, far)) => Taken(s, Sync, Route(s.pstate.el), esr, Some(far))
    case Other(Unsupported) => Undefined(s, word)
  }

  predicate Wakes(v: Vcpu, input: Input, forEvent: bool) {
    input.irq || input.fiq || (forEvent && v.event)
  }

  predicate Parks(v: Vcpu, input: Input) {
    && input.fetch.Fetched? && input.fetch.insn.Wait?
    && !Wakes(v, input, input.fetch.insn.forEvent)
  }

  /** The event register after the instruction: SEV arms it, a woken WFE spends it. */
  function EventAfter(event: bool, insn: Insn): bool {
    if insn.Send? then true else if insn.Wait? && insn.forEvent then false else event
  }

  function Step(v: Vcpu, input: Input): (r: (Vcpu, Status))
    requires v.core.pstate.el != 2
    ensures r.1 == OK || r.1 == TIMEOUT || r.1 == BLOCKED
  {
    if v.left == 0 then (v, TIMEOUT) else
    var s := v.core.(counter := Wrap(v.core.counter + 1));
    var t := v.(core := s);
    var kind := Pending(s.pstate, input.irq, input.fiq);
    if kind.Some? then (t.(core := Taken(s, kind.value, Route(s.pstate.el), 0, None), left := v.left - 1), OK)
    else if input.fetch.Fetched? && Parks(v, input) then (t, BLOCKED)
    else
      (t.(core := Proceeded(s, input), left := v.left - 1,
          event := if input.fetch.Fetched? then EventAfter(v.event, input.fetch.insn) else v.event), OK)
  }

  /** A step past the interrupt check: the fetch abort, the Undefined, or the instruction. */
  function Proceeded(s: State, input: Input): State
    requires s.pstate.el != 2
  {
    match input.fetch
    case NoFetch(esr, far) => Taken(s, Sync, Route(s.pstate.el), esr, Some(far))
    case NoDecode => Undefined(s, input.word)
    case Fetched(insn) => Dispatched(s, insn, input.word)
  }

  /** Where every run from an EL0 or EL1 boot stays. */
  predicate Guest(v: Vcpu) {
    GuestState(v.core.pstate)
  }

  lemma GuestEntry(s: State, kind: Kind, esr: u64, far: Option<u64>)
    requires GuestState(s.pstate)
    ensures
      var e := Taken(s, kind, Route(s.pstate.el), esr, far);
      && e.pstate == EntryState(1) && GuestState(e.pstate) && SameMonitor(s, e)
      && e.counter == s.counter && e.slots == s.slots
  {
    EntryShape(s, kind, 1, esr, far);
    BankSwitchBelow(s, EntryState(1));
  }

  lemma BankSwitchBelow(s: State, p: Psr)
    requires s.pstate.el <= 1 && p.el <= 1
    ensures Switched(s, p).spEl[3] == s.spEl[3]
  {
  }

  lemma GuestReturn(s: State)
    requires GuestState(s.pstate)
    ensures GuestState(Returned(s).pstate) && SameMonitor(s, Returned(s)) && Returned(s).counter == s.counter
  {
    hide Taken, Esr, Put;
    var cur := s.pstate.el;
    var saved := s.spsr[cur];
    if cur == 0 {
      GuestEntry(s, Sync, Esr(0, ERET_WORD), None);
    } else if Returnable(saved, cur) {
      BankSwitchBelow(s, saved.(flags := 0));
    } else {
      GuestEntry(s, Sync, if saved.il then Esr(0x1A, 0) else Esr(0, ERET_WORD), None);
    }
  }

  lemma GuestDispatch(s: State, insn: Insn, word: nat)
    requires GuestState(s.pstate)
    ensures
      var r := Dispatched(s, insn, word);
      && GuestState(r.pstate) && SameMonitor(s, r) && r.counter == s.counter
  {
    hide Taken, Esr, Put, SameIdentity, Returned, WriteReg, ReadReg, Switched;
    SameIdentityRefl(s);
    match insn {
      case Svc(imm) => GuestEntry(Advanced(s), Sync, Esr(0x15, imm % 0x1_0000), None);
      case Brk(imm) => GuestEntry(s, Sync, Esr(0x3C, imm % 0x1_0000), None);
      case Hlt => GuestEntry(s, Sync, Esr(0x30, 0x100_0004), None);
      case Conduit(hvc, imm, served) =>
        GuestEntry(Advanced(s), Sync, Esr(0, 0xD400_0002 + 32 * (imm % 0x1_0000)), None);
        GuestEntry(s, Sync, Esr(0, 0xD400_0003 + 32 * (imm % 0x1_0000)), None);
      case Eret => GuestReturn(s);
      case Mrs(sel) => GuestEntry(s, Sync, Esr(0, word), None);
      case Msr(sel, v) =>
        GuestEntry(s, Sync, Esr(0, word), None);
        if WriteReg(s, sel, v).Some? {
          GuestWrite(s, sel, v);
          MonitorAdvanced(s, WriteReg(s, sel, v).value);
        }
      case MsrImm(op2, imm4) =>
        GuestImmediate(s, op2, imm4, word);
      case Sys(action) => GuestSys(s, action, word);
      case Wait(_) =>
      case Send =>
      case Other(retire) => GuestRetire(s, retire, word);
    }
  }

  lemma GuestSys(s: State, action: SysAction, word: nat)
    requires GuestState(s.pstate)
    ensures
      var r := Dispatched(s, Sys(action), word);
      && GuestState(r.pstate) && SameMonitor(s, r) && r.counter == s.counter
  {
    hide Taken, Esr, Put, SameIdentity;
    SameIdentityRefl(s);
    GuestEntry(s, Sync, Esr(0, word), None);
    if action.LineFault? {
      GuestEntry(s, Sync, action.esr, Some(action.far));
    }
  }

  lemma GuestRetire(s: State, retire: Retire, word: nat)
    requires GuestState(s.pstate)
    ensures
      var r := Dispatched(s, Other(retire), word);
      && GuestState(r.pstate) && SameMonitor(s, r) && r.counter == s.counter
  {
    hide Taken, Esr, Put, SameIdentity;
    SameIdentityRefl(s);
    GuestEntry(s, Sync, Esr(0, word), None);
    if retire.DataFault? {
      GuestEntry(s, Sync, retire.esr, Some(retire.far));
    }
  }

  lemma MonitorAdvanced(s: State, r: State)
    requires SameMonitor(s, r)
    ensures SameMonitor(s, Advanced(r))
  {
  }

  lemma SameIdentityRefl(s: State)
    ensures forall r: State :: r.slots == s.slots ==> SameIdentity(s, r)
  {
  }

  lemma GuestImmediate(s: State, op2: nat, imm4: nat, word: nat)
    requires GuestState(s.pstate)
    ensures
      var r := MsrImmediate(s, op2, imm4, word);
      && GuestState(r.pstate) && SameMonitor(s, r) && r.counter == s.counter
  {
    hide Taken, Esr, SameIdentity, Bool, Put;
    SameIdentityRefl(s);
    GuestEntry(s, Sync, Esr(0, word), None);
    if op2 == 5 {
      BankSwitchBelow(s, s.pstate.(h := Bool(imm4)));
    }
  }

  /** Every step from a guest state ends in one, with EL3 and the identification registers as they were. */
  lemma StepStaysGuest(v: Vcpu, input: Input)
    requires Guest(v)
    ensures
      var r := Step(v, input).0;
      Guest(r) && SameMonitor(v.core, r.core) && r.quantum == v.quantum
  {
    hide Taken, Esr, Dispatched, SameIdentity;
    SameIdentityRefl(v.core);
    if v.left > 0 {
      var s := v.core.(counter := Wrap(v.core.counter + 1));
      MonitorThrough(v.core, s);
      var kind := Pending(s.pstate, input.irq, input.fiq);
      if kind.Some? {
        GuestEntry(s, kind.value, 0, None);
      } else {
        match input.fetch {
          case NoFetch(esr, far) => GuestEntry(s, Sync, esr, Some(far));
          case NoDecode => GuestEntry(s, Sync, Esr(0, input.word), None);
          case Fetched(insn) => GuestDispatch(s, insn, input.word);
        }
      }
    }
  }

  lemma MonitorThrough(a: State, b: State)
    requires b == a.(counter := b.counter)
    ensures forall r: State :: SameMonitor(b, r) ==> SameMonitor(a, r)
  {
  }

  /** A step that completes spends one quantum unit and one count; a parked one only the count; a spent quantum
      neither. */
  lemma StepAccounts(v: Vcpu, input: Input)
    requires Guest(v)
    ensures
      var (r, st) := Step(v, input);
      && (st == TIMEOUT <==> v.left == 0) && (st == TIMEOUT ==> r == v)
      && (st == OK ==> r.left == v.left - 1 && r.core.counter == Wrap(v.core.counter + 1))
      && (st == BLOCKED ==> r == v.(core := v.core.(counter := Wrap(v.core.counter + 1))))
      && (st == BLOCKED <==> v.left > 0 && Parks(v, input) && Pending(v.core.pstate, input.irq, input.fiq).None?)
  {
    hide Taken, Esr, Dispatched;
    if v.left > 0 {
      var s := v.core.(counter := Wrap(v.core.counter + 1));
      var kind := Pending(s.pstate, input.irq, input.fiq);
      if kind.Some? {
        GuestEntry(s, kind.value, 0, None);
      } else {
        match input.fetch {
          case NoFetch(esr, far) => GuestEntry(s, Sync, esr, Some(far));
          case NoDecode => GuestEntry(s, Sync, Esr(0, input.word), None);
          case Fetched(insn) => GuestDispatch(s, insn, input.word);
        }
      }
    }
  }

  /** How a run ends: the machine, the steps completed, the status. */
  datatype Ended = Ended(vcpu: Vcpu, done: nat, status: Status)

  /** The run loop from its `done`-th iteration; `inputs[k]` is what iteration `k` sees. */
  function RunFrom(v: Vcpu, inputs: seq<Input>, done: nat, max: nat): (r: Ended)
    requires Guest(v) && done <= max < |inputs|
    decreases max - done
  {
    if done == max then Ended(v, done, if inputs[max].halted then OK else TIMEOUT)
    else if inputs[done].halted then Ended(v, done, OK)
    else
      var (next, st) := Step(v, inputs[done]);
      StepStaysGuest(v, inputs[done]);
      if st != OK then Ended(next, done, st) else RunFrom(next, inputs, done + 1, max)
  }

  /** A run stays in guest states, keeps EL3 and the identification registers, and its books balance. */
  lemma {:induction false} RunAccounts(v: Vcpu, inputs: seq<Input>, done: nat, max: nat)
    requires Guest(v) && done <= max < |inputs|
    ensures
      var r := RunFrom(v, inputs, done, max);
      && Guest(r.vcpu) && SameMonitor(v.core, r.vcpu.core)
      && done <= r.done <= max && r.vcpu.left == v.left - (r.done - done)
      && r.vcpu.core.counter == Wrap(v.core.counter + (r.done - done) + if r.status == BLOCKED then 1 else 0)
      && (r.status == BLOCKED ==> r.done < max)
    decreases max - done
  {
    hide Step, SameMonitor;
    MonitorRefl(v.core);
    if done < max && !inputs[done].halted {
      var (next, st) := Step(v, inputs[done]);
      StepStaysGuest(v, inputs[done]);
      StepAccounts(v, inputs[done]);
      if st == OK {
        RunAccounts(next, inputs, done + 1, max);
        var r := RunFrom(next, inputs, done + 1, max);
        WrapAgain(v.core.counter, (r.done - done - 1) + if r.status == BLOCKED then 1 else 0);
        MonitorTrans(v.core, next.core, r.vcpu.core);
      }
    }
  }

  lemma MonitorRefl(s: State)
    ensures SameMonitor(s, s)
  {
  }

  lemma MonitorTrans(a: State, b: State, c: State)
    requires SameMonitor(a, b) && SameMonitor(b, c)
    ensures SameMonitor(a, c)
  {
  }

  lemma WrapAgain(c: u64, n: nat)
    ensures Wrap(Wrap(c + 1) + n) == Wrap(c + 1 + n)
  {
    if c + 1 == TWO64 {
      ModUnique(TWO64 + n, TWO64, 1 + n / TWO64, n % TWO64);
    }
  }

  predicate BothMasked(p: Psr) {
    p.f && p.i
  }

  /** The instructions with which a guest can unmask an interrupt. */
  predicate Unmasks(input: Input): (can: bool)
    ensures can ==> input.fetch.Fetched? && (input.fetch.insn.Eret? || input.fetch.insn.Msr? ||
                                             (input.fetch.insn.MsrImm? && input.fetch.insn.op2 == 7))
    ensures can && input.fetch.insn.Msr? ==> input.fetch.insn.sel == 0x1A11
  {
    input.fetch.Fetched? &&
    match input.fetch.insn
    case Eret => true
    case Msr(sel, _) => RowAt(sel).Some? && RowAt(sel).value.backing == Masks
    case MsrImm(op2, _) => op2 == 7
    case _ => false
  }

  predicate Delivers(v: Vcpu, input: Input) {
    v.left > 0 && Pending(v.core.pstate, input.irq, input.fiq).Some?
  }

  lemma DeliveryMasks(v: Vcpu, input: Input)
    requires Guest(v) && Delivers(v, input)
    ensures BothMasked(Step(v, input).0.core.pstate)
  {
    hide Taken;
    var s := v.core.(counter := Wrap(v.core.counter + 1));
    GuestEntry(s, Pending(s.pstate, input.irq, input.fiq).value, 0, None);
  }

  lemma StaysMasked(v: Vcpu, input: Input)
    requires Guest(v) && BothMasked(v.core.pstate) && !Unmasks(input)
    ensures BothMasked(Step(v, input).0.core.pstate) && !Delivers(v, input)
  {
    hide Taken, Esr, Dispatched;
    if v.left > 0 {
      var s := v.core.(counter := Wrap(v.core.counter + 1));
      EntryMasks(s);
      if input.fetch.Fetched? {
        DispatchStaysMasked(s, input);
      }
    }
  }

  lemma DispatchStaysMasked(s: State, input: Input)
    requires GuestState(s.pstate) && BothMasked(s.pstate) && input.fetch.Fetched? && !Unmasks(input)
    ensures BothMasked(Dispatched(s, input.fetch.insn, input.word).pstate)
  {
    hide Taken, Esr, ReadReg, Returned, WriteReg;
    EntryMasks(s);
    EntryMasks(Advanced(s));
    var insn := input.fetch.insn;
    if insn.Msr? && WriteReg(s, insn.sel, insn.value).Some? {
      WriteKeepsMasks(s, insn.sel, insn.value);
    }
  }

  lemma WriteKeepsMasks(s: State, sel: int, v: u64)
    requires WriteReg(s, sel, v).Some? && !(RowAt(sel).Some? && RowAt(sel).value.backing == Masks)
    ensures BothMasked(WriteReg(s, sel, v).value.pstate) == BothMasked(s.pstate)
  {
    hide RowAt, Put, Unpack, WithoutStatus, Count;
  }

  lemma EntryMasks(s: State)
    requires GuestState(s.pstate)
    ensures forall kind, esr, far :: BothMasked(Taken(s, kind, Route(s.pstate.el), esr, far).pstate)
  {
  }

  function Reached(v: Vcpu, inputs: seq<Input>): (r: Vcpu)
    requires Guest(v)
    ensures Guest(r)
  {
    if inputs == [] then v else
    var u := Reached(v, inputs[..|inputs| - 1]);
    StepStaysGuest(u, inputs[|inputs| - 1]);
    Step(u, inputs[|inputs| - 1]).0
  }

  /** However long a guest runs, its EL3 state and identification registers are those it started with. */
  lemma {:induction false} ReachedKeepsMonitor(v: Vcpu, inputs: seq<Input>)
    requires Guest(v)
    ensures SameMonitor(v.core, Reached(v, inputs).core)
  {
    hide Step, SameIdentity;
    if inputs == [] {
      SameIdentityRefl(v.core);
    } else {
      var u := Reached(v, inputs[..|inputs| - 1]);
      ReachedKeepsMonitor(v, inputs[..|inputs| - 1]);
      StepStaysGuest(u, inputs[|inputs| - 1]);
      MonitorTrans(v.core, u.core, Step(u, inputs[|inputs| - 1]).0.core);
    }
  }

  /** Whatever a guest booted from reset runs, every identification register it may read still answers its reset
      value. */
  lemma IdentificationIsFixed(v: Vcpu, inputs: seq<Input>, sel: int)
    requires Guest(v) && v.core.slots == RESET
    requires Ident0(sel) || (Ident1(sel) && Reached(v, inputs).core.pstate.el == 1)
    ensures ReadReg(Reached(v, inputs).core, sel) == Some(if sel in RESET then RESET[sel] else 0)
  {
    hide Reached;
    ReachedKeepsMonitor(v, inputs);
  }

  lemma ReachedOneMore(v: Vcpu, inputs: seq<Input>, k: nat)
    requires Guest(v) && k < |inputs|
    ensures Reached(v, inputs[..k + 1]) == Step(Reached(v, inputs[..k]), inputs[k]).0
  {
    assert inputs[..k + 1][..k] == inputs[..k];
  }

  /** Somewhere between a masked and an unmasked state there is the step that cleared a mask. */
  lemma {:induction false} FirstUnmasked(v: Vcpu, inputs: seq<Input>, i: nat, j: nat) returns (k: nat)
    requires Guest(v) && i <= j <= |inputs|
    requires BothMasked(Reached(v, inputs[..i]).core.pstate) && !BothMasked(Reached(v, inputs[..j]).core.pstate)
    ensures i <= k < j && ClearsMask(v, inputs, k)
    decreases j - i
  {
    hide BothMasked, Reached;
    if BothMasked(Reached(v, inputs[..j - 1]).core.pstate) {
      k := j - 1;
    } else {
      k := FirstUnmasked(v, inputs, i, j - 1);
    }
  }

  /** Step `k` of the run finds both interrupts masked and leaves one unmasked. */
  predicate ClearsMask(v: Vcpu, inputs: seq<Input>, k: nat)
    requires Guest(v) && k < |inputs|
  {
    BothMasked(Reached(v, inputs[..k]).core.pstate) && !BothMasked(Reached(v, inputs[..k + 1]).core.pstate)
  }

  /** Between two interrupt deliveries of a run the guest executed an unmasking instruction: one whose step cleared a
      mask. */
  lemma NoDeliveryUntilUnmask(v: Vcpu, inputs: seq<Input>, i: nat, j: nat)
    requires Guest(v) && i < j < |inputs|
    requires Delivers(Reached(v, inputs[..i]), inputs[i]) && Delivers(Reached(v, inputs[..j]), inputs[j])
    ensures exists k :: i < k < j && Unmasks(inputs[k]) && ClearsMask(v, inputs, k)
  {
    hide Step, Unmasks, Reached;
    ReachedOneMore(v, inputs, i);
    DeliveryMasks(Reached(v, inputs[..i]), inputs[i]);
    var k := FirstUnmasked(v, inputs, i + 1, j);
    ReachedOneMore(v, inputs, k);
    if !Unmasks(inputs[k]) {
      StaysMasked(Reached(v, inputs[..k]), inputs[k]);
    }
    assert Unmasks(inputs[k]) && ClearsMask(v, inputs, k);
  }

  /** The refusal that is not delivered: at EL0 these forms leave the PC where it is, so the instruction runs again
      forever. */
  lemma RefusedImmediateSticks(v: Vcpu, input: Input)
    requires Guest(v) && v.core.pstate.el == 0 && v.left > 0
    requires Pending(v.core.pstate, input.irq, input.fiq).None?
    requires input.fetch.Fetched? && input.fetch.insn.MsrImm? && 5 <= input.fetch.insn.op2 <= 7
    ensures Step(v, input) ==
            (v.(core := v.core.(counter := Wrap(v.core.counter + 1)), left := v.left - 1), OK)
  {
  }

  /** Does the step retire a system-mode instruction, neither parked nor handed to the shared switch's own PC? */
  predicate RetiresSystem(v: Vcpu, input: Input) {
    && Pending(v.core.pstate, input.irq, input.fiq).None?
    && input.fetch.Fetched? && !Parks(v, input)
    && !(input.fetch.insn.Other? && input.fetch.insn.retire.Retired?)
  }

  /** That refusal is the only one: at EL0 every other system-mode instruction moves the PC or leaves EL0. */
  lemma SticksExactly(s: State, insn: Insn, word: nat)
    requires s.pstate.el == 0 && !(insn.Other? && insn.retire.Retired?)
    ensures Dispatched(s, insn, word).pstate.el == 0 && Dispatched(s, insn, word).pc == s.pc <==>
            insn.MsrImm? && 5 <= insn.op2 <= 7
  {
    hide Esr, WriteBacking, ReadBacking, RowAt, VectorOffset;
    EntryLeaves(s);
    EntryLeaves(Advanced(s));
    if insn.Msr? && WriteReg(s, insn.sel, insn.value).Some? {
      UserWriteStays(s, insn.sel, insn.value);
    }
  }

  /** An exception taken from EL0 leaves it. */
  lemma EntryLeaves(s: State)
    requires s.pstate.el == 0
    ensures forall kind, esr, far :: Taken(s, kind, Route(s.pstate.el), esr, far).pstate.el == 1
  {
  }

  lemma UserWriteStays(s: State, sel: int, v: u64)
    requires s.pstate.el == 0 && WriteReg(s, sel, v).Some?
    ensures WriteReg(s, sel, v).value.pc == s.pc
  {
    hide RowAt, Unpack, Put, WithoutStatus, Count;
  }

  /** A guest at EL0 makes no progress in a step exactly when the step refuses one of these forms. */
  lemma StepSticksExactly(v: Vcpu, input: Input)
    requires Guest(v) && v.core.pstate.el == 0 && v.left > 0 && RetiresSystem(v, input)
    ensures Step(v, input).0.core.pstate.el == 0 && Step(v, input).0.core.pc == v.core.pc <==>
            input.fetch.insn.MsrImm? && 5 <= input.fetch.insn.op2 <= 7
  {
    hide Dispatched;
    SticksExactly(v.core.(counter := Wrap(v.core.counter + 1)), input.fetch.insn, input.word);
  }
}
