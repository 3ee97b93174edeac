/** Exception entry, return and the fault sources as methods over the live registers. */
module ExceptionCore {
  import opened Words
  import opened ExceptionState
  import opened SystemRegisters

  /** The PSTATE a core starts in: the h form above EL0, every interrupt masked. */
  function Boot(el: Level): Psr {
    CLEAR.(h := el != 0, el := el, f := true, i := true, a := true, d := true)
  }

  class Core {
    var pc: u64
    var sp: u64
    var nzcv: Flags
    var pstate: Psr
    var spEl: Bank
    var elr: Bank
    var spsr: PsrBank
    var vbar: Bank
    var esr: Bank
    var far: Bank
    var par: u64
    var counter: u64
    var slots: map<int, u64>

    function View(): State
      reads this
    {
      State(pc, sp, nzcv, pstate, spEl, elr, spsr, vbar, esr, far, par, counter, slots)
    }

    /** Boots at `el` with the stack pointer seeding the bank that level selects. */
    constructor (el: Level, entry: u64, stack: u64)
      requires el != 2
      ensures pstate == Boot(el) && Legal(pstate) && pc == entry && nzcv == 0 && slots == RESET && counter == 0
      ensures sp == stack && Stacks(View()) == [0, 0, 0, 0][BankOf(pstate) := stack]
      ensures pstate == Psr(el != 0, false, el, false, false, true, true, true, true, 0, false, 0, 0, 0)
      ensures elr == [0, 0, 0, 0] && vbar == [0, 0, 0, 0] && esr == [0, 0, 0, 0] && far == [0, 0, 0, 0] && par == 0
      ensures forall i :: 0 <= i < 4 ==>
                spsr[i] == Psr(false, false, 0, false, false, false, false, false, false, 0, false, 0, 0, 0)
    {
      pc, sp, nzcv, par, counter, slots := entry, stack, 0, 0, 0, RESET;
      pstate := Boot(el);
      spEl := [0, 0, 0, 0][el := stack];
      elr, vbar, esr, far := [0, 0, 0, 0], [0, 0, 0, 0], [0, 0, 0, 0], [0, 0, 0, 0];
      spsr := [CLEAR, CLEAR, CLEAR, CLEAR];
    }

    /** The shared bank switch: deposit the live value, withdraw the selected one, adopt the PSTATE. */
    method SwitchSp(next: Psr)
      modifies this`spEl, this`sp, this`pstate
      ensures View() == Switched(old(View()), next)
    {
      var wasUser := !pstate.h || pstate.el == 0;
      var isUser := !next.h || next.el == 0;
      if wasUser != isUser || (!wasUser && pstate.el != next.el) {
        spEl := Put(spEl, if wasUser then 0 else pstate.el, sp);
        sp := spEl[if isUser then 0 else next.el];
      }
      pstate := next;
    }

    method Take(kind: Kind, target: Level, syndrome: u64, address: Option<u64>)
      requires Deliverable(target)
      modifies this`pc, this`sp, this`pstate, this`spEl, this`elr, this`spsr, this`esr, this`far
      ensures View() == Taken(old(View()), kind, target, syndrome, address)
    {
      hide Put, Switched, VectorOffset, EntryState;
      var interrupted := pstate;
      var vector := Wrap(vbar[target] + VectorOffset(interrupted.el == target, interrupted.h, kind));
      SwitchSp(EntryState(target));
      ghost var entered := View();
      spsr := Put(spsr, target, interrupted.(flags := nzcv));
      elr := Put(elr, target, pc);
      if kind == Sync || kind == SError {
        esr := Put(esr, target, syndrome);
      }
      if address.Some? {
        far := Put(far, target, address.value);
      }
      pc := vector;
      assert View() == entered.(spsr := spsr, elr := elr, esr := esr, far := far, pc := vector);
    }

    method Undefine(insn: nat)
      modifies this`pc, this`sp, this`pstate, this`spEl, this`elr, this`spsr, this`esr, this`far
      ensures View() == Undefined(old(View()), insn)
    {
      Take(Sync, Route(pstate.el), Esr(0, insn), None);
    }

    method Eret()
      requires pstate.el == 2 ==> Returnable(spsr[2], 2)
      modifies this`pc, this`sp, this`nzcv, this`pstate, this`spEl, this`elr, this`spsr, this`esr, this`far
      ensures View() == Returned(old(View()))
    {
      hide Esr, Put, Taken;
      var cur := pstate.el;
      if cur == 0 {
        Undefine(ERET_WORD);
        return;
      }
      var saved := spsr[cur];
      if saved.il {
        Take(Sync, cur, Esr(0x1A, 0), None);
        return;
      }
      if !ModeValid(saved) || saved.el > cur {
        Take(Sync, cur, Esr(0, ERET_WORD), None);
        return;
      }
      SwitchSp(saved.(flags := 0));
      nzcv := saved.flags;
      pc := elr[cur];
    }

    method Svc(imm16: nat)
      modifies this`pc, this`sp, this`pstate, this`spEl, this`elr, this`spsr, this`esr, this`far
      ensures View() == SystemCall(old(View()), imm16)
    {
      pc := Wrap(pc + 4);
      Take(Sync, Route(pstate.el), Esr(0x15, imm16 % 0x1_0000), None);
    }

    /** MSR Xt: the table's verdict, and on success its effect. */
    method WriteSysreg(sel: int, v: u64) returns (s: Status)
      modifies this
      ensures s == if WriteReg(old(View()), sel, v).Some? then OK else UNSUPPORTED
      ensures View() == if s == OK then WriteReg(old(View()), sel, v).value else old(View())
    {
      hide RowAt, Unpack, Put, WithoutStatus;
      var row := RowAt(sel);
      if row.None? || pstate.el < row.value.minEl || row.value.readOnly {
        return UNSUPPORTED;
      }
      match row.value.backing {
        case SpEl0 =>
          spEl := Put(spEl, 0, v);
          if pstate.el == 0 || !pstate.h {
            sp := v;
          }
        case SpEl1 =>
          spEl := Put(spEl, 1, v);
          if pstate.el == 1 && pstate.h {
            sp := v;
          }
        case SpSel => SwitchSp(pstate.(h := Bool(v)));
        case Nzcv => nzcv := v / 0x1000_0000 % 16;
        case Masks => pstate := Masked(pstate, v);
        case SpsrOf(l) => spsr := Put(spsr, l, Unpack(v));
        case ElrOf(l) => elr := Put(elr, l, v);
        case EsrOf(l) => esr := Put(esr, l, v);
        case FarOf(l) => far := Put(far, l, v);
        case VbarOf(l) => vbar := Put(vbar, l, v);
        case _ => slots := WriteBacking(View(), sel, row.value.backing, v).slots;
      }
      return OK;
    }
  }
}
