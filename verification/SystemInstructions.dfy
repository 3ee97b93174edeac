/** The SYS space -- cache and TLB maintenance, address translation, DC ZVA: which action an encoding selects, what it
    does to the translation layer and to memory, and what it hands to the core. */
module SystemInstructions {
  import opened Words
  import opened FlatMemory
  import opened Translation
  import opened TranslationCache
  import opened Pinning
  import opened BusSpec
  import opened MmuBus
  import opened PairAccess
  import opened ExclusiveMonitor
  import opened TranslatedTransfer
  import opened WalkMeaning
  import VcpuRun

  datatype Class = NoOp | Unallocated | Invalidation | AddressTranslation | LineZero

  function Op1(sel: nat): nat {
    sel / 0x800 % 8
  }

  function CRn(sel: nat): nat {
    sel / 0x80 % 16
  }

  function CRm(sel: nat): nat {
    sel / 8 % 16
  }

  /** Every TLBI is a flush of the whole cache; only stage-1 AT is honoured; caches are not modelled. */
  function ClassOf(sel: nat): Class {
    if sel == 0x1BA1 then LineZero
    else if CRn(sel) in {8, 9} && Op1(sel) in {0, 1, 2, 4} then Invalidation
    else if CRn(sel) == 7 && CRm(sel) in {8, 9} && Op1(sel) == 0 then AddressTranslation
    else if CRn(sel) == 7 && CRm(sel) in {8, 9} && Op1(sel) == 4 then Unallocated
    else if Op1(sel) in {0, 3} && CRn(sel) in {7, 10, 11, 15} then NoOp
    else Unallocated
  }

  /** The write forms of AT are op2 1 and 3. */
  predicate AtWrites(word: nat) {
    word / 32 % 8 in {1, 3}
  }

  /** PAR_EL1 after an AT: the address with bit 0 clear, or just bit 0. */
  function ParOf(answer: Answer): (par: u64)
    ensures answer.Served? <==> par % 2 == 0
    ensures if answer.Served? then par / 2 == answer.pa / 2 else par == 1
  {
    match answer
    case Served(pa) => pa - pa % 2
    case Refused(_, _) => 1
  }

  /** Which operation each encoding is, by its op1, CRn, CRm and op2: TLBI, AT S1E*, DC ZVA, cache maintenance, or
      none. */
  lemma ClassMeans(op1: nat, crn: nat, crm: nat, op2: nat)
    requires op1 < 8 && crn < 16 && crm < 16 && op2 < 8
    ensures
      var c := ClassOf(0x800 * op1 + 0x80 * crn + 8 * crm + op2);
      && (c.LineZero? <==> op1 == 3 && crn == 7 && crm == 4 && op2 == 1)
      && (c.Invalidation? <==> (crn == 8 || crn == 9) && (op1 == 0 || op1 == 1 || op1 == 2 || op1 == 4))
      && (c.AddressTranslation? <==> crn == 7 && (crm == 8 || crm == 9) && op1 == 0)
      && (c.NoOp? <==>
            && (op1 == 0 || op1 == 3) && (crn == 7 || crn == 10 || crn == 11 || crn == 15)
            && !c.LineZero? && !c.AddressTranslation?)
  {
    var sel := 0x800 * op1 + 0x80 * crn + 8 * crm + op2;
    assert Op1(sel) == op1 && CRn(sel) == crn && CRm(sel) == crm by {
      Digits(op1, crn, crm, op2);
    }
    assert sel == 0x1BA1 ==> sel % 8 == 1;
    assert sel % 8 == op2;
  }

  lemma Digits(op1: nat, crn: nat, crm: nat, op2: nat)
    requires op1 < 8 && crn < 16 && crm < 16 && op2 < 8
    ensures
      var sel := 0x800 * op1 + 0x80 * crn + 8 * crm + op2;
      Op1(sel) == op1 && CRn(sel) == crn && CRm(sel) == crm
  {
    var sel := 0x800 * op1 + 0x80 * crn + 8 * crm + op2;
    assert sel / 0x800 == op1;
    assert sel / 0x80 == 16 * op1 + crn;
    assert sel / 8 == 256 * op1 + 16 * crn + crm;
  }

  /** The op2 field of the word, at bits 7 to 5, tells an AT for a write from one for a read: S1E1W is 1, S1E0W 3. */
  lemma AtWritesMeans(high: nat, op2: nat, rt: nat)
    requires op2 < 8 && rt < 32
    ensures AtWrites(0x100 * high + 32 * op2 + rt) <==> op2 == 1 || op2 == 3
  {
    assert (0x100 * high + 32 * op2 + rt) / 32 == 8 * high + op2;
  }

  /** Decides and performs a SYS instruction; `action` is what the core then does. The exclusive monitor takes no part,
      not even when a line is cleared. */
  method Perform(mmu: Mmu, monitor: Monitor, sel: nat, word: nat, addr: u64)
    returns (action: VcpuRun.SysAction, monitor': Monitor, ghost pas: seq<u64>)
    requires mmu.Valid()
    modifies mmu`epoch, mmu`hits, mmu`misses, mmu`flushes, mmu`fault, mmu.tlb, mmu.bus`view, mmu.bus.hosts
    ensures mmu.Valid() && monitor' == monitor
    ensures ClassOf(sel).NoOp? ==> action == VcpuRun.Maintenance && mmu.State() == old(mmu.State())
    ensures ClassOf(sel).Unallocated? ==> action == VcpuRun.Trap && mmu.State() == old(mmu.State())
    ensures ClassOf(sel).Invalidation? ==>
              action == VcpuRun.Maintenance && mmu.State() == Flush(old(mmu.State()))
    ensures ClassOf(sel).AddressTranslation? ==>
              var acc := Access(mmu.el, AtWrites(word), false);
              && action == VcpuRun.Probe(ParOf(Ask(old(mmu.State()), mmu.control, old(mmu.bus.view), addr, acc)))
              && mmu.State() == Translate(old(mmu.State()), mmu.control, old(mmu.bus.view), addr, acc).tlb
    ensures ClassOf(sel).LineZero? ==>
              var refusal := LineRefusal(old(mmu.State()), mmu.control, old(mmu.bus.view), mmu.el, addr);
              if refusal.Some? then
                && refusal.value.far.Some? && action == VcpuRun.LineFault(refusal.value.esr, refusal.value.far.value)
                && (addr % 8 == 0 ==> InItsBlock(mmu.control, addr, action.far))
                && (addr % 8 != 0 ==>
                      mmu.el < 3 ==> action == VcpuRun.LineFault(Syn(Access(mmu.el, true, false), 0x21), addr))
              else
                && action == VcpuRun.Maintenance && |pas| == LINE
                && Located(old(mmu.State()), mmu.control, old(mmu.bus.view), LineOf(addr), Access(mmu.el, true, false),
                           WRITE,
                           pas)
                && Landed(old(mmu.bus.view), mmu.bus.view, pas, Zeros(LINE))
                && Cleared(old(mmu.State()), mmu.control, old(mmu.bus.view), mmu.bus.view, Access(mmu.el, true, false),
                           addr)
    ensures !(ClassOf(sel).LineZero? && action.Maintenance?) ==> mmu.bus.view == old(mmu.bus.view)
  {
    hide ClassOf, Ask, Shaped, ProbeFrom, Located, Landed, Zeros, LineOf, Names, Syndrome, Cleared;
    pas, monitor' := [], monitor;
    match ClassOf(sel) {
      case NoOp => action := VcpuRun.Maintenance;
      case Unallocated => action := VcpuRun.Trap;
      case Invalidation =>
        mmu.FlushAll();
        action := VcpuRun.Maintenance;
      case AddressTranslation =>
        var answer := mmu.TranslateAt(addr, Access(mmu.el, AtWrites(word), false));
        action := VcpuRun.Probe(ParOf(answer));
      case LineZero =>
        LineRefusalNames(mmu.State(), mmu.control, mmu.bus.view, mmu.el, addr);
        var r, refusal;
        r, refusal, pas := ZeroLine(mmu, addr);
        action := if refusal.None? then VcpuRun.Maintenance
                  else VcpuRun.LineFault(refusal.value.esr, refusal.value.far.value);
    }
  }

  /** The fault address names a byte of the 64-byte block around `addr`, with or without its tag. */
  ghost predicate InItsBlock(c: Control, addr: u64, far: u64) {
    exists v: u64 :: v / 64 == addr / 64 && (far == v || far == StripTag(c, v))
  }

  /** A refused DC ZVA: an alignment fault at the address itself, or a fault at a byte of its block. */
  lemma LineRefusalNames(t: Tlb, c: Control, m: Ram, el: El, addr: u64)
    requires Shaped(t)
    ensures
      var refusal := LineRefusal(t, c, m, el, addr);
      && (refusal.Some? ==> refusal.value.far.Some?)
      && (addr % 8 != 0 && el < 3 ==> refusal == Some(FaultRecord(Syn(Access(el, true, false), 0x21), Some(addr))))
      && (addr % 8 == 0 && refusal.Some? ==> InItsBlock(c, addr, refusal.value.far.value))
  {
    hide ProbeFrom, Shaped, LineOf, Syndrome, Syn;
    var acc := Access(el, true, false);
    if el < 3 {
      SyndromeIs(acc, Alignment, -1);
    }
    if addr % 8 == 0 && ProbeFrom(t, c, m, LineOf(addr), 0, LINE, acc, WRITE).refusal.Some? {
      var record := ProbeFrom(t, c, m, LineOf(addr), 0, LINE, acc, WRITE).refusal.value;
      ProbeNames(t, c, m, LineOf(addr), 0, LINE, acc, WRITE);
      var j: nat :|
        j < LINE &&
        (record.far == Some(At(LineOf(addr), j)) || record.far == Some(StripTag(c, At(LineOf(addr), j))));
      InBlock(addr, LineOf(addr) + j);
      assert At(LineOf(addr), j) == LineOf(addr) + j;
    }
  }

  /** What an invalidation is for: after one, every access to every address is answered by today's tables. */
  lemma InvalidationMakesCurrent(t: Tlb, c: Control, m: Ram, va: u64)
    requires Shaped(t)
    ensures AnswersAsWalk(Flush(t), c, m, va)
  {
    hide Resolve, AnswersAsWalk, SameView;
    AnswersAreCurrentExactly(Flush(t), c, m, va);
    assert !Live(Prime(Flush(t), c).entries, StripTag(c, va));
  }
}
