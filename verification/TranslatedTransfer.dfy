/** Memory instructions under translation: registers, memory, reservation and writeback move together or not at all,
    and a refusal is delivered with the syndrome of the walk that made it. */
module TranslatedTransfer {
  import opened Words
  import opened FlatMemory
  import opened Translation
  import opened TranslationCache
  import opened BusSpec
  import opened MmuBus
  import opened PairAccess
  import opened ExclusiveMonitor
  import opened RegisterFile
  import opened ExceptionCore
  import ExceptionState

  predicate IsWrite(a: BusAccess) {
    a.Stores? || a.StoreExclusive?
  }

  function RunLength(a: BusAccess): nat {
    match a
    case Stores(_, _, values, _) => |values|
    case Loads(_, _, count) => count
    case _ => 1
  }

  function RunNeed(a: BusAccess): Perms {
    if IsWrite(a) then WRITE else READ
  }

  function TranslationAccess(el: El, a: BusAccess): Translation.Access {
    Translation.Access(el, IsWrite(a), false)
  }

  function StoredValues(a: BusAccess): seq<u64> {
    match a
    case Stores(_, _, values, _) => values
    case StoreExclusive(_, _, value) => [value]
    case _ => []
  }

  /** Does the access reach memory? An exclusive store without its reservation stops after validation. */
  predicate Moves(a: BusAccess, monitor: Monitor) {
    a.StoreExclusive? ==> Reserved(monitor, a.addr, a.n)
  }

  /** What validation refuses, before anything moves. */
  function InsnRefusal(t: Tlb, c: Control, m: Ram, el: El, a: BusAccess): Option<FaultRecord>
    requires Shaped(t)
  {
    RunRefusal(t, c, m, a.addr, RunLength(a), a.n, TranslationAccess(el, a), RunNeed(a))
  }

  lemma RunShape(r: Regs, insn: Insn)
    requires IsMemory(insn.op) && WellFormedInsn(insn)
    ensures
      var a := AccessOf(r, insn);
      && TransferSize(a.n) && 0 < RunLength(a) && RunLength(a) * a.n <= LONGEST
      && LoadedPieces(a) == (if IsWrite(a) then 0 else RunLength(a))
      && |StoredValues(a)| == (if IsWrite(a) then RunLength(a) else 0)
  {
    hide Address, Read;
  }

  /** `values` are the pieces of a load, each read where the run translated. */
  ghost predicate AllLoaded(m: Ram, pas: seq<u64>, values: seq<u64>, n: nat, signed: bool) {
    forall k :: 0 <= k < |values| ==> PieceLoaded(m, pas, values, k, n, signed)
  }

  /** The memory after the stores of an access whose bytes are at `pas`. */
  ghost predicate Moved(m: Ram, m': Ram, a: BusAccess, monitor: Monitor, pas: seq<u64>) {
    if IsWrite(a) && Moves(a, monitor) then
      |pas| == |StoredValues(a)| * a.n && Landed(m, m', pas, RunBytes(StoredValues(a), a.n))
    else m' == m
  }

  /** The registers after an instruction, loads taken from `pas`. */
  ghost predicate RegistersMoved(m: Ram, r: Regs, r': Regs, insn: Insn, monitor: Monitor, pas: seq<u64>)
    requires IsMemory(insn.op) && WellFormedInsn(insn)
  {
    var a := AccessOf(r, insn);
    exists values {:trigger AllLoaded(m, pas, values, a.n, Signs(insn))} ::
      && |values| == LoadedPieces(a) && AllLoaded(m, pas, values, a.n, Signs(insn))
      && r' == Delivered(r, insn, values, Moves(a, monitor))
  }

  /** Everything a completed instruction leaves behind. */
  ghost predicate Completed(m: Ram, m': Ram, r: Regs, r': Regs, insn: Insn, monitor: Monitor, monitor': Monitor,
          pas: seq<u64>)
    requires IsMemory(insn.op) && WellFormedInsn(insn)
  {
    && Moved(m, m', AccessOf(r, insn), monitor, pas) && RegistersMoved(m, r, r', insn, monitor, pas)
    && monitor' == MonitorAfter(monitor, AccessOf(r, insn))
  }

  /** `pas` is where the bytes of the access translated before it. */
  ghost predicate Placed(t: Tlb, c: Control, m: Ram, el: El, a: BusAccess, monitor: Monitor, pas: seq<u64>)
    requires Shaped(t)
  {
    Moves(a, monitor) ==>
      |pas| == RunLength(a) * a.n && Located(t, c, m, a.addr, TranslationAccess(el, a), RunNeed(a), pas)
  }

  /** The instruction as a whole, for every memory form: all pieces, the reservation, the registers and the base
      register, or nothing; the host abort exactly when the alignment policy refuses a misaligned access that
      validation let through. */
  method Execute(mmu: Mmu, monitor: Monitor, regs: Regs, insn: Insn)
    returns (r: Transfer, after: Regs, monitor': Monitor, ghost pas: seq<u64>)
    requires mmu.Valid() && IsMemory(insn.op) && WellFormedInsn(insn)
    modifies mmu`epoch, mmu`hits, mmu`misses, mmu`flushes, mmu`fault, mmu.tlb, mmu.bus`view, mmu.bus.hosts
    ensures mmu.Valid()
    ensures
      var a := AccessOf(regs, insn);
      var refusal := InsnRefusal(old(mmu.State()), mmu.control, old(mmu.bus.view), mmu.el, a);
      && (r == Faulted <==> refusal.Some?)
      && (r != Faulted ==>
            (r == Aborted <==> Moves(a, monitor) && a.addr % a.n != 0 && AlignmentRequired(mmu.control, mmu.el)))
      && mmu.fault == RecordAfter(r, old(mmu.fault), refusal, mmu.el, IsWrite(a), a.addr)
    ensures r != Committed ==> after == regs && monitor' == monitor && mmu.bus.view == old(mmu.bus.view)
    ensures r == Committed ==>
              && Completed(old(mmu.bus.view), mmu.bus.view, regs, after, insn, monitor, monitor', pas)
              && Placed(old(mmu.State()), mmu.control, old(mmu.bus.view), mmu.el, AccessOf(regs, insn), monitor, pas)
    ensures r == Committed && insn.op == Stxr ==>
              && StatusTells(regs, after, insn, Stood(monitor, regs, insn))
              && StoredAt(Stood(monitor, regs, insn), old(mmu.bus.view), mmu.bus.view, regs, insn, pas)
  {
    hide AccessOf, Shaped, ProbeRun, Located, Landed, AlignmentRequired, Delivered, PieceLoaded, Noted, RunBytes;
    RunShape(regs, insn);
    var a := AccessOf(regs, insn);
    after, monitor', pas := regs, monitor, [];
    var values := [];
    if a.StoreExclusive? && !Reserved(monitor, a.addr, a.n) {
      var s := ValidateRun(mmu, a.addr, 1, a.n, WRITE);
      r := if s == OK then Committed else Faulted;
    } else if IsWrite(a) {
      r, pas := StoreRun(mmu, a.addr, a.n, if a.Stores? then a.values else [a.value]);
    } else {
      r, values, pas := LoadRun(mmu, a.addr, if a.Loads? then a.count else 1, a.n, Signs(insn));
    }
    if r == Committed {
      assert AllLoaded(old(mmu.bus.view), pas, values, a.n, Signs(insn));
      after := Delivered(regs, insn, values, Moves(a, monitor));
      monitor' := MonitorAfter(monitor, a);
      if insn.op == Stxr {
        StatusMeans(regs, insn, monitor);
        OneWordBytes(a.value, a.n);
      }
    }
  }

  /** If it stood, the places of the range hold the stored bytes now and nothing else has changed; if not, nothing
      has. */
  ghost predicate StoredAt(stood: bool, m: Ram, m': Ram, r: Regs, insn: Insn, pas: seq<u64>) {
    if stood then |pas| == insn.size && Landed(m, m', pas, ToBytes(Read(r, insn.rd, insn.w32), insn.size)) else m' == m
  }

  lemma OneWordBytes(v: u64, n: nat)
    ensures RunBytes([v], n) == ToBytes(v, n)
  {
    hide ToBytes;
    assert [v][..0] == [];
  }

  // ----- the syndrome delivered -----

  /** A probe's refusal is the syndrome of the access, and names a byte of its range. */
  ghost predicate Names(record: FaultRecord, c: Control, acc: Translation.Access, addr: u64, from: int, to: int) {
    exists j: nat, cls, level ::
      && from <= j < to && LevelInRange(cls, level) && record.esr == Syndrome(acc, cls, level)
      && (record.far == Some(At(addr, j)) || record.far == Some(StripTag(c, At(addr, j))))
  }

  lemma RefusedNames(t: Tlb, c: Control, m: Ram, va: u64, acc: Translation.Access)
    requires Shaped(t) && Translate(t, c, m, va, acc).answer.Refused?
    ensures
      var answer := Translate(t, c, m, va, acc).answer;
      && answer.far == StripTag(c, va)
      && exists cls, level :: LevelInRange(cls, level) && answer.esr == Syndrome(acc, cls, level)
  {
    hide Resolve, Syndrome;
  }

  lemma {:induction false} ProbeNames(t: Tlb, c: Control, m: Ram, va: u64, off: nat, size: nat,
          acc: Translation.Access, need: Perms)
    requires Shaped(t) && off <= size && ProbeFrom(t, c, m, va, off, size, acc, need).refusal.Some?
    ensures Names(ProbeFrom(t, c, m, va, off, size, acc, need).refusal.value, c, acc, va, off, size)
    decreases size - off
  {
    hide Translate, Covered, Shaped, At, Syndrome, StripTag, ChunkAt;
    var a := At(va, off);
    var o := Translate(t, c, m, a, acc);
    if o.answer.Refused? {
      RefusedNames(t, c, m, a, acc);
    } else if !Covered(m.regions, o.answer.pa, ChunkAt(va, off, size), need) {
      assert LevelInRange(NoWalk, -1);
    } else {
      ProbeNames(o.tlb, c, m, va, off + ChunkAt(va, off, size), size, acc, need);
    }
  }

  lemma {:induction false} RunNames(t: Tlb, c: Control, m: Ram, addr: u64, k: nat, count: nat, n: nat,
          acc: Translation.Access, need: Perms)
    requires Shaped(t) && k <= count && ProbeRun(t, c, m, addr, k, count, n, acc, need).refusal.Some?
    ensures Names(ProbeRun(t, c, m, addr, k, count, n, acc, need).refusal.value, c, acc, addr, k * n, count * n)
    decreases count - k
  {
    hide ProbeFrom, Shaped, At, Syndrome, StripTag;
    PieceInRun(k, count, n);
    var base := At(addr, k * n);
    var p := ProbeFrom(t, c, m, base, 0, n, acc, need);
    if p.refusal.Some? {
      ProbeNames(t, c, m, base, 0, n, acc, need);
      var j: nat, cls, level :|
        && 0 <= j < n && LevelInRange(cls, level) && p.refusal.value.esr == Syndrome(acc, cls, level)
        && (p.refusal.value.far == Some(At(base, j)) || p.refusal.value.far == Some(StripTag(c, At(base, j))));
      AtAt(addr, k * n, j);
      assert k * n <= k * n + j < count * n;
    } else {
      RunNames(p.tlb, c, m, addr, k + 1, count, n, acc, need);
    }
  }

  /** A refused instruction's record is the syndrome of its access and names one of its bytes. */
  lemma InsnNames(t: Tlb, c: Control, m: Ram, el: El, a: BusAccess)
    requires Shaped(t)
    ensures
      var refusal := InsnRefusal(t, c, m, el, a);
      refusal.Some? ==> Names(refusal.value, c, TranslationAccess(el, a), a.addr, 0, RunLength(a) * a.n)
  {
    hide ProbeRun, Names, Shaped;
    if InsnRefusal(t, c, m, el, a).Some? {
      RunNames(t, c, m, a.addr, 0, RunLength(a), a.n, TranslationAccess(el, a), RunNeed(a));
    }
  }

  /** One memory instruction of the system-mode step: it completes, or the exception of the level is taken with the
      recorded syndrome, which is that of the refused walk, and nothing else has moved. */
  method ExecuteOrDeliver(mmu: Mmu, core: Core, monitor: Monitor, regs: Regs, insn: Insn)
    returns (r: Transfer, after: Regs, monitor': Monitor, ghost pas: seq<u64>)
    requires mmu.Valid() && IsMemory(insn.op) && WellFormedInsn(insn) && mmu.el == core.pstate.el
    modifies mmu`epoch, mmu`hits, mmu`misses, mmu`flushes, mmu`fault, mmu.tlb, mmu.bus`view, mmu.bus.hosts
    modifies core`pc, core`sp, core`pstate, core`spEl, core`elr, core`spsr, core`esr, core`far
    ensures mmu.Valid()
    ensures
      var a := AccessOf(regs, insn);
      var refusal := InsnRefusal(old(mmu.State()), mmu.control, old(mmu.bus.view), mmu.el, a);
      && (r == Faulted <==> refusal.Some?)
      && (r == Faulted ==>
            && Names(refusal.value, mmu.control, TranslationAccess(mmu.el, a), a.addr, 0, RunLength(a) * a.n)
            && core.View() == ExceptionState.Taken(old(core.View()), ExceptionState.Sync, ExceptionState.Route(mmu.el),
                                                   refusal.value.esr, refusal.value.far))
    ensures r == Faulted ==> after == regs && monitor' == monitor && mmu.bus.view == old(mmu.bus.view) &&
                             mmu.fault == None
    ensures r != Faulted ==> core.View() == old(core.View())
    ensures r == Committed ==>
              && Completed(old(mmu.bus.view), mmu.bus.view, regs, after, insn, monitor, monitor', pas)
              && Placed(old(mmu.State()), mmu.control, old(mmu.bus.view), mmu.el, AccessOf(regs, insn), monitor, pas)
  {
    hide AccessOf, Shaped, Names, Completed, Placed, ExceptionState.Taken, InsnRefusal, Moves, AlignmentRequired;
    hide TranslationAccess, WellFormedInsn;
    ghost var t, m, a := mmu.State(), mmu.bus.view, AccessOf(regs, insn);
    r, after, monitor', pas := Execute(mmu, monitor, regs, insn);
    if r == Faulted {
      InsnNames(t, mmu.control, m, mmu.el, a);
      var record := mmu.TakeFault();
      core.Take(ExceptionState.Sync, ExceptionState.Route(core.pstate.el), record.value.esr, record.value.far);
    }
  }
}
