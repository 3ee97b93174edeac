/** Exclusive pairs as the guest sees them: by the 0 its status register reads. */
module GuestPairs {
  import opened Words
  import opened FlatMemory
  import opened GuestMemory
  import opened ExclusiveMonitor
  import opened RegisterFile
  import opened TranslatedTransfer
  import opened AtomicPairs
  import opened Executor

  /** What user mode has: its registers, the memory, and the monitor. */
  datatype Machine = Machine(regs: Regs, world: World)

  /** One dispatched instruction: a fault changes nothing. */
  ghost predicate Dispatched(s: Machine, insn: Insn, s': Machine)
    requires WellFormedInsn(insn)
  {
    || s' == s
    || (!IsMemory(insn.op) && s'.world == s.world)
    || (IsMemory(insn.op) && Completes(s, insn, s'))
  }

  ghost predicate Completes(s: Machine, insn: Insn, s': Machine)
    requires IsMemory(insn.op) && WellFormedInsn(insn)
  {
    var after := Perform(s.world, AccessOf(s.regs, insn));
    after.1.status == OK && s'.world == after.0
    && s'.regs == Stepped(Retired(s.regs, insn, s.world.ram, after.1.stored))
  }

  method DispatchIsStep(hart: Hart, insn: Insn) returns (s: Status)
    requires hart.Valid() && WellFormedInsn(insn)
    modifies hart`regs, hart`monitor, hart.bus`view, hart.bus.hosts
    ensures hart.Valid()
    ensures Dispatched(Machine(old(hart.regs), old(hart.Now())), insn, Machine(hart.regs, hart.Now()))
    ensures IsMemory(insn.op) && s == OK ==>
              Completes(Machine(old(hart.regs), old(hart.Now())), insn, Machine(hart.regs, hart.Now()))
  {
    hide Perform, AccessOf, Retired, Effect, StatusTells, StoredIf;
    s := hart.Dispatch(insn);
  }

  /** A program in user mode, instruction by instruction. */
  ghost predicate Trace(states: seq<Machine>, insns: seq<Insn>) {
    && |states| == |insns| + 1
    && forall k :: 0 <= k < |insns| ==> WellFormedInsn(insns[k]) && Dispatched(states[k], insns[k], states[k + 1])
  }

  /** A store the monitor hears of and whose range does not wrap: anything but a sixteen-byte STR or STUR. */
  predicate Heard(s: Machine, insn: Insn)
    requires WellFormedInsn(insn)
  {
    IsMemory(insn.op) && insn.op != Stxr && IsStore(insn.op) ==>
      && !IsSingleVector(insn)
      && Address(s.regs, insn) + insn.size * (if IsPair(insn.op) then 2 else 1) <= TWO64
  }

  lemma HeardIsClear(s: Machine, insn: Insn)
    requires WellFormedInsn(insn) && IsMemory(insn.op) && Heard(s, insn)
    ensures Clear(s.world, AccessOf(s.regs, insn))
  {
    hide Address, Read, Perform, Clear;
    var a := AccessOf(s.regs, insn);
    if a.Stores? {
      HeardStore(s, insn);
      NotedIsClear(s.world, a);
    } else {
      NoStoreIsClear(s.world, a);
    }
  }

  lemma NoStoreIsClear(w: World, a: BusAccess)
    requires WellSized(a) && !a.Stores?
    ensures Clear(w, a)
  {
  }

  lemma HeardStore(s: Machine, insn: Insn)
    requires WellFormedInsn(insn) && IsMemory(insn.op) && Heard(s, insn) && AccessOf(s.regs, insn).Stores?
    ensures
      var a := AccessOf(s.regs, insn);
      a.noted && a.addr + a.n * |a.values| <= TWO64
  {
    hide Address, Read;
  }

  /** A reservation that survives an instruction other than LDXR stands on the same bytes as before. */
  lemma SurvivesStep(s: Machine, insn: Insn, s': Machine)
    requires WellFormedInsn(insn) && Dispatched(s, insn, s') && insn.op != Ldxr && Heard(s, insn)
    requires s'.world.monitor.valid
    ensures s'.world.monitor == s.world.monitor && Watched(s'.world) == Watched(s.world)
  {
    hide Perform, Address, Retired, Watched, Clear, Heard;
    if IsMemory(insn.op) && s' != s {
      HeardIsClear(s, insn);
      ReservationStep(s.world, AccessOf(s.regs, insn));
    }
  }

  lemma {:induction false} SurvivesSince(states: seq<Machine>, insns: seq<Insn>, i: nat, j: nat)
    requires Trace(states, insns) && i <= j <= |insns| && states[j].world.monitor.valid
    requires forall k :: i <= k < j ==> insns[k].op != Ldxr && Heard(states[k], insns[k])
    ensures states[j].world.monitor == states[i].world.monitor && Watched(states[j].world) == Watched(states[i].world)
    decreases j
  {
    hide Dispatched, Watched, Heard;
    if i < j {
      SurvivesStep(states[j - 1], insns[j - 1], states[j]);
      SurvivesSince(states, insns, i, j - 1);
    }
  }

  /** What a completed LDXR leaves: the reservation on its range, and the value it read in its register. */
  lemma LoadLeaves(s: Machine, insn: Insn, s': Machine)
    requires insn.op == Ldxr && WellFormedInsn(insn) && Completes(s, insn, s')
    ensures
      var addr := if insn.rn == 31 then s.regs.sp else s.regs.x[insn.rn];
      && s'.world == World(Monitor(addr, insn.size, true), s.world.ram)
      && (insn.rd != 31 ==>
            s'.regs.x[insn.rd] == Narrow(LittleEndian(Bytes(s.world.ram.data, addr, insn.size)) % TWO64, insn.w32))
  {
    hide Bytes, LittleEndian, Covered, Address;
    var addr := if insn.rn == 31 then s.regs.sp else s.regs.x[insn.rn];
    assert Piece(addr, 0, insn.size) == addr;
    TransferFits(insn.size);
    LittleEndianBound(Bytes(s.world.ram.data, addr, insn.size));
    assert AccessOf(s.regs, insn) == LoadExclusive(addr, insn.size);
  }

  /** What a completed STXR tells: 0 where the reservation stood on its range, 1 where it did not. */
  lemma StoreTells(s: Machine, insn: Insn, s': Machine)
    requires insn.op == Stxr && insn.rm != 31 && WellFormedInsn(insn) && Completes(s, insn, s')
    ensures s'.regs.x[insn.rm] == 0 || s'.regs.x[insn.rm] == 1
    ensures s'.regs.x[insn.rm] == 0 <==> Stood(s.world.monitor, s.regs, insn)
    ensures s'.regs.x[insn.rm] == 1 ==> s'.world.ram == s.world.ram
    ensures !s'.world.monitor.valid
  {
    hide AccessOf, Retired, Delivered, ToBytes, Covered, Put;
    StatusMeans(s.regs, insn, s.world.monitor);
  }

  /** The guest's own view of an atomic update, over any run of its instructions: LDXR read `v`, the STXR that answers
      it reads back 0, no other LDXR came between, and every store between was one the monitor hears of. Then the two
      name one range, and at the moment the STXR replaced it memory still held the value the LDXR read. */
  lemma ZeroMeansUnchanged(states: seq<Machine>, insns: seq<Insn>, i: nat, j: nat)
    requires Trace(states, insns) && i < j < |insns| && insns[i].op == Ldxr && insns[j].op == Stxr
    requires Completes(states[i], insns[i], states[i + 1]) && Completes(states[j], insns[j], states[j + 1])
    requires forall k :: i < k < j ==> insns[k].op != Ldxr && Heard(states[k], insns[k])
    requires insns[j].rm != 31 && states[j + 1].regs.x[insns[j].rm] == 0
    ensures
      var load, store := insns[i], insns[j];
      var addr := if store.rn == 31 then states[j].regs.sp else states[j].regs.x[store.rn];
      && addr == (if load.rn == 31 then states[i].regs.sp else states[i].regs.x[load.rn]) && store.size == load.size
      && Bytes(states[j].world.ram.data, addr, store.size) == Bytes(states[i].world.ram.data, addr, load.size)
      && (load.rd != 31 ==>
            states[i + 1].regs.x[load.rd]
            == Narrow(LittleEndian(Bytes(states[j].world.ram.data, addr, store.size)) % TWO64, load.w32))
  {
    hide Completes, Dispatched, Heard, Bytes, LittleEndian;
    LoadLeaves(states[i], insns[i], states[i + 1]);
    StoreTells(states[j], insns[j], states[j + 1]);
    SurvivesSince(states, insns, i + 1, j);
    assert WellFormedInsn(insns[i]);
  }

  /** With nothing but loads, arithmetic and branches between them a pair never fails: the STXR reads back 0. */
  lemma QuietPairSucceeds(states: seq<Machine>, insns: seq<Insn>, i: nat, j: nat)
    requires Trace(states, insns) && i < j < |insns| && insns[i].op == Ldxr && insns[j].op == Stxr
    requires Completes(states[i], insns[i], states[i + 1]) && Completes(states[j], insns[j], states[j + 1])
    requires forall k :: i < k < j ==> insns[k].op != Ldxr && !(IsMemory(insns[k].op) && IsStore(insns[k].op))
    requires (if insns[i].rn == 31 then states[i].regs.sp else states[i].regs.x[insns[i].rn])
          == (if insns[j].rn == 31 then states[j].regs.sp else states[j].regs.x[insns[j].rn])
    requires insns[i].size == insns[j].size && insns[j].rm != 31
    ensures states[j + 1].regs.x[insns[j].rm] == 0
  {
    hide Completes, Dispatched;
    LoadLeaves(states[i], insns[i], states[i + 1]);
    StoreTells(states[j], insns[j], states[j + 1]);
    QuietKeeps(states, insns, i + 1, j);
    assert WellFormedInsn(insns[i]);
  }

  lemma QuietStep(s: Machine, insn: Insn, s': Machine)
    requires WellFormedInsn(insn) && Dispatched(s, insn, s') && insn.op != Ldxr
    requires !(IsMemory(insn.op) && IsStore(insn.op))
    ensures s'.world == s.world
  {
    hide Address, Retired, AllGranted;
  }

  lemma {:induction false} QuietKeeps(states: seq<Machine>, insns: seq<Insn>, i: nat, j: nat)
    requires Trace(states, insns) && i <= j <= |insns|
    requires forall k :: i <= k < j ==> insns[k].op != Ldxr && !(IsMemory(insns[k].op) && IsStore(insns[k].op))
    ensures states[j].world == states[i].world
    decreases j
  {
    hide Dispatched;
    if i < j {
      QuietStep(states[j - 1], insns[j - 1], states[j]);
      QuietKeeps(states, insns, i, j - 1);
    }
  }

  /** The sixteen-byte STR is the one store the monitor never hears of; every other form that meets the reserved range
      ends the reservation. */
  lemma WhoIsHeard(s: Machine, insn: Insn, s': Machine)
    requires WellFormedInsn(insn) && IsMemory(insn.op) && IsStore(insn.op) && insn.op != Stxr && Completes(s, insn, s')
    ensures IsSingleVector(insn) ==> s'.world.monitor == s.world.monitor
    ensures !IsSingleVector(insn) ==>
              var addr, length := Address(s.regs, insn), insn.size * (if insn.op == Stp then 2 else 1);
              var meets := s.world.monitor.addr < addr + length && addr < s.world.monitor.addr + s.world.monitor.size;
              s'.world.monitor == s.world.monitor.(valid := s.world.monitor.valid && !meets)
  {
    hide Address, Retired, AllGranted, StoreAll;
  }

  // ----- the same, under translation and among threads -----

  /** In any interleaving: an STXR that reads back 0 is the successful half of a pair, and what its success vouches for
      is exact; one that reads back 1 has left memory as it was. */
  lemma ZeroIsSoundExactly(w: World, steps: seq<Placing>, i: nat, j: nat, r: Regs, r': Regs, insn: Insn, m': Ram,
          mon': Monitor, pas: seq<u64>)
    requires AllFormed(steps) && i < j < |steps| && steps[i].access.LoadExclusive?
    requires insn.op == Stxr && insn.rm != 31 && WellFormedInsn(insn) && steps[j].access == AccessOf(r, insn)
    requires Completed(Ran(w, steps[..j]).ram, m', r, r', insn, Ran(w, steps[..j]).monitor, mon', pas)
    requires forall p :: p in steps[i].places ==> p in w.ram.data
    ensures r'.x[insn.rm] == 0 || r'.x[insn.rm] == 1
    ensures r'.x[insn.rm] == 1 ==> m' == Ran(w, steps[..j]).ram
    ensures r'.x[insn.rm] == 0 <==> Pairs(w, steps, i, j)
    ensures r'.x[insn.rm] == 0 ==>
              (AlwaysStands(w, steps, i, j, steps[i].places) <==> Untouched(w, steps, i + 1, j, steps[i].places))
  {
    hide Ran, AlwaysStands, Untouched, AccessOf, Delivered;
    StatusMeans(r, insn, Ran(w, steps[..j]).monitor);
    if r'.x[insn.rm] == 0 {
      PairIsSoundExactly(w, steps, i, j);
    }
  }
}
