/** What a region's permissions do, in terms of its own fields: who is served, who is refused, and that nothing ever
    writes what is not writable. */
module Permissions {
  import opened Words
  import opened FlatMemory
  import opened GuestMemory
  import opened ExclusiveMonitor
  import opened BusSpec
  import opened MmuBus
  import opened Translation
  import opened TranslationCache
  import opened PairAccess
  import opened RegisterFile
  import opened TranslatedTransfer
  import Executor
  import SystemInstructions
  import VcpuRun

  /** Region `i` contains the whole range. */
  predicate Contains(rs: seq<Region>, i: int, a: int, n: int) {
    0 <= i < |rs| && rs[i].base <= a && a + n <= rs[i].base + rs[i].size
  }

  /** A store is served exactly when one region contains its range and is writable. */
  lemma StoreNeedsWrite(m: Ram, a: int, n: nat, v: nat)
    ensures Store(m, a, n, v).Some? <==> exists i :: Contains(m.regions, i, a, n) && m.regions[i].perms.write
  {
    if Store(m, a, n, v).Some? {
      var i :| 0 <= i < |m.regions| && Covers(m.regions[i], a, n, WRITE);
      assert Contains(m.regions, i, a, n);
    }
    if i :| Contains(m.regions, i, a, n) && m.regions[i].perms.write {
      assert Covers(m.regions[i], a, n, WRITE);
    }
  }

  /** A load, when one region contains its range and is readable. */
  lemma LoadNeedsRead(m: Ram, a: int, n: nat)
    ensures Load(m, a, n).Some? <==> exists i :: Contains(m.regions, i, a, n) && m.regions[i].perms.read
  {
    if Load(m, a, n).Some? {
      var i :| 0 <= i < |m.regions| && Covers(m.regions[i], a, n, READ);
      assert Contains(m.regions, i, a, n);
    }
    if i :| Contains(m.regions, i, a, n) && m.regions[i].perms.read {
      assert Covers(m.regions[i], a, n, READ);
    }
  }

  /** Any request, when one region contains the range and has every permission asked for. */
  lemma RequestNeedsAll(rs: seq<Region>, a: int, n: nat, p: Perms)
    ensures Covered(rs, a, n, p) <==>
            exists i :: Contains(rs, i, a, n) && (p.read ==> rs[i].perms.read) && (p.write ==> rs[i].perms.write)
                        && (p.exec ==> rs[i].perms.exec)
  {
    if Covered(rs, a, n, p) {
      var i :| 0 <= i < |rs| && Covers(rs[i], a, n, p);
      assert Contains(rs, i, a, n);
    }
    if i :| Contains(rs, i, a, n) && (p.read ==> rs[i].perms.read) && (p.write ==> rs[i].perms.write)
            && (p.exec ==> rs[i].perms.exec)
    {
      assert Covers(rs[i], a, n, p);
    }
  }

  /** In a legal table a range lies in one region at most, so what that region lacks is refused. */
  lemma LackIsRefused(rs: seq<Region>, i: nat, a: int, n: nat, p: Perms)
    requires LegalTable(rs) && n > 0 && Contains(rs, i, a, n)
    requires (p.read && !rs[i].perms.read) || (p.write && !rs[i].perms.write) || (p.exec && !rs[i].perms.exec)
    ensures !Covered(rs, a, n, p)
  {
    forall j | 0 <= j < |rs| ensures !Covers(rs[j], a, n, p) {
      assert i < j ==> Apart(rs[i], rs[j]);
      assert j < i ==> Apart(rs[j], rs[i]);
    }
  }

  /** The table's own verdicts, for every request. */
  method ValidateByRights(mem: AddressSpace, a: u64, size: u64, p: Perms) returns (s: Status)
    requires mem.Valid()
    ensures s == OK || s == (if size == 0 then INVALID_ARG else FAULT)
    ensures s == OK <==>
            size > 0 && exists i :: Contains(mem.regions, i, a, size) && (p.read ==> mem.regions[i].perms.read)
                                    && (p.write ==> mem.regions[i].perms.write)
                                    && (p.exec ==> mem.regions[i].perms.exec)
  {
    RequestNeedsAll(mem.regions, a, size, p);
    s := mem.Validate(a, size, p);
  }

  /** Region `i` contains the range and may be written, or read. */
  predicate Serves(rs: seq<Region>, i: int, a: int, n: int, write: bool) {
    Contains(rs, i, a, n) && if write then rs[i].perms.write else rs[i].perms.read
  }

  ghost predicate Reaches(rs: seq<Region>, a: int, n: int, write: bool) {
    exists i :: Serves(rs, i, a, n, write)
  }

  /** A memory instruction completes exactly when every piece it moves lies in one region with the right it needs, read
      for a load and write for a store; a refused one leaves memory and reservation alone. */
  lemma AccessNeeds(w: World, a: BusAccess)
    requires WellSized(a)
    ensures
      var rs, after, write := w.ram.regions, Perform(w, a), a.Stores? || a.StoreExclusive?;
      && (after.1.status == OK <==>
            forall k :: 0 <= k < RunLength(a) ==> Reaches(rs, Piece(a.addr, k, a.n), a.n, write))
      && (after.1.status != OK ==> after.1.status == FAULT && after.0 == w)
  {
    hide Put, ToBytes, StoreAll, Covered, Reaches, Piece;
    var rs, write := w.ram.regions, a.Stores? || a.StoreExclusive?;
    var p := if write then WRITE else READ;
    forall k | 0 <= k < RunLength(a)
      ensures Covered(rs, Piece(a.addr, k, a.n), a.n, p) <==> Reaches(rs, Piece(a.addr, k, a.n), a.n, write)
    {
      OneRight(rs, Piece(a.addr, k, a.n), a.n, write);
    }
    assert Piece(a.addr, 0, a.n) == a.addr by { FirstPiece(a.addr, a.n); }
  }

  lemma FirstPiece(addr: u64, n: nat)
    ensures Piece(addr, 0, n) == addr
  {
  }

  lemma OneRight(rs: seq<Region>, a: int, n: nat, write: bool)
    ensures Covered(rs, a, n, if write then WRITE else READ) <==>
            Reaches(rs, a, n, write)
  {
    if Covered(rs, a, n, if write then WRITE else READ) {
      var i :| 0 <= i < |rs| && Covers(rs[i], a, n, if write then WRITE else READ);
      assert Serves(rs, i, a, n, write);
    }
    if i :| Serves(rs, i, a, n, write) {
      assert Covers(rs[i], a, n, if write then WRITE else READ);
    }
  }

  // ----- nothing writes what is not writable -----

  ghost predicate Writable(rs: seq<Region>, x: int) {
    exists i :: Contains(rs, i, x, 1) && rs[i].perms.write
  }

  /** The layout is the same, and a byte that changed was writable. */
  ghost predicate WritesOnlyWritable(m: Ram, m': Ram) {
    && m'.regions == m.regions && m'.data.Keys == m.data.Keys
    && forall x :: x in m.data && m'.data[x] != m.data[x] ==> Writable(m.regions, x)
  }

  lemma SpareTrans(m: Ram, m1: Ram, m2: Ram)
    requires WritesOnlyWritable(m, m1) && WritesOnlyWritable(m1, m2)
    ensures WritesOnlyWritable(m, m2)
  {
  }

  lemma CoveredWritable(rs: seq<Region>, a: int, n: nat, x: int)
    requires Covered(rs, a, n, WRITE) && a <= x < a + n
    ensures Writable(rs, x)
  {
    var i :| 0 <= i < |rs| && Covers(rs[i], a, n, WRITE);
    assert Contains(rs, i, x, 1);
  }

  lemma StoreSpares(m: Ram, a: int, n: nat, v: nat)
    requires Store(m, a, n, v).Some?
    ensures WritesOnlyWritable(m, Store(m, a, n, v).value)
  {
    hide ToBytes, Covered, Writable;
    var m' := Store(m, a, n, v).value;
    forall x | x in m.data && m'.data[x] != m.data[x] ensures Writable(m.regions, x) {
      CoveredWritable(m.regions, a, n, x);
    }
  }

  lemma LandedSpares(t: Tlb, c: Control, m: Ram, m': Ram, va: u64, acc: Access, pas: seq<u64>, bs: seq<u8>)
    requires TranslationCache.Shaped(t) && |pas| == |bs|
    requires Located(t, c, m, va, acc, WRITE, pas) && Landed(m, m', pas, bs)
    ensures WritesOnlyWritable(m, m')
  {
    hide Covered, Writable, AskByte;
    forall x | x in m.data && m'.data[x] != m.data[x] ensures Writable(m.regions, x) {
      var i :| 0 <= i < |pas| && pas[i] == x;
      assert Covered(m.regions, pas[i], 1, WRITE);
      CoveredWritable(m.regions, pas[i], 1, x);
    }
  }

  /** A run of granted stores. */
  lemma {:induction false} StoreAllSpares(m: Ram, addr: u64, n: nat, values: seq<u64>)
    requires AllGranted(m.regions, addr, n, |values|, WRITE)
    ensures WritesOnlyWritable(m, StoreAll(m, addr, n, values))
  {
    hide Covered, Piece, ToBytes, Writable;
    if values != [] {
      var last := |values| - 1;
      var before := StoreAll(m, addr, n, values[..last]);
      StoreAllSpares(m, addr, n, values[..last]);
      assert Covered(m.regions, Piece(addr, last, n), n, WRITE);
      StoreSpares(before, Piece(addr, last, n), n, values[last]);
      SpareTrans(m, before, StoreAll(m, addr, n, values));
    }
  }

  lemma PerformSpares(w: World, a: BusAccess)
    requires WellSized(a)
    ensures WritesOnlyWritable(w.ram, Perform(w, a).0.ram)
  {
    hide Covered, ToBytes, StoreAll, AllGranted, Writable;
    if a.Stores? && AllGranted(w.ram.regions, a.addr, a.n, |a.values|, WRITE) {
      StoreAllSpares(w.ram, a.addr, a.n, a.values);
    } else if a.StoreExclusive? && Covered(w.ram.regions, a.addr, a.n, WRITE) {
      StoreSpares(w.ram, a.addr, a.n, a.value);
    }
  }

  /** Over every run of accesses of the flat bus no byte of a read-only region changes. */
  lemma {:induction false} ReadOnlyStands(w: World, steps: seq<BusAccess>, i: nat, x: int)
    requires AllSized(steps) && LegalTable(w.ram.regions) && Contains(w.ram.regions, i, x, 1)
    requires !w.ram.regions[i].perms.write && x in w.ram.data
    ensures After(w, steps).ram.regions == w.ram.regions && x in After(w, steps).ram.data
    ensures After(w, steps).ram.data[x] == w.ram.data[x]
  {
    hide Perform, LegalTable;
    if steps != [] {
      var n := |steps| - 1;
      ReadOnlyStands(w, steps[..n], i, x);
      PerformSpares(After(w, steps[..n]), steps[n]);
      NotWritable(w.ram.regions, i, x);
    }
  }

  lemma NotWritable(rs: seq<Region>, i: nat, x: int)
    requires LegalTable(rs) && Contains(rs, i, x, 1) && !rs[i].perms.write
    ensures !Writable(rs, x)
  {
    forall j | Contains(rs, j, x, 1) ensures j == i {
      assert i < j ==> Apart(rs[i], rs[j]);
      assert j < i ==> Apart(rs[j], rs[i]);
    }
  }

  /** Over every chain of memories that each operation leaves to the next, too. */
  lemma {:induction false} ReadOnlyChain(ms: seq<Ram>, i: nat, x: int)
    requires ms != [] && LegalTable(ms[0].regions) && Contains(ms[0].regions, i, x, 1)
    requires !ms[0].regions[i].perms.write && x in ms[0].data
    requires forall k :: 0 <= k < |ms| - 1 ==> WritesOnlyWritable(ms[k], ms[k + 1])
    ensures ms[|ms| - 1].regions == ms[0].regions && x in ms[|ms| - 1].data
    ensures ms[|ms| - 1].data[x] == ms[0].data[x]
  {
    hide LegalTable, Contains;
    if |ms| > 1 {
      var n := |ms| - 1;
      assert forall k :: 0 <= k < n ==> ms[..n][k] == ms[k];
      ReadOnlyChain(ms[..n], i, x);
      assert WritesOnlyWritable(ms[n - 1], ms[n - 1 + 1]);
      NotWritable(ms[0].regions, i, x);
    }
  }

  // ----- every operation is a link of such a chain -----

  method WriteSpares(mem: AddressSpace, a: u64, n: nat, value: u64) returns (s: Status)
    requires mem.Valid() && TransferSize(n)
    modifies mem`view, mem.hosts
    ensures mem.Valid() && WritesOnlyWritable(old(mem.view), mem.view)
    ensures s == OK <==> exists i :: Contains(mem.regions, i, a, n) && mem.regions[i].perms.write
    ensures s != OK ==> mem.view == old(mem.view)
  {
    ghost var m := mem.view;
    StoreNeedsWrite(m, a, n, value);
    s := mem.Write(a, n, value);
    if s == OK {
      StoreSpares(m, a, n, value);
    }
  }

  method DispatchSpares(hart: Executor.Hart, insn: Insn) returns (s: Status)
    requires hart.Valid() && WellFormedInsn(insn)
    modifies hart`regs, hart`monitor, hart.bus`view, hart.bus.hosts
    ensures hart.Valid() && WritesOnlyWritable(old(hart.bus.view), hart.bus.view)
  {
    hide Perform, AccessOf, Retired, Writable;
    ghost var w, r := hart.Now(), hart.regs;
    s := hart.Dispatch(insn);
    if IsMemory(insn.op) {
      PerformSpares(w, AccessOf(r, insn));
    }
  }

  method TranslatedWriteSpares(mmu: Mmu, va: u64, n: nat, value: u64) returns (s: Status, ghost pas: seq<u64>)
    requires mmu.Valid() && TransferSize(n)
    modifies mmu`epoch, mmu`hits, mmu`misses, mmu`flushes, mmu`fault, mmu.tlb, mmu.bus`view, mmu.bus.hosts
    ensures mmu.Valid() && WritesOnlyWritable(old(mmu.bus.view), mmu.bus.view)
    ensures s == OK ==> |pas| == n && forall k :: 0 <= k < n ==> Writable(old(mmu.bus.regions), pas[k])
    ensures s != OK ==> mmu.bus.view == old(mmu.bus.view)
  {
    hide Landed, Writable, TranslationCache.Shaped, ToBytes, Refusal, AllSettled, SameSlots, Covered, AskByte;
    ghost var t, m := mmu.State(), mmu.bus.view;
    s, pas := mmu.Write(va, n, value);
    if s == OK {
      LandedSpares(t, mmu.control, m, mmu.bus.view, va, Access(mmu.el, true, false), pas, ToBytes(value, n));
      forall k | 0 <= k < n ensures Writable(m.regions, pas[k]) {
        assert Covered(m.regions, pas[k], 1, WRITE);
        CoveredWritable(m.regions, pas[k], 1, pas[k]);
      }
    }
  }

  method ExecuteSpares(mmu: Mmu, monitor: Monitor, regs: Regs, insn: Insn)
    returns (r: Transfer, after: Regs, monitor': Monitor, ghost pas: seq<u64>)
    requires mmu.Valid() && IsMemory(insn.op) && WellFormedInsn(insn)
    modifies mmu`epoch, mmu`hits, mmu`misses, mmu`flushes, mmu`fault, mmu.tlb, mmu.bus`view, mmu.bus.hosts
    ensures mmu.Valid() && WritesOnlyWritable(old(mmu.bus.view), mmu.bus.view)
  {
    hide Located, Landed, Writable, TranslationCache.Shaped, RegistersMoved, AccessOf, Moves, InsnRefusal, RunBytes;
    ghost var t, m, a := mmu.State(), mmu.bus.view, AccessOf(regs, insn);
    r, after, monitor', pas := Execute(mmu, monitor, regs, insn);
    if r == Committed && IsWrite(a) && Moves(a, monitor) {
      LandedSpares(t, mmu.control, m, mmu.bus.view, a.addr, TranslationAccess(mmu.el, a), pas,
                   RunBytes(StoredValues(a), a.n));
    }
  }

  method SystemInstructionSpares(mmu: Mmu, monitor: Monitor, sel: nat, word: nat, addr: u64)
    returns (action: VcpuRun.SysAction, monitor': Monitor, ghost pas: seq<u64>)
    requires mmu.Valid()
    modifies mmu`epoch, mmu`hits, mmu`misses, mmu`flushes, mmu`fault, mmu.tlb, mmu.bus`view, mmu.bus.hosts
    ensures mmu.Valid() && WritesOnlyWritable(old(mmu.bus.view), mmu.bus.view)
  {
    hide Located, Landed, Writable, TranslationCache.Shaped, SystemInstructions.ClassOf, Cleared, LineRefusal, LineOf;
    hide SystemInstructions.InItsBlock;
    ghost var t, m := mmu.State(), mmu.bus.view;
    action, monitor', pas := SystemInstructions.Perform(mmu, monitor, sel, word, addr);
    if SystemInstructions.ClassOf(sel).LineZero? && action.Maintenance? {
      LandedSpares(t, mmu.control, m, mmu.bus.view, LineOf(addr), Access(mmu.el, true, false), pas, Zeros(LINE));
    }
  }

  // ----- the table itself -----

  /** Some address lies both in the new region and in one of the table's. */
  ghost predicate Meets(rs: seq<Region>, base: int, size: int) {
    exists j: int, x: int :: 0 <= j < |rs| && InRange(x, base, size) && InRange(x, rs[j].base, rs[j].size)
  }

  /** Whether a region can be mapped, and else why not: the first of these reasons. */
  lemma MapVerdict(rs: seq<Region>, capacity: nat, r: Region, count: nat, allocOk: bool)
    requires LegalTable(rs)
    ensures MapStatus(rs, capacity, r, count, allocOk) ==
            if r.size == 0 || (!r.perms.read && !r.perms.write && !r.perms.exec) then INVALID_ARG
            else if r.base + r.size > 0x1_0000_0000_0000_0000 then OVERFLOW
            else if |rs| >= capacity || Meets(rs, r.base, r.size) then RANGE
            else if count > r.size then INVALID_ARG
            else if !allocOk then NO_MEMORY
            else OK
  {
    if r.size > 0 {
      ApartIsDisjoint(rs, r);
    }
  }

  lemma ApartIsDisjoint(rs: seq<Region>, r: Region)
    requires LegalTable(rs) && r.size > 0
    ensures AllApart(r, rs) <==> !Meets(rs, r.base, r.size)
  {
    if !AllApart(r, rs) {
      var j :| 0 <= j < |rs| && !Apart(r, rs[j]);
      var x := if r.base < rs[j].base then rs[j].base else r.base;
      assert InRange(x, r.base, r.size) && InRange(x, rs[j].base, rs[j].size);
    }
    if Meets(rs, r.base, r.size) {
      var j: int, x: int :| 0 <= j < |rs| && InRange(x, r.base, r.size) && InRange(x, rs[j].base, rs[j].size);
      assert !Apart(r, rs[j]);
    }
  }

  /** A mapped region begins with its contents and goes on with zeros; every other address is as it was. */
  lemma MapShows(m: Ram, r: Region, contents: seq<u8>, a: int)
    requires |contents| <= r.size
    ensures
      var m' := MapRegion(m, r.base, r.size, r.perms, contents);
      && m'.regions == m.regions + [r]
      && if r.base <= a < r.base + r.size then
           a in m'.data && m'.data[a] == if a < r.base + |contents| then contents[a - r.base] else 0
         else (a in m'.data <==> a in m.data) && ByteAt(m'.data, a) == ByteAt(m.data, a)
  {
  }
}
