/** The user-mode executor over the physical bus: each memory form, and the dispatch, in place and precise. */
module Executor {
  import opened Words
  import opened FlatMemory
  import opened GuestMemory
  import opened ExclusiveMonitor
  import opened RegisterFile
  import Alu

  class Hart {
    const bus: AddressSpace
    var regs: Regs
    var monitor: Monitor

    ghost predicate Valid()
      reads this, bus, bus.hosts
    {
      bus.Valid()
    }

    ghost function Now(): World
      reads this, bus
    {
      World(monitor, bus.view)
    }

    constructor (bus: AddressSpace, entry: u64, stack: u64)
      requires bus.Valid()
      ensures Valid() && this.bus == bus && !monitor.valid
      ensures regs == Regs(seq(31, i => 0), stack, entry, NoFlags(), seq(32, i => Vec(0, 0)), 0)
      ensures !regs.nzcv.n && !regs.nzcv.z && !regs.nzcv.c && !regs.nzcv.v
    {
      this.bus := bus;
      regs := Regs(seq(31, i => 0), stack, entry, NoFlags(), seq(32, i => Vec(0, 0)), 0);
      monitor := Monitor(0, 0, false);
    }

    /** Every piece is checked before any is moved. */
    method Validated(addr: u64, n: nat, count: nat, need: Perms) returns (s: Status)
      requires Valid() && TransferSize(n)
      ensures s == if AllGranted(bus.regions, addr, n, count, need) then OK else FAULT
    {
      hide Covered, Piece;
      var k := 0;
      while k < count
        invariant 0 <= k <= count && AllGranted(bus.regions, addr, n, k, need)
      {
        s := bus.Validate(Piece(addr, k, n), n, need);
        if s != OK {
          return FAULT;
        }
        k := k + 1;
      }
      return OK;
    }

    method StorePieces(addr: u64, n: nat, values: seq<u64>)
      requires Valid() && TransferSize(n) && AllGranted(bus.regions, addr, n, |values|, WRITE)
      modifies bus`view, bus.hosts
      ensures Valid() && bus.view == StoreAll(old(bus.view), addr, n, values)
    {
      hide Covered, Piece, ToBytes;
      assert values[..0] == [];
      var k := 0;
      while k < |values|
        invariant 0 <= k <= |values| && Valid()
        invariant bus.view == StoreAll(old(bus.view), addr, n, values[..k])
      {
        NextStore(old(bus.view), addr, n, values, k);
        assert Covered(bus.regions, Piece(addr, k, n), n, WRITE);
        var s := bus.Write(Piece(addr, k, n), n, values[k]);
        if s != OK {
          assert false;
        }
        k := k + 1;
      }
      assert values[..k] == values;
    }

    method LoadPieces(addr: u64, n: nat, count: nat, signed: bool) returns (vs: seq<u64>)
      requires Valid() && TransferSize(n) && AllGranted(bus.regions, addr, n, count, READ)
      ensures vs == AllFetched(bus.view, addr, count, n, signed)
    {
      hide Covered, Piece, LittleEndian, SignExtend, Fetched;
      vs := [];
      var k := 0;
      while k < count
        invariant 0 <= k <= count && vs == AllFetched(bus.view, addr, k, n, signed)
      {
        assert Covered(bus.regions, Piece(addr, k, n), n, READ);
        FetchedIsLoad(bus.view, addr, k, n, signed);
        var s, v := bus.Read(Piece(addr, k, n), n, signed);
        if s != OK {
          assert false;
        }
        vs := vs + [v];
        k := k + 1;
      }
    }

    method NoteStore(addr: u64, nbytes: nat)
      modifies this`monitor
      ensures monitor == Noted(old(monitor), addr, nbytes)
    {
      if !monitor.valid {
        return;
      }
      var overlap := if monitor.addr <= addr then addr - monitor.addr < monitor.size else monitor.addr - addr < nbytes;
      if overlap {
        monitor := monitor.(valid := false);
      }
    }

    method DoSingleMem(insn: Insn) returns (s: Status)
      requires Valid() && WellFormedInsn(insn) && IsMemory(insn.op)
      requires !IsPair(insn.op) && insn.op != Ldxr && insn.op != Stxr && !IsSingleVector(insn)
      modifies this`regs, this`monitor, bus`view, bus.hosts
      ensures Valid() && Committed(old(regs), insn, old(Now()), regs, Now(), s) && (s == OK || s == FAULT)
    {
      hide Covered, ToBytes, Fetched, Offset, StoreAll, Noted, AllGranted, Put;
      var addr := Address(regs, insn);
      var next := Written(regs, insn);
      s := Validated(addr, insn.size, 1, if IsStore(insn.op) then WRITE else READ);
      if s != OK {
        return FAULT;
      }
      if IsStore(insn.op) {
        StorePieces(addr, insn.size, [Read(regs, insn.rd, insn.w32)]);
        NoteStore(addr, insn.size);
      } else {
        var vs := LoadPieces(addr, insn.size, 1, insn.signed && !insn.vector);
        regs := Write(regs, insn.rd, insn.w32, vs[0]);
      }
      if insn.index != NoIndex && !IsLiteral(insn) {
        regs := WriteBase(regs, insn.rn, next);
      }
    }

    method DoPair(insn: Insn) returns (s: Status)
      requires Valid() && WellFormedInsn(insn) && IsPair(insn.op) && !IsPairVector(insn)
      modifies this`regs, this`monitor, bus`view, bus.hosts
      ensures Valid() && Committed(old(regs), insn, old(Now()), regs, Now(), s) && (s == OK || s == FAULT)
    {
      hide Covered, ToBytes, Fetched, Offset, StoreAll, Noted, AllGranted, Put;
      var addr := Address(regs, insn);
      var next := Written(regs, insn);
      s := Validated(addr, insn.size, 2, if insn.op == Stp then WRITE else READ);
      if s != OK {
        return FAULT;
      }
      if insn.op == Stp {
        StorePieces(addr, insn.size, [Read(regs, insn.rd, insn.w32), Read(regs, insn.rt2, insn.w32)]);
        NoteStore(addr, insn.size * 2);
      } else {
        var vs := LoadPieces(addr, insn.size, 2, insn.signed && !insn.vector);
        regs := Write(regs, insn.rd, insn.w32, vs[0]);
        regs := Write(regs, insn.rt2, insn.w32, vs[1]);
      }
      if insn.index != NoIndex {
        regs := WriteBase(regs, insn.rn, next);
      }
    }

    /** Puts the loaded pieces of a vector pair into its registers; a narrow form clears the rest. */
    method LoadVectors(insn: Insn, pieces: nat, vs: seq<u64>)
      requires WellFormedInsn(insn) && IsPairVector(insn) && AccessOf(regs, insn).Loads?
      requires pieces == (if insn.size == 16 then 2 else 1) && |vs| == 2 * pieces == AccessOf(regs, insn).count
      modifies this`regs
      ensures regs == Loaded(old(regs), insn, vs)
    {
      hide AccessOf, Address, Offset;
      regs := regs.(v := regs.v[insn.rd := Vec(vs[0], if pieces == 2 then vs[1] else 0)]);
      regs := regs.(v := regs.v[insn.rt2 := Vec(vs[pieces], if pieces == 2 then vs[3] else 0)]);
    }

    method DoPairVector(insn: Insn) returns (s: Status)
      requires Valid() && WellFormedInsn(insn) && IsPairVector(insn)
      modifies this`regs, this`monitor, bus`view, bus.hosts
      ensures Valid() && Committed(old(regs), insn, old(Now()), regs, Now(), s) && (s == OK || s == FAULT)
    {
      hide Covered, ToBytes, Fetched, Offset, StoreAll, Noted, AllGranted, Put, Loaded, Address, Written, WriteBase;
      var addr := Address(regs, insn);
      var next := Written(regs, insn);
      var n, pieces := PieceSize(insn), if insn.size == 16 then 2 else 1;
      s := Validated(addr, n, 2 * pieces, if insn.op == Stp then WRITE else READ);
      if s != OK {
        return FAULT;
      }
      if insn.op == Stp {
        StorePieces(addr, n, Halves(regs.v[insn.rd], insn.size) + Halves(regs.v[insn.rt2], insn.size));
        NoteStore(addr, insn.size * 2);
      } else {
        var vs := LoadPieces(addr, n, 2 * pieces, false);
        LoadVectors(insn, pieces, vs);
      }
      if insn.index != NoIndex {
        regs := WriteBase(regs, insn.rn, next);
      }
    }

    method DoSingleVector(insn: Insn) returns (s: Status)
      requires Valid() && WellFormedInsn(insn) && IsSingleVector(insn)
      modifies this`regs, bus`view, bus.hosts
      ensures Valid() && Committed(old(regs), insn, old(Now()), regs, Now(), s) && (s == OK || s == FAULT)
    {
      hide Covered, ToBytes, Fetched, Offset, StoreAll, Noted, AllGranted, Put;
      var addr := Address(regs, insn);
      var next := Written(regs, insn);
      s := Validated(addr, 8, 2, if insn.op == Str then WRITE else READ);
      if s != OK {
        return FAULT;
      }
      if insn.op == Str {
        StorePieces(addr, 8, [regs.v[insn.rd].lo, regs.v[insn.rd].hi]);
      } else {
        var vs := LoadPieces(addr, 8, 2, false);
        regs := regs.(v := regs.v[insn.rd := Vec(vs[0], vs[1])]);
      }
      if insn.index != NoIndex {
        regs := WriteBase(regs, insn.rn, next);
      }
    }

    method DoExclusive(insn: Insn) returns (s: Status)
      requires Valid() && WellFormedInsn(insn) && (insn.op == Ldxr || insn.op == Stxr)
      modifies this`regs, this`monitor, bus`view, bus.hosts
      ensures Valid() && Committed(old(regs), insn, old(Now()), regs, Now(), s) && (s == OK || s == FAULT)
      ensures insn.op == Stxr && s == OK ==> StatusTells(old(regs), regs, insn, Stood(old(monitor), old(regs), insn))
    {
      hide Covered, ToBytes, Fetched, Offset, StoreAll, Noted, AllGranted, Put, StatusTells, Stood;
      if insn.op == Stxr {
        StatusMeans(regs, insn, monitor);
      }
      var addr, n := ReadBase(regs, insn.rn), insn.size;
      OnePiece(bus.view, addr, n);
      s := bus.Validate(addr, n, if insn.op == Ldxr then READ else WRITE);
      if s != OK {
        return FAULT;
      }
      if insn.op == Ldxr {
        var vs := LoadPieces(addr, n, 1, false);
        regs := Write(regs, insn.rd, insn.w32, vs[0]);
        monitor := Monitor(addr, n, true);
        return OK;
      }
      var success := monitor.valid && monitor.addr == addr && monitor.size == n;
      monitor := monitor.(valid := false);
      if success {
        s := bus.Write(addr, n, Read(regs, insn.rd, insn.w32));
        if s != OK {
          assert false;
        }
      }
      regs := Write(regs, insn.rm, true, if success then 0 else 1);
    }

    method DoMemory(insn: Insn) returns (s: Status)
      requires Valid() && WellFormedInsn(insn) && IsMemory(insn.op)
      modifies this`regs, this`monitor, bus`view, bus.hosts
      ensures Valid() && Committed(old(regs), insn, old(Now()), regs, Now(), s) && (s == OK || s == FAULT)
    {
      hide Committed;
      match insn.op {
        case Ldr | Str =>
          if insn.vector {
            s := DoSingleVector(insn);
          } else {
            s := DoSingleMem(insn);
          }
        case Ldrs | Ldar | Stlr => s := DoSingleMem(insn);
        case Ldp | Stp =>
          if insn.vector {
            s := DoPairVector(insn);
          } else {
            s := DoPair(insn);
          }
        case Ldpsw => s := DoPair(insn);
        case Ldxr | Stxr => s := DoExclusive(insn);
      }
    }

    /** An instruction that leaves memory alone. */
    method DoPlain(insn: Insn) returns (s: Status)
      requires !IsMemory(insn.op)
      modifies this`regs
      ensures s == if Performs(old(regs), insn.op) then OK else if insn.op.Trapped? then FAULT else UNSUPPORTED
      ensures regs == if s == OK then Effect(old(regs), insn) else old(regs)
    {
      hide Write, Read, UserRead, UserWrite, AddSubResult, AddCarryResult, MulHighResult;
      match insn.op {
        case AddSub(_, _, _, _, _) => regs := AddSubResult(regs, insn);
        case AddCarry(_, _) => regs := AddCarryResult(regs, insn);
        case MulHigh(_) => regs := MulHighResult(regs, insn);
        case Compute(value, flags) =>
          regs := Write(regs, insn.rd, insn.w32, value);
          if flags.Some? {
            regs := regs.(nzcv := flags.value);
          }
        case CopyToVector => regs := regs.(v := regs.v[insn.rd := Vec(Read(regs, insn.rm, false), 0)]);
        case Branch(target, link) =>
          if link {
            regs := Write(regs, 30, false, Wrap(regs.pc + 4));
          }
          regs := regs.(pc := target);
          return OK;
        case BranchIf(target, cond) =>
          if Alu.CondHolds(regs.nzcv, cond) {
            regs := regs.(pc := target);
            return OK;
          }
        case Nop =>
        case Mrs(sel) =>
          var value := UserRead(regs, sel);
          if value.None? {
            return UNSUPPORTED;
          }
          regs := Write(regs, insn.rd, false, value.value);
        case Msr(sel) =>
          if !UserWritable(sel) {
            return UNSUPPORTED;
          }
          regs := UserWrite(regs, sel, Read(regs, insn.rd, false));
        case Svc(answer) =>
          if answer.None? {
            return UNSUPPORTED;
          }
          regs := Write(regs, 0, false, answer.value);
        case Refused => return UNSUPPORTED;
        case Trapped => return FAULT;
      }
      regs := Stepped(regs);
      return OK;
    }

    /** One instruction in user mode: it completes and the PC moves, or nothing at all has changed. */
    method Dispatch(insn: Insn) returns (s: Status)
      requires Valid() && WellFormedInsn(insn)
      modifies this`regs, this`monitor, bus`view, bus.hosts
      ensures Valid()
      ensures s != OK ==> regs == old(regs) && monitor == old(monitor) && bus.view == old(bus.view)
      ensures IsMemory(insn.op) ==>
                var after := Perform(old(Now()), AccessOf(old(regs), insn));
                && Now() == after.0 && s == after.1.status
                && (s == OK ==> regs == Stepped(Retired(old(regs), insn, old(bus.view), after.1.stored)))
      ensures !IsMemory(insn.op) ==> Now() == old(Now()) && (s == OK <==> Performs(old(regs), insn.op))
      ensures !IsMemory(insn.op) && s == OK ==> regs == Effect(old(regs), insn)
      ensures s != OK ==> s == if IsMemory(insn.op) || insn.op.Trapped? then FAULT else UNSUPPORTED
      ensures insn.op == Stxr && s == OK ==>
                && StatusTells(old(regs), regs, insn, Stood(old(monitor), old(regs), insn))
                && StoredIf(Stood(old(monitor), old(regs), insn), old(bus.view), bus.view, old(regs), insn)
    {
      hide Perform, AccessOf, Retired, WellFormedInsn, Effect, StatusTells, StoredIf, Stood;
      if IsMemory(insn.op) {
        s := DoMemory(insn);
        if s == OK {
          if insn.op == Stxr {
            ExclusiveTells(old(Now()), old(regs), insn);
            SteppedTells(old(regs), regs, insn, Stood(old(monitor), old(regs), insn));
          }
          regs := Stepped(regs);
        }
        return;
      }
      s := DoPlain(insn);
    }
  }

  /** If it stood, the range holds the stored bytes now and nothing else has changed; if not, nothing has. */
  ghost predicate StoredIf(stood: bool, m: Ram, m': Ram, r: Regs, insn: Insn) {
    var addr := if insn.rn == 31 then r.sp else r.x[insn.rn];
    if stood then
      && Bytes(m'.data, addr, insn.size) == ToBytes(Read(r, insn.rd, insn.w32), insn.size)
      && m'.data.Keys == m.data.Keys && m'.regions == m.regions
      && forall x :: x in m.data && !(addr <= x < addr + insn.size) ==> m'.data[x] == m.data[x]
    else m' == m
  }

  lemma SteppedTells(r: Regs, r': Regs, insn: Insn, stood: bool)
    requires StatusTells(r, r', insn, stood)
    ensures StatusTells(r, Stepped(r'), insn, stood)
  {
  }

  lemma ExclusiveTells(w: World, r: Regs, insn: Insn)
    requires insn.op == Stxr && WellFormedInsn(insn) && WellFormed(w.ram)
    requires Perform(w, AccessOf(r, insn)).1.status == OK
    ensures
      var after := Perform(w, AccessOf(r, insn));
      && StatusTells(r, Retired(r, insn, w.ram, after.1.stored), insn, Stood(w.monitor, r, insn))
      && StoredIf(Stood(w.monitor, r, insn), w.ram, after.0.ram, r, insn)
  {
    hide AccessOf, Retired, Delivered, ToBytes, Covered, WellFormed, Read, StatusTells;
    StatusMeans(r, insn, w.monitor);
    var a := AccessOf(r, insn);
    if Stood(w.monitor, r, insn) {
      CoveredBytesMapped(w.ram, a.addr, a.n, WRITE);
      PutThere(w.ram.data, a.addr, ToBytes(a.value, a.n));
    }
  }

  function Stepped(r: Regs): Regs {
    r.(pc := Wrap(r.pc + 4))
  }

  /** A memory form either faulted with nothing changed, or did exactly its access and its register effect. */
  ghost predicate Committed(r: Regs, insn: Insn, w: World, r': Regs, w': World, s: Status)
    requires IsMemory(insn.op) && WellFormedInsn(insn)
  {
    var after := Perform(w, AccessOf(r, insn));
    && (w', s) == (after.0, after.1.status)
    && r' == (if s == OK then Retired(r, insn, w.ram, after.1.stored) else r)
    && (s != OK ==> w' == w)
  }

  /** The five registers user mode reads without a table. */
  function UserRead(r: Regs, sel: int): Option<u64> {
    if sel == 0x212 || sel == 0x1E83 then Some(0)
    else if sel == 0x208 then Some(r.sp)
    else if sel == 0x1A10 then Some(FlagsWord(r.nzcv))
    else if sel == 0x1E87 then Some(r.tpidr)
    else None
  }

  predicate UserWritable(sel: int) {
    sel == 0x208 || sel == 0x1A10 || sel == 0x1E87
  }

  function UserWrite(r: Regs, sel: int, v: u64): Regs {
    if sel == 0x208 then r.(sp := v)
    else if sel == 0x1A10 then r.(nzcv := WordFlags(v))
    else r.(tpidr := v)
  }

  /** The non-memory instructions that complete in user mode. */
  predicate Performs(r: Regs, op: Op) {
    match op
    case AddSub(_, _, _, _, _) => true
    case AddCarry(_, _) => true
    case MulHigh(_) => true
    case Compute(_, _) => true
    case CopyToVector => true
    case Branch(_, _) => true
    case BranchIf(_, _) => true
    case Nop => true
    case Mrs(sel) => UserRead(r, sel).Some?
    case Msr(sel) => UserWritable(sel)
    case Svc(answer) => answer.Some?
    case _ => false
  }

  function Effect(r: Regs, insn: Insn): Regs
    requires Performs(r, insn.op)
  {
    match insn.op
    case AddSub(_, _, _, _, _) => Stepped(AddSubResult(r, insn))
    case AddCarry(_, _) => Stepped(AddCarryResult(r, insn))
    case MulHigh(_) => Stepped(MulHighResult(r, insn))
    case Compute(value, flags) =>
      var w := Write(r, insn.rd, insn.w32, value);
      Stepped(if flags.Some? then w.(nzcv := flags.value) else w)
    case CopyToVector => Stepped(r.(v := r.v[insn.rd := Vec(Read(r, insn.rm, false), 0)]))
    case Branch(target, link) => (if link then Write(r, 30, false, Wrap(r.pc + 4)) else r).(pc := target)
    case BranchIf(target, cond) => if Alu.CondHolds(r.nzcv, cond) then r.(pc := target) else Stepped(r)
    case Mrs(sel) => Stepped(Write(r, insn.rd, false, UserRead(r, sel).value))
    case Msr(sel) => Stepped(UserWrite(r, sel, Read(r, insn.rd, false)))
    case Svc(answer) => Stepped(Write(r, 0, false, answer.value))
    case _ => Stepped(r)
  }

  /** A compare and the conditional branch after it: the branch is taken exactly when the named comparison holds, in
      the register, immediate and extended forms alike. */
  lemma CompareThenBranch(r: Regs, compare: Insn, branch: Insn, y: u64, target: u64, cond: nat)
    requires compare.op.AddSub? && compare.op.sub && compare.op.operand == y && compare.op.sets
    requires branch.op == BranchIf(target, cond)
    ensures
      var a, b := ReadForm(r, compare.rn, compare.op.rnSp, compare.w32), Alu.Truncate(y, compare.w32);
      Effect(Effect(r, compare), branch).pc
      == if Alu.Compares(cond % 16, a, b, compare.w32) then target else Wrap(Wrap(r.pc + 4) + 4)
  {
    hide Alu.CondHolds, Alu.Compares, Alu.AddWithCarry;
    var a := ReadForm(r, compare.rn, compare.op.rnSp, compare.w32);
    Alu.ConditionsCompare(a, y, compare.w32, cond);
    assert Alu.Truncate(a, compare.w32) == a;
    assert Alu.Subtract(a, y, compare.w32) == Alu.AddWithCarry(a, TWO64 - 1 - y, true, compare.w32);
  }

  lemma NextStore(m: Ram, addr: u64, n: nat, values: seq<u64>, k: nat)
    requires k < |values|
    ensures
      var before := StoreAll(m, addr, n, values[..k]);
      StoreAll(m, addr, n, values[..k + 1]) ==
        before.(data := Put(before.data, Piece(addr, k, n), ToBytes(values[k], n)))
  {
    hide Piece, ToBytes;
    assert values[..k + 1][..k] == values[..k];
  }

  lemma FetchedIsLoad(m: Ram, addr: u64, k: nat, n: nat, signed: bool)
    requires TransferSize(n) && Covered(m.regions, Piece(addr, k, n), n, READ)
    ensures
      var v := Load(m, Piece(addr, k, n), n);
      && v.Some? && v.value < Pow256(n) <= TWO64
      && Fetched(m, addr, k, n, signed) == if signed then SignExtend(v.value, n) else v.value
  {
    hide LittleEndian, SignExtend, Covered;
    TransferFits(n);
    LittleEndianBound(Bytes(m.data, Piece(addr, k, n), n));
  }

  lemma OnePiece(m: Ram, addr: u64, n: nat)
    ensures Piece(addr, 0, n) == addr
    ensures forall p :: AllGranted(m.regions, addr, n, 1, p) == Covered(m.regions, addr, n, p)
  {
    hide Covered;
    assert Piece(addr, 0, n) == addr;
    forall p: Perms ensures AllGranted(m.regions, addr, n, 1, p) == Covered(m.regions, addr, n, p) {
      assert AllGranted(m.regions, addr, n, 1, p) ==> Covered(m.regions, Piece(addr, 0, n), n, p);
    }
  }
}
